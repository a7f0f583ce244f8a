/** Cancelling timers and letting them run out. */
module TimerExpiry {
  import opened TimerList

  // ----- removeValue

  /** The first timer from i on with the given number, or their number. */
  function Find(l: seq<Timer>, bsn: int, i: int): (k: int)
    requires 0 <= i <= |l|
    ensures i <= k <= |l|
    ensures k < |l| ==> l[k].bsn == bsn
    ensures forall j | i <= j < k :: l[j].bsn != bsn
    decreases |l| - i
  {
    if i < |l| && l[i].bsn != bsn then Find(l, bsn, i + 1) else i
  }

  /** timerprocess.c:151-182: the successor takes over the removed time, made an int. */
  function RemoveAt(l: seq<Timer>, i: int): seq<Timer>
    requires 0 <= i < |l|
  {
    if i + 1 == |l| then l[..i]
    else l[..i] + [l[i + 1].(dtime := l[i + 1].dtime + Trunc(l[i].dtime) as real)] + l[i + 2..]
  }

  function Remove(l: seq<Timer>, bsn: int): (seq<Timer>, int) {
    if l == [] then (l, 0)
    else if Find(l, bsn, 0) == |l| then (l, -1)
    else (RemoveAt(l, Find(l, bsn, 0)), 0)
  }

  /** A number that no timer carries: nothing changes, and the result says so unless the list
      is empty. */
  lemma RemoveUnknown(l: seq<Timer>, bsn: int)
    requires forall i | 0 <= i < |l| :: l[i].bsn != bsn
    ensures Remove(l, bsn) == (l, if l == [] then 0 else -1)
  {
  }

  /** Otherwise the first timer with the number is gone, and the others stay in order. */
  lemma RemoveFirst(l: seq<Timer>, bsn: int, k: int)
    requires 0 <= k < |l| && l[k].bsn == bsn && forall i | 0 <= i < k :: l[i].bsn != bsn
    ensures var (m, result) := Remove(l, bsn);
      && result == 0
      && |m| == |l| - 1
      && forall j | 0 <= j < |m| :: Alike(m[j], l[Kept(j, k)])
  {
    assert Find(l, bsn, 0) == k;
  }

  /** The timer that is at place k after timer i is taken out. */
  function Kept(k: int, i: int): int {
    if k < i then k else k + 1
  }

  function Fraction(x: real): real {
    x - Trunc(x) as real
  }

  lemma FractionRange(x: real)
    ensures x >= 0.0 ==> 0.0 <= Fraction(x) < 1.0 && Trunc(x) >= 0
    ensures x <= 0.0 ==> -1.0 < Fraction(x) <= 0.0 && Trunc(x) <= 0
    ensures -1.0 < x < 1.0 ==> Trunc(x) == 0
    ensures x <= -1.0 ==> Trunc(x) <= -1
  {
  }

  /** Removing timer i leaves the deadlines before it alone and moves every later one
      earlier by the fractional part of its time. */
  lemma RemoveMovesDeadlines(l: seq<Timer>, i: int, j: int)
    requires 0 <= i < |l| && 0 <= j < |l| && j != i
    ensures var m, k := RemoveAt(l, i), if j < i then j else j - 1;
      && |m| == |l| - 1
      && Alike(m[k], l[j])
      && Deadline(m, k) == Deadline(l, j) - (if j < i then 0.0 else Fraction(l[i].dtime))
  {
    var m := RemoveAt(l, i);
    if j < i {
      SumSame(l, m, j + 1);
    } else {
      SumSame(l, m, i);
      assert Sum(l, i + 2) == Sum(l, i) + l[i].dtime + l[i + 1].dtime;
      assert Sum(m, i + 1) == Sum(m, i) + l[i + 1].dtime + Trunc(l[i].dtime) as real;
      SumShift(l, m, i + 2, i + 1, j + 1);
    }
  }

  lemma RemoveKeepsNonNegative(l: seq<Timer>, i: int)
    requires NonNegative(l) && 0 <= i < |l|
    ensures NonNegative(RemoveAt(l, i))
  {
    FractionRange(l[i].dtime);
  }

  // ----- many cancels

  /** Timers with the deadline each had to begin with. */
  datatype Tracked = Tracked(l: seq<Timer>, asked: seq<real>)

  /** removeValue, and with a timer goes the deadline it had. */
  function Cancel(t: Tracked, bsn: int): (after: Tracked)
    requires |t.l| == |t.asked|
    ensures |after.l| == |after.asked|
  {
    var i := Find(t.l, bsn, 0);
    Tracked(Remove(t.l, bsn).0, if i == |t.l| then t.asked else t.asked[..i] + t.asked[i + 1..])
  }

  function CancelAll(t: Tracked, bsns: seq<int>): Tracked
    requires |t.l| == |t.asked|
    ensures |CancelAll(t, bsns).l| == |CancelAll(t, bsns).asked|
    decreases |bsns|
  {
    if bsns == [] then t else Cancel(CancelAll(t, bsns[..|bsns| - 1]), bsns[|bsns| - 1])
  }

  /** Every timer is due within `slack` of when it was asked for. */
  ghost predicate Drifted(t: Tracked, slack: real, strict: bool) {
    && |t.l| == |t.asked|
    && forall i | 0 <= i < |t.l| ::
         && t.asked[i] - slack <= Deadline(t.l, i) <= t.asked[i] + slack
         && (strict ==> t.asked[i] - slack < Deadline(t.l, i) < t.asked[i] + slack)
  }

  lemma CancelMoves(t: Tracked, bsn: int, k: int)
    requires |t.l| == |t.asked| && Find(t.l, bsn, 0) < |t.l| && 0 <= k < |t.l| - 1
    ensures var i, after := Find(t.l, bsn, 0), Cancel(t, bsn);
      && |after.l| == |t.l| - 1
      && after.asked[k] == t.asked[Kept(k, i)]
      && Deadline(after.l, k) == Deadline(t.l, Kept(k, i)) - (if k < i then 0.0 else Fraction(t.l[i].dtime))
  {
    RemoveMovesDeadlines(t.l, Find(t.l, bsn, 0), Kept(k, Find(t.l, bsn, 0)));
  }

  lemma CancelDrifts(t: Tracked, slack: real, strict: bool, bsn: int)
    requires Drifted(t, slack, strict)
    ensures Drifted(Cancel(t, bsn), slack + 1.0, true)
  {
    var i, after := Find(t.l, bsn, 0), Cancel(t, bsn);
    if i < |t.l| {
      FractionRange(t.l[i].dtime);
      forall k | 0 <= k < |after.l|
        ensures after.asked[k] - (slack + 1.0) < Deadline(after.l, k) < after.asked[k] + (slack + 1.0)
      {
        CancelMoves(t, bsn, k);
        var j := Kept(k, i);
        assert t.asked[j] - slack <= Deadline(t.l, j) <= t.asked[j] + slack;
      }
    } else {
      forall k | 0 <= k < |after.l|
        ensures after.asked[k] - (slack + 1.0) < Deadline(after.l, k) < after.asked[k] + (slack + 1.0)
      {
        assert t.asked[k] - slack <= Deadline(t.l, k) <= t.asked[k] + slack;
      }
    }
  }

  /** Whatever the list, k cancels move no timer by k seconds, either way. */
  lemma {:induction false} CancelsDriftLessThanTheirNumber(t: Tracked, bsns: seq<int>)
    requires Drifted(t, 0.0, false)
    ensures Drifted(CancelAll(t, bsns), |bsns| as real, |bsns| > 0)
    decreases |bsns|
  {
    if bsns == [] {
    } else {
      var n := |bsns| - 1;
      CancelsDriftLessThanTheirNumber(t, bsns[..n]);
      CancelDrifts(CancelAll(t, bsns[..n]), n as real, n > 0, bsns[n]);
    }
  }

  /** No timer is due after it was asked for. */
  ghost predicate NotLate(t: Tracked) {
    && |t.l| == |t.asked|
    && forall i | 0 <= i < |t.l| :: Deadline(t.l, i) <= t.asked[i]
  }

  /** While no time in the list is negative, cancels make no timer late. */
  lemma {:induction false} CancelsMakeNoneLate(t: Tracked, bsns: seq<int>)
    requires NotLate(t) && NonNegative(t.l)
    ensures NotLate(CancelAll(t, bsns)) && NonNegative(CancelAll(t, bsns).l)
    decreases |bsns|
  {
    if bsns == [] {
    } else {
      var before, bsn := CancelAll(t, bsns[..|bsns| - 1]), bsns[|bsns| - 1];
      CancelsMakeNoneLate(t, bsns[..|bsns| - 1]);
      var i, after := Find(before.l, bsn, 0), Cancel(before, bsn);
      if i < |before.l| {
        RemoveKeepsNonNegative(before.l, i);
        FractionRange(before.l[i].dtime);
        forall k | 0 <= k < |after.l|
          ensures Deadline(after.l, k) <= after.asked[k]
        {
          CancelMoves(before, bsn, k);
          assert Deadline(before.l, Kept(k, i)) <= before.asked[Kept(k, i)];
        }
      }
    }
  }

  /** After the inserts of NegativeTime, cancelling the fourth timer makes the third half
      a second late. */
  lemma CancelMakesLate()
    ensures var l := Insert(Insert(Insert(Insert(Insert([], 10.0, 0, 1), 20.0, 0, 2), 30.0, 0, 3), 30.5, 0, 4), 15.0, 0, 5);
      && |l| == 5 && l[4].bsn == 3 && Deadline(l, 4) == 30.0
      && Remove(l, 4).0 == l[..3] + [Timer(5.5, 0, 3)]
      && Deadline(Remove(l, 4).0, 3) == 30.5
  {
    NegativeTime();
    var l := [Timer(10.0, 0, 1), Timer(10.0, 0, 2), Timer(5.0, 0, 5), Timer(-4.5, 0, 4), Timer(9.5, 0, 3)];
    assert Sum(l, 1) == 10.0 && Sum(l, 2) == 20.0 && Sum(l, 3) == 25.0 && Sum(l, 4) == 20.5 && Sum(l, 5) == 30.0;
    assert Find(l, 4, 3) == 3;
    assert Find(l, 4, 0) == Find(l, 4, 1) == Find(l, 4, 2) == 3;
    assert Trunc(-4.5) == -4;
    RemoveMovesDeadlines(l, 3, 4);
  }

  ghost predicate Integral(l: seq<Timer>) {
    forall i | 0 <= i < |l| :: Fraction(l[i].dtime) == 0.0
  }

  /** The deadlines of exactly the asked ones. */
  ghost predicate Punctual(t: Tracked) {
    && |t.l| == |t.asked|
    && forall i | 0 <= i < |t.l| :: Deadline(t.l, i) == t.asked[i]
  }

  lemma TruncInt(n: int)
    ensures Trunc(n as real) == n
  {
  }

  lemma TruncSum(x: real, y: real)
    requires Fraction(x) == 0.0 && Fraction(y) == 0.0
    ensures Fraction(x + y) == 0.0 && Trunc(y) as real == y
  {
    var n := Trunc(x) + Trunc(y);
    assert x + y == n as real;
    TruncInt(n);
  }

  /** Whole-second timers never drift, whatever their signs. */
  lemma {:induction false} IntegralTimersDoNotDrift(t: Tracked, bsns: seq<int>)
    requires Punctual(t) && Integral(t.l)
    ensures Punctual(CancelAll(t, bsns)) && Integral(CancelAll(t, bsns).l)
    decreases |bsns|
  {
    if bsns == [] {
    } else {
      IntegralTimersDoNotDrift(t, bsns[..|bsns| - 1]);
      CancelPunctual(CancelAll(t, bsns[..|bsns| - 1]), bsns[|bsns| - 1]);
    }
  }

  lemma CancelPunctual(t: Tracked, bsn: int)
    requires Punctual(t) && Integral(t.l)
    ensures Punctual(Cancel(t, bsn)) && Integral(Cancel(t, bsn).l)
  {
    var i, after := Find(t.l, bsn, 0), Cancel(t, bsn);
    if i < |t.l| {
      if i + 1 < |t.l| { TruncSum(t.l[i + 1].dtime, t.l[i].dtime); }
      forall k | 0 <= k < |after.l|
        ensures Deadline(after.l, k) == after.asked[k]
      {
        CancelMoves(t, bsn, k);
        assert t.asked[Kept(k, i)] == Deadline(t.l, Kept(k, i));
      }
    }
  }

  // ----- decrement

  /** The head's time goes on by `elapsed`. */
  function Later(l: seq<Timer>, elapsed: real): seq<Timer>
    requires |l| > 0
  {
    l[0 := l[0].(dtime := l[0].dtime - elapsed)]
  }

  /** The head's overdue time is passed to its successor before it is removed
      (timerprocess.c:246-247). */
  function Overdue(l: seq<Timer>): seq<Timer>
    requires |l| > 1
  {
    RemoveAt(l[1 := l[1].(dtime := l[1].dtime + l[0].dtime)], 0)
  }

  /** The loop at timerprocess.c:238-249: the numbers fired and what is left. */
  function RunOut(l: seq<Timer>): (seq<int>, seq<Timer>)
    requires |l| > 0
    decreases |l|
  {
    if l[0].dtime > 0.0 then ([], l)
    else if |l| == 1 then ([l[0].bsn], [])
    else var (fired, rest) := RunOut(Overdue(l)); ([l[0].bsn] + fired, rest)
  }

  /** timerprocess.c:217-255. */
  function Decrement(l: seq<Timer>, elapsed: real): (seq<int>, seq<Timer>) {
    if l == [] then ([], l)
    else
      var m := Later(l, elapsed);
      if m[0].dtime == 0.0 then ([m[0].bsn], RemoveAt(m, 0))
      else if m[0].dtime < 0.0 then RunOut(m)
      else ([], m)
  }

  /** How many timers from i on are due by x, one after the other. */
  function Due(l: seq<Timer>, x: real, i: int): (m: int)
    requires 0 <= i <= |l|
    ensures i <= m <= |l|
    ensures forall j | i <= j < m :: Deadline(l, j) <= x
    ensures m < |l| ==> Deadline(l, m) > x
    decreases |l| - i
  {
    if i < |l| && Deadline(l, i) <= x then Due(l, x, i + 1) else i
  }

  function Numbers(l: seq<Timer>): seq<int> {
    seq(|l|, i requires 0 <= i < |l| => l[i].bsn)
  }

  /** Timer j of those left is timer m + j, with `elapsed` less to wait. */
  ghost predicate Waits(l: seq<Timer>, elapsed: real, m: int, rest: seq<Timer>, j: int)
    requires 0 <= m && 0 <= j < |rest| && m + j < |l|
  {
    Alike(rest[j], l[m + j]) && Deadline(rest, j) == Deadline(l, m + j) - elapsed
  }

  /** The first m timers fired, in order, and the others wait `elapsed` less. */
  ghost predicate Elapsed(l: seq<Timer>, elapsed: real, m: int, fired: seq<int>, rest: seq<Timer>) {
    && 0 <= m <= |l|
    && fired == Numbers(l[..m])
    && |rest| == |l| - m
    && forall j | 0 <= j < |rest| :: Waits(l, elapsed, m, rest, j)
  }

  /** None of the timers that are due one after the other is a second late. */
  ghost predicate InTime(l: seq<Timer>, x: real) {
    forall j | 0 <= j < Due(l, x, 0) :: x - 1.0 < Deadline(l, j)
  }

  lemma OverdueShifts(l: seq<Timer>, j: int)
    requires |l| > 1 && 0 <= j < |l| - 1
    ensures |Overdue(l)| == |l| - 1 && Alike(Overdue(l)[j], l[j + 1])
    ensures Deadline(Overdue(l), j) == Deadline(l, j + 1) + Trunc(l[0].dtime) as real
  {
    var o := Overdue(l);
    assert o[0].dtime == l[0].dtime + l[1].dtime + Trunc(l[0].dtime) as real;
    assert Sum(l, 0) == 0.0 && Sum(o, 0) == 0.0;
    assert Sum(l, 1) == l[0].dtime && Sum(l, 2) == Sum(l, 1) + l[1].dtime;
    assert Sum(o, 1) == o[0].dtime;
    SumShift(l, o, 2, 1, j + 2);
  }

  lemma {:induction false} DueFromOverdue(l: seq<Timer>, i: int)
    requires |l| > 1 && Trunc(l[0].dtime) == 0 && 1 <= i <= |l|
    ensures |Overdue(l)| == |l| - 1 && Due(l, 0.0, i) == Due(Overdue(l), 0.0, i - 1) + 1
    decreases |l| - i
  {
    OverdueShifts(l, 0);
    if i == |l| {
    } else {
      OverdueShifts(l, i - 1);
      DueFromOverdue(l, i + 1);
    }
  }

  /** While none is a second late nothing is lost in the int. */
  lemma {:induction false} RunOutIsExact(l: seq<Timer>)
    requires |l| > 0 && InTime(l, 0.0)
    ensures var (fired, rest) := RunOut(l); Elapsed(l, 0.0, Due(l, 0.0, 0), fired, rest)
    decreases |l|
  {
    HeadDeadline(l);
    if l[0].dtime > 0.0 {
      assert Due(l, 0.0, 0) == 0;
    } else if |l| == 1 {
      assert Due(l, 0.0, 0) == 1;
    } else {
      HeadInTime(l);
      var o := Overdue(l);
      var (fired, rest) := RunOut(o);
      RunOutIsExact(o);
      var m, n := Due(o, 0.0, 0), Due(l, 0.0, 0);
      OverdueNumbers(l, m);
      forall j | 0 <= j < |rest|
        ensures Waits(l, 0.0, n, rest, j)
      {
        assert Waits(o, 0.0, m, rest, j);
        OverdueShifts(l, m + j);
      }
    }
  }

  lemma HeadDeadline(l: seq<Timer>)
    requires |l| > 0
    ensures Deadline(l, 0) == l[0].dtime
  {
    assert Sum(l, 0) == 0.0;
  }

  /** A head that is due and less than a second late is removed without loss. */
  lemma HeadInTime(l: seq<Timer>)
    requires |l| > 1 && -1.0 < l[0].dtime <= 0.0
    ensures Due(l, 0.0, 0) == Due(Overdue(l), 0.0, 0) + 1
    ensures |Overdue(l)| == |l| - 1
    ensures InTime(l, 0.0) <==> InTime(Overdue(l), 0.0)
  {
    HeadDeadline(l);
    FractionRange(l[0].dtime);
    DueFromOverdue(l, 1);
    var o := Overdue(l);
    OverdueShifts(l, 0);
    assert Due(l, 0.0, 0) == Due(l, 0.0, 1);
    forall j | 0 <= j < |o|
      ensures Deadline(o, j) == Deadline(l, j + 1)
    {
      OverdueShifts(l, j);
    }
    if InTime(o, 0.0) {
      forall j | 0 <= j < Due(l, 0.0, 0)
        ensures 0.0 - 1.0 < Deadline(l, j)
      {
        if j > 0 { assert 0.0 - 1.0 < Deadline(o, j - 1); }
      }
    }
  }

  lemma OverdueNumbers(l: seq<Timer>, m: int)
    requires |l| > 1 && 0 <= m < |l|
    ensures |Overdue(l)| == |l| - 1
    ensures [l[0].bsn] + Numbers(Overdue(l)[..m]) == Numbers(l[..m + 1])
  {
    OverdueShifts(l, 0);
    var o := Overdue(l);
    forall j | 0 <= j < m
      ensures o[j].bsn == l[j + 1].bsn
    {
      OverdueShifts(l, j);
    }
  }

  lemma {:induction false} LaterShifts(l: seq<Timer>, elapsed: real, n: int)
    requires |l| > 0 && 1 <= n <= |l|
    ensures Sum(Later(l, elapsed), n) == Sum(l, n) - elapsed
    decreases n
  {
    if n == 1 {
      assert Sum(l, 0) == 0.0 && Sum(Later(l, elapsed), 0) == 0.0;
    } else {
      LaterShifts(l, elapsed, n - 1);
    }
  }

  lemma {:induction false} DueLater(l: seq<Timer>, elapsed: real, i: int)
    requires |l| > 0 && 0 <= i <= |l|
    ensures Due(Later(l, elapsed), 0.0, i) == Due(l, elapsed, i)
    decreases |l| - i
  {
    if i == |l| {
    } else {
      LaterShifts(l, elapsed, i + 1);
      DueLater(l, elapsed, i + 1);
    }
  }

  lemma ElapsedLater(l: seq<Timer>, elapsed: real, m: int, fired: seq<int>, rest: seq<Timer>)
    requires |l| > 0
    ensures Elapsed(l, elapsed, m, fired, rest) <==> Elapsed(Later(l, elapsed), 0.0, m, fired, rest)
  {
    if 0 <= m <= |l| && |rest| == |l| - m {
      assert Numbers(l[..m]) == Numbers(Later(l, elapsed)[..m]);
      forall j | 0 <= j < |rest|
        ensures Waits(l, elapsed, m, rest, j) <==> Waits(Later(l, elapsed), 0.0, m, rest, j)
      {
        LaterShifts(l, elapsed, m + j + 1);
      }
    }
  }

  /** How many timers a call fires: the head alone if it is due just now, otherwise all
      that are due. */
  function FiredCount(l: seq<Timer>, elapsed: real): int {
    if l == [] then 0
    else if l[0].dtime == elapsed then 1
    else Due(l, elapsed, 0)
  }

  lemma InTimeLater(l: seq<Timer>, elapsed: real)
    requires |l| > 0
    ensures InTime(Later(l, elapsed), 0.0) <==> InTime(l, elapsed)
  {
    DueLater(l, elapsed, 0);
    forall j | 0 <= j < |l|
      ensures Deadline(Later(l, elapsed), j) == Deadline(l, j) - elapsed
    {
      LaterShifts(l, elapsed, j + 1);
    }
  }

  /** If none of the timers due is a second late, or the head is due just now, a call takes
      the elapsed time off every timer that stays and fires the others in order. */
  lemma DecrementIsExact(l: seq<Timer>, elapsed: real)
    requires l != [] && (l[0].dtime == elapsed || InTime(l, elapsed))
    ensures var (fired, rest) := Decrement(l, elapsed);
      Elapsed(l, elapsed, FiredCount(l, elapsed), fired, rest)
  {
    var m := Later(l, elapsed);
    var (fired, rest) := Decrement(l, elapsed);
    HeadDeadline(l);
    if m[0].dtime == 0.0 {
      FractionRange(0.0);
      assert Numbers(l[..1]) == [l[0].bsn];
      forall j | 0 <= j < |rest|
        ensures Waits(l, elapsed, 1, rest, j)
      {
        RemoveMovesDeadlines(m, 0, j + 1);
        LaterShifts(l, elapsed, j + 2);
      }
    } else if m[0].dtime < 0.0 {
      InTimeLater(l, elapsed);
      RunOutIsExact(m);
      DueLater(l, elapsed, 0);
      ElapsedLater(l, elapsed, Due(l, elapsed, 0), fired, rest);
    } else {
      ElapsedLater(l, elapsed, 0, fired, rest);
    }
  }

  // ----- a second late or more

  /** What the first i timers take off those behind them when they fire by x: the whole
      seconds each is late then count twice (timerprocess.c:177-181 and 246). */
  function Shed(l: seq<Timer>, x: real, i: int): int
    requires 0 <= i <= |l|
    decreases i
  {
    if i == 0 then 0
    else Shed(l, x, i - 1) + Trunc(Deadline(l, i - 1) - x + Shed(l, x, i - 1) as real)
  }

  /** Timer i is due by x, with what those before it have shed. */
  predicate DueAt(l: seq<Timer>, x: real, i: int)
    requires 0 <= i < |l|
  {
    Deadline(l, i) - x + Shed(l, x, i) as real <= 0.0
  }

  /** The first m timers fired; those left are due earlier than they should by what these
      have shed. */
  ghost predicate ElapsedLate(l: seq<Timer>, x: real, m: int, fired: seq<int>, rest: seq<Timer>) {
    && 0 <= m <= |l|
    && fired == Numbers(l[..m])
    && |rest| == |l| - m
    && forall j | 0 <= j < |rest| ::
         Alike(rest[j], l[m + j]) && Deadline(rest, j) == Deadline(l, m + j) - x + Shed(l, x, m) as real
  }

  lemma {:induction false} ShedOverdue(l: seq<Timer>, i: int)
    requires |l| > 1 && 0 <= i < |l|
    ensures |Overdue(l)| == |l| - 1
    ensures Shed(l, 0.0, i + 1) == Shed(Overdue(l), 0.0, i) + Trunc(l[0].dtime)
    decreases i
  {
    OverdueShifts(l, 0);
    if i == 0 {
      HeadDeadline(l);
      assert Shed(l, 0.0, 1) == Shed(l, 0.0, 0) + Trunc(l[0].dtime);
    } else {
      ShedOverdue(l, i - 1);
      OverdueShifts(l, i - 1);
    }
  }

  lemma DueOverdue(l: seq<Timer>, i: int)
    requires |l| > 1 && 0 <= i < |l| - 1
    ensures |Overdue(l)| == |l| - 1
    ensures DueAt(l, 0.0, i + 1) <==> DueAt(Overdue(l), 0.0, i)
  {
    OverdueShifts(l, i);
    ShedOverdue(l, i);
  }

  /** The head fires in front of those that fire after it. */
  lemma ElapsedOverdue(l: seq<Timer>, k: int, fired: seq<int>, rest: seq<Timer>)
    requires |l| > 1 && ElapsedLate(Overdue(l), 0.0, k, fired, rest)
    ensures ElapsedLate(l, 0.0, k + 1, [l[0].bsn] + fired, rest)
  {
    OverdueShifts(l, 0);
    OverdueNumbers(l, k);
    ShedOverdue(l, k);
    hide Shed, Numbers, Overdue;
    forall j | 0 <= j < |rest|
      ensures Alike(rest[j], l[k + 1 + j])
      ensures Deadline(rest, j) == Deadline(l, k + 1 + j) - 0.0 + Shed(l, 0.0, k + 1) as real
    {
      OverdueShifts(l, k + j);
    }
  }

  /** Whatever the list, the loop fires timers up to the first that is not due, counting
      what those before it have shed, and the others wait as much less. */
  lemma {:induction false} RunOutExactly(l: seq<Timer>) returns (m: int)
    requires |l| > 0
    ensures var (fired, rest) := RunOut(l); ElapsedLate(l, 0.0, m, fired, rest)
    ensures forall i | 0 <= i < m :: DueAt(l, 0.0, i)
    ensures m < |l| ==> !DueAt(l, 0.0, m)
    decreases |l|
  {
    HeadDeadline(l);
    if l[0].dtime > 0.0 {
      m := 0;
    } else if |l| == 1 {
      m := 1;
      assert Numbers(l[..1]) == [l[0].bsn];
    } else {
      var o := Overdue(l);
      OverdueShifts(l, 0);
      assert DueAt(l, 0.0, 0);
      hide DueAt, ElapsedLate, Overdue;
      var k := RunOutExactly(o);
      ElapsedOverdue(l, k, RunOut(o).0, RunOut(o).1);
      m := k + 1;
      ElapsedSize(o, k, RunOut(o).0, RunOut(o).1);
      forall i | 0 <= i < m
        ensures DueAt(l, 0.0, i)
      {
        if i > 0 { DueOverdue(l, i - 1); }
      }
      if m < |l| { DueOverdue(l, k); }
    }
  }

  lemma ElapsedSize(l: seq<Timer>, m: int, fired: seq<int>, rest: seq<Timer>)
    requires ElapsedLate(l, 0.0, m, fired, rest)
    ensures 0 <= m <= |l|
  {
  }

  lemma {:induction false} ShedLater(l: seq<Timer>, x: real, i: int)
    requires |l| > 0 && 0 <= i <= |l|
    ensures Shed(Later(l, x), 0.0, i) == Shed(l, x, i)
    decreases i
  {
    if i == 0 {
    } else {
      ShedLater(l, x, i - 1);
      LaterShifts(l, x, i);
    }
  }

  /** For an overdue head and whatever the list: which timers a call fires, and how long
      each of the others then waits. */
  lemma DecrementExactly(l: seq<Timer>, elapsed: real) returns (m: int)
    requires l != [] && l[0].dtime < elapsed
    ensures var (fired, rest) := Decrement(l, elapsed); ElapsedLate(l, elapsed, m, fired, rest)
    ensures forall i | 0 <= i < m :: DueAt(l, elapsed, i)
    ensures m < |l| ==> !DueAt(l, elapsed, m)
  {
    var o := Later(l, elapsed);
    m := RunOutExactly(o);
    forall i | 0 <= i < |l|
      ensures DueAt(l, elapsed, i) <==> DueAt(o, 0.0, i)
    {
      LaterShifts(l, elapsed, i + 1);
      ShedLater(l, elapsed, i);
    }
    assert Numbers(o[..m]) == Numbers(l[..m]);
    var rest := Decrement(l, elapsed).1;
    forall j | 0 <= j < |rest|
      ensures Alike(rest[j], l[m + j])
      ensures Deadline(rest, j) == Deadline(l, m + j) - elapsed + Shed(l, elapsed, m) as real
    {
      LaterShifts(l, elapsed, m + j + 1);
      ShedLater(l, elapsed, m);
    }
  }

  /** With nothing but due timers every one fires, however late. */
  lemma {:induction false} AllDueAllFire(l: seq<Timer>)
    requires |l| > 0 && Due(l, 0.0, 0) == |l|
    ensures RunOut(l) == (Numbers(l), [])
    decreases |l|
  {
    HeadDeadline(l);
    if |l| == 1 {
      assert Numbers(l) == [l[0].bsn];
    } else {
      FractionRange(l[0].dtime);
      var o := Overdue(l);
      OverdueShifts(l, 0);
      forall j | 0 <= j < |o|
        ensures Deadline(o, j) <= 0.0
      {
        OverdueShifts(l, j);
      }
      DueAll(o, 0.0, 0);
      AllDueAllFire(o);
      OverdueNumbers(l, |l| - 1);
      assert o[..|l| - 1] == o && l[..|l|] == l;
    }
  }

  lemma {:induction false} DueAll(l: seq<Timer>, x: real, i: int)
    requires 0 <= i <= |l| && forall j | i <= j < |l| :: Deadline(l, j) <= x
    ensures Due(l, x, i) == |l|
    decreases |l| - i
  {
    if i == |l| {
    } else {
      DueAll(l, x, i + 1);
    }
  }

  /** What stays is never due later than it should be, and a second earlier at least if
      one of the timers due was a second late. */
  lemma {:induction false} RunOutDrags(l: seq<Timer>)
    requires |l| > 0
    ensures var rest := RunOut(l).1;
      rest != [] ==> Sum(rest, |rest|) <= Sum(l, |l|) - (if InTime(l, 0.0) then 0.0 else 1.0)
    decreases |l|
  {
    HeadDeadline(l);
    if l[0].dtime > 0.0 {
      assert Due(l, 0.0, 0) == 0;
    } else if |l| > 1 {
      FractionRange(l[0].dtime);
      OverdueShifts(l, |l| - 2);
      RunOutDrags(Overdue(l));
      if l[0].dtime > -1.0 {
        HeadInTime(l);
      }
    }
  }

  /** For an overdue head the call is exact if and only if every timer is due, or none of
      those due one after the other from the head on is a second late. */
  lemma DecrementExactness(l: seq<Timer>, elapsed: real)
    requires l != [] && l[0].dtime < elapsed
    ensures var (fired, rest) := Decrement(l, elapsed);
      Elapsed(l, elapsed, Due(l, elapsed, 0), fired, rest) <==>
      (InTime(l, elapsed) || Due(l, elapsed, 0) == |l|)
  {
    var m, n, d := Later(l, elapsed), |l|, Due(l, elapsed, 0);
    var (fired, rest) := Decrement(l, elapsed);
    if InTime(l, elapsed) {
      DecrementIsExact(l, elapsed);
    } else if d == n {
      DueLater(l, elapsed, 0);
      AllDueAllFire(m);
      assert Numbers(m) == Numbers(l) && l[..n] == l;
    } else {
      InTimeLater(l, elapsed);
      RunOutDrags(m);
      LaterShifts(l, elapsed, n);
      if |rest| == n - d {
        assert Deadline(rest, |rest| - 1) == Sum(rest, |rest|);
        assert !Waits(l, elapsed, d, rest, |rest| - 1);
      }
    }
  }

  /** While no time in the list is negative, the timers due one after the other are all
      the timers due, and the head is the latest of them. */
  lemma AscendingDue(l: seq<Timer>, x: real)
    requires l != [] && NonNegative(l)
    ensures forall j | 0 <= j < |l| :: j < Due(l, x, 0) <==> Deadline(l, j) <= x
    ensures InTime(l, x) <==> x < l[0].dtime + 1.0
    ensures Due(l, x, 0) == |l| <==> Deadline(l, |l| - 1) <= x
  {
    HeadDeadline(l);
    var d := Due(l, x, 0);
    forall j | 0 <= j < |l|
      ensures j < d <==> Deadline(l, j) <= x
      ensures Deadline(l, 0) <= Deadline(l, j)
    {
      SumAscends(l, 1, j + 1);
      if d <= j { SumAscends(l, d + 1, j + 1); }
    }
  }

  /** One-second timers alone, which is what the sender sets, get there too: one; half a
      second; three more; a quarter; one more. */
  lemma OneSecondTimersGoNegative()
    ensures var a := Decrement(Insert([], 1.0, 0, 1), 0.5).1;
      var b := Insert(Insert(Insert(a, 1.0, 0, 2), 1.0, 0, 3), 1.0, 0, 4);
      var c := Decrement(b, 0.25).1;
      Insert(c, 1.0, 0, 5) == c[..3] + [Timer(0.25, 0, 5), Timer(-0.25, 0, 3)]
  {
    var a := [Timer(0.5, 0, 1)];
    assert Decrement(Insert([], 1.0, 0, 1), 0.5).1 == a;
    var a2 := a + [Timer(0.5, 0, 2)];
    assert Insert(a, 1.0, 0, 2) == a2;
    assert Walk(a2, 0, 0.0, 1.0) == Walk(a2, 1, 0.5, 1.0) == (1, 0.5);
    var a3 := a2 + [Timer(0.5, 0, 3)];
    assert Insert(a2, 1.0, 0, 3) == a3;
    assert Walk(a3, 0, 0.0, 1.0) == Walk(a3, 1, 0.5, 1.0) == (1, 0.5);
    var b := a2 + [Timer(0.5, 0, 4), Timer(0.0, 0, 3)];
    assert Insert(a3, 1.0, 0, 4) == b;
    var c := [Timer(0.25, 0, 1), Timer(0.5, 0, 2), Timer(0.5, 0, 4), Timer(0.0, 0, 3)];
    assert Decrement(b, 0.25).1 == c;
    assert Walk(c, 0, 0.0, 1.0) == Walk(c, 1, 0.25, 1.0) == Walk(c, 2, 0.75, 1.0) == (2, 0.75);
    assert Insert(c, 1.0, 0, 5) == c[..3] + [Timer(0.25, 0, 5), Timer(-0.25, 0, 3)];
  }

  /** Timers for 1 s and 5 s, checked after 2.5 s: the second then waits 1.5 s, not 2.5. */
  lemma LateCheck()
    ensures var l := [Timer(1.0, 0, 1), Timer(4.0, 0, 2)];
      && Decrement(l, 2.5) == ([1], [Timer(1.5, 0, 2)])
      && Deadline(l, 1) - 2.5 == 2.5
  {
    var l := [Timer(1.0, 0, 1), Timer(4.0, 0, 2)];
    assert Sum(l, 0) == 0.0 && Sum(l, 1) == 1.0;
    var m := Later(l, 2.5);
    assert m == [Timer(-1.5, 0, 1), Timer(4.0, 0, 2)];
    assert Trunc(-1.5) == -1;
    var o := Overdue(m);
    assert m[1 := m[1].(dtime := 2.5)] == [Timer(-1.5, 0, 1), Timer(2.5, 0, 2)];
    assert o == [Timer(1.5, 0, 2)];
    assert RunOut(o) == ([], o);
    assert RunOut(m) == ([1] + [], o);
    assert [1] + [] == [1];
    assert Decrement(l, 2.5) == RunOut(m);
  }
}
