/** The delta list of timerprocess.c as values: each timer holds the time from the
    deadline before it to its own. Times are reals; a C conversion to int is `Trunc`. */
module TimerList {

  datatype Timer = Timer(dtime: real, port: int, bsn: int)

  /** C's conversion of a double to an int: towards zero. */
  function Trunc(x: real): int {
    if x >= 0.0 then x.Floor else -((-x).Floor)
  }

  function Sum(l: seq<Timer>, n: int): real
    requires 0 <= n <= |l|
    decreases n
  {
    if n == 0 then 0.0 else Sum(l, n - 1) + l[n - 1].dtime
  }

  /** The time until timer i is due. */
  function Deadline(l: seq<Timer>, i: int): real
    requires 0 <= i < |l|
  {
    Sum(l, i + 1)
  }

  ghost predicate NonNegative(l: seq<Timer>) {
    forall i | 0 <= i < |l| :: l[i].dtime >= 0.0
  }

  lemma {:induction false} SumAscends(l: seq<Timer>, i: int, j: int)
    requires NonNegative(l) && 0 <= i <= j <= |l|
    ensures Sum(l, i) <= Sum(l, j)
    decreases j
  {
    if i == j {
    } else {
      SumAscends(l, i, j - 1);
    }
  }

  /** Two lists agreeing on the first n times. */
  lemma {:induction false} SumSame(l: seq<Timer>, m: seq<Timer>, n: int)
    requires 0 <= n <= |l| && n <= |m|
    requires forall i | 0 <= i < n :: l[i].dtime == m[i].dtime
    ensures Sum(l, n) == Sum(m, n)
    decreases n
  {
    if n == 0 {
    } else {
      SumSame(l, m, n - 1);
    }
  }

  /** Past some point the two lists agree on every time, one shifted by a place. */
  lemma {:induction false} SumShift(l: seq<Timer>, m: seq<Timer>, i: int, j: int, n: int)
    requires 0 <= i <= n <= |l| && 0 <= j && j + (n - i) <= |m|
    requires forall k | i <= k < n :: l[k].dtime == m[j + (k - i)].dtime
    ensures Sum(l, n) - Sum(l, i) == Sum(m, j + (n - i)) - Sum(m, j)
    decreases n
  {
    if i == n {
    } else {
      SumShift(l, m, i, j, n - 1);
    }
  }

  // ----- insertValue

  /** The traversal at timerprocess.c:67-75: where it stops and the time passed. It
      counts the last node's time when it runs past it. */
  function Walk(l: seq<Timer>, k: int, elapse: real, dtime: real): (r: (int, real))
    requires 0 <= k < |l|
    ensures k <= r.0 < |l|
    decreases |l| - k
  {
    if elapse + l[k].dtime < dtime then
      if k + 1 == |l| then (k, elapse + l[k].dtime) else Walk(l, k + 1, elapse + l[k].dtime, dtime)
    else (k, elapse)
  }

  /** timerprocess.c:62-76. */
  function Traverse(l: seq<Timer>, dtime: real): (r: (int, real))
    requires |l| > 0
    ensures 0 <= r.0 < |l|
  {
    if dtime == l[0].dtime then (0, dtime)
    else if |l| > 1 then Walk(l, 0, 0.0, dtime)
    else (0, 0.0)
  }

  /** Where the new node goes and its time (timerprocess.c:80, 86-122). */
  function Place(l: seq<Timer>, dtime: real): (r: (int, real))
    requires |l| > 0
    ensures 0 <= r.0 <= |l|
  {
    var (k, elapse) := Traverse(l, dtime);
    if dtime <= l[0].dtime then (0, dtime - elapse)
    else if k + 1 < |l| then (k + 1, dtime - elapse)
    else if elapse + l[k].dtime <= dtime then
      (|l|, if elapse == 0.0 then dtime - l[k].dtime else dtime - elapse)
    else (k, dtime - elapse)
  }

  /** A node is linked in and its successor's time reduced by its own. */
  function InsertAt(l: seq<Timer>, at: int, t: Timer): seq<Timer>
    requires 0 <= at <= |l|
  {
    if at == |l| then l + [t]
    else l[..at] + [t, l[at].(dtime := l[at].dtime - t.dtime)] + l[at + 1..]
  }

  function Insert(l: seq<Timer>, dtime: real, port: int, bsn: int): seq<Timer> {
    if l == [] then [Timer(dtime, port, bsn)]
    else var (at, d) := Place(l, dtime); InsertAt(l, at, Timer(d, port, bsn))
  }

  /** One timer, perhaps with another time. */
  predicate Alike(t: Timer, u: Timer) {
    t.bsn == u.bsn && t.port == u.port
  }

  /** Where timer i of the old list is in the new one. */
  function Moved(i: int, at: int): int {
    if i < at then i else i + 1
  }

  lemma InsertAtKeepsDeadlines(l: seq<Timer>, at: int, t: Timer, i: int)
    requires 0 <= at <= |l| && 0 <= i < |l|
    ensures |InsertAt(l, at, t)| == |l| + 1
    ensures Alike(InsertAt(l, at, t)[Moved(i, at)], l[i])
    ensures Deadline(InsertAt(l, at, t), Moved(i, at)) == Deadline(l, i)
  {
    var m := InsertAt(l, at, t);
    if i < at {
      SumSame(l, m, i + 1);
    } else {
      SumSame(l, m, at);
      assert Sum(m, at + 2) == Sum(l, at) + l[at].dtime;
      SumShift(l, m, at + 1, at + 2, i + 1);
    }
  }

  function Position(l: seq<Timer>, dtime: real): int {
    if l == [] then 0 else Place(l, dtime).0
  }

  /** In every branch, no timer already in the list changes its deadline. */
  lemma InsertKeepsDeadlines(l: seq<Timer>, dtime: real, port: int, bsn: int, i: int)
    requires 0 <= i < |l|
    ensures var m, at := Insert(l, dtime, port, bsn), Position(l, dtime);
      && |m| == |l| + 1 && 0 <= at <= |l|
      && m[at].bsn == bsn && m[at].port == port
      && Alike(m[Moved(i, at)], l[i])
      && Deadline(m, Moved(i, at)) == Deadline(l, i)
  {
    var (at, d) := Place(l, dtime);
    InsertAtKeepsDeadlines(l, at, Timer(d, port, bsn), i);
  }

  /** Timers 0 to i - 1 are all due before the new one. */
  ghost predicate Before(l: seq<Timer>, dtime: real, i: int)
    requires 0 <= i <= |l|
  {
    forall j | 0 <= j < i :: Deadline(l, j) < dtime
  }

  /** When the new timer gets the deadline asked for. */
  ghost predicate WellPlaced(l: seq<Timer>, dtime: real) {
    var n := |l|;
    || n == 0
    || dtime < l[0].dtime
    || (dtime == l[0].dtime && dtime == 0.0)
    || (dtime > l[0].dtime && (
          || n == 1
          || (Before(l, dtime, n - 1) && dtime < Deadline(l, n - 1))
          || (Before(l, dtime, n - 1) && dtime == Deadline(l, n - 1) && Deadline(l, n - 2) == 0.0)
          || (Before(l, dtime, n) && dtime >= Deadline(l, n - 1) + l[n - 1].dtime
              && (Deadline(l, n - 1) == 0.0 ==> l[n - 1].dtime == 0.0))))
  }

  /** The first timer from i on that is not due before the new one, or their number. */
  function NotBefore(l: seq<Timer>, dtime: real, i: int): (k: int)
    requires 0 <= i <= |l|
    ensures i <= k <= |l|
    ensures forall j | i <= j < k :: Deadline(l, j) < dtime
    ensures k < |l| ==> Deadline(l, k) >= dtime
    decreases |l| - i
  {
    if i < |l| && Deadline(l, i) < dtime then NotBefore(l, dtime, i + 1) else i
  }

  /** The place and the deadline the new timer gets, told from the deadlines of the others.
      In front: the time asked for, but none if it is due with the head. Behind: right after
      the first timer not due before it, and later by what separates it from the one before
      that; or, near the end, before or behind the last one. */
  function Given(l: seq<Timer>, dtime: real): (int, real) {
    var n, k := |l|, NotBefore(l, dtime, 0);
    if n == 0 || dtime < l[0].dtime then (0, dtime)
    else if dtime == l[0].dtime then (0, 0.0)
    else if n == 1 then (1, dtime)
    else if k + 1 < n then (k + 1, Deadline(l, k) + (dtime - (if k == 0 then 0.0 else Deadline(l, k - 1))))
    else if k < n && dtime < Deadline(l, k) then (k, dtime)
    else if k < n then (n, dtime + (if Deadline(l, n - 2) == 0.0 then 0.0 else l[k].dtime))
    else if Deadline(l, n - 1) + l[n - 1].dtime > dtime then (n - 1, dtime - l[n - 1].dtime)
    else if Deadline(l, n - 1) == 0.0 then (n, dtime - l[n - 1].dtime)
    else (n, dtime)
  }

  lemma {:induction false} NotBeforeIs(l: seq<Timer>, dtime: real, i: int, k: int)
    requires 0 <= i <= k <= |l| && Before(l, dtime, k) && (k < |l| ==> Deadline(l, k) >= dtime)
    ensures NotBefore(l, dtime, i) == k
    decreases k - i
  {
    if i == k {
    } else {
      NotBeforeIs(l, dtime, i + 1, k);
    }
  }

  /** The traversal stops at the first timer not due before the new one, or at the end. */
  lemma {:induction false} WalkStops(l: seq<Timer>, k: int, dtime: real)
    requires 0 <= k < |l| && Before(l, dtime, k)
    ensures var (j, elapse) := Walk(l, k, Sum(l, k), dtime);
      && k <= j < |l| && Before(l, dtime, j)
      && (if Deadline(l, j) < dtime then j + 1 == |l| && elapse == Sum(l, |l|) else elapse == Sum(l, j))
    decreases |l| - k
  {
    if Sum(l, k) + l[k].dtime < dtime && k + 1 < |l| {
      assert Deadline(l, k) < dtime;
      WalkStops(l, k + 1, dtime);
    } else {
    }
  }

  lemma BeforeAt(l: seq<Timer>, dtime: real, i: int, j: int)
    requires 0 <= i < j <= |l| && Before(l, dtime, j)
    ensures Deadline(l, i) < dtime
  {
  }

  /** Where a timer goes that is not put in front, and the deadline it gets. */
  lemma PlacedBehind(l: seq<Timer>, dtime: real, port: int, bsn: int) returns (k: int)
    requires |l| > 1 && dtime > l[0].dtime
    ensures 0 < k < |l| && Before(l, dtime, k)
    ensures k + 1 == |l| || Deadline(l, k) >= dtime
    ensures var m, at, n := Insert(l, dtime, port, bsn), Position(l, dtime), |l|;
      && 0 <= at < |m|
      && (if k + 1 < n then at == k + 1 && m[at].dtime == dtime - Sum(l, k)
          else if Deadline(l, k) == dtime then at == n && m[at].dtime == (if Sum(l, k) == 0.0 then 0.0 else l[k].dtime)
          else if Deadline(l, k) > dtime then at == k && m[at].dtime == dtime - Sum(l, k)
          else if Deadline(l, k) + l[k].dtime <= dtime then
            at == n && m[at].dtime == dtime - (if Deadline(l, k) == 0.0 then l[k].dtime else Deadline(l, k))
          else at == k && m[at].dtime == dtime - Deadline(l, k))
  {
    assert Sum(l, 0) == 0.0 && Sum(l, 1) == l[0].dtime;
    WalkStops(l, 0, dtime);
    var (j, elapse) := Traverse(l, dtime);
    k := j;
    assert Sum(l, k + 1) == Sum(l, k) + l[k].dtime;
    var (at, d) := Place(l, dtime);
    assert Insert(l, dtime, port, bsn) == InsertAt(l, at, Timer(d, port, bsn));
  }

  lemma InsertedAt(l: seq<Timer>, dtime: real, port: int, bsn: int)
    requires l != []
    ensures var m, at := Insert(l, dtime, port, bsn), Position(l, dtime);
      && 0 <= at < |m| && m[at].bsn == bsn && m[at].port == port
      && Deadline(m, at) == Sum(l, at) + m[at].dtime
  {
    SumSame(l, Insert(l, dtime, port, bsn), Position(l, dtime));
  }

  lemma GivenBehind(l: seq<Timer>, dtime: real, port: int, bsn: int)
    requires |l| > 1 && dtime > l[0].dtime
    ensures var m, at := Insert(l, dtime, port, bsn), Position(l, dtime);
      && 0 <= at < |m|
      && (at, Deadline(m, at)) == Given(l, dtime)
  {
    InsertedAt(l, dtime, port, bsn);
    var n := |l|;
    var k := PlacedBehind(l, dtime, port, bsn);
    hide Insert, Position;
    assert Deadline(l, k) == Sum(l, k) + l[k].dtime;
    assert Deadline(l, k - 1) == Sum(l, k) < dtime;
    assert Sum(l, k + 1) == Deadline(l, k);
    NotBeforeIs(l, dtime, 0, if Deadline(l, k) < dtime then n else k);
  }

  lemma GivenInFront(l: seq<Timer>, dtime: real, port: int, bsn: int)
    requires l != [] && (|l| == 1 || dtime <= l[0].dtime)
    ensures var m, at := Insert(l, dtime, port, bsn), Position(l, dtime);
      && 0 <= at < |m|
      && (at, Deadline(m, at)) == Given(l, dtime)
  {
    InsertedAt(l, dtime, port, bsn);
    assert Sum(l, 0) == 0.0 && Sum(l, 1) == l[0].dtime;
    var (at, d) := Place(l, dtime);
    assert Insert(l, dtime, port, bsn)[at].dtime == d;
    if dtime <= l[0].dtime {
      assert at == 0 && d == if dtime == l[0].dtime then 0.0 else dtime;
    } else {
      assert at == 1 && d == dtime - l[0].dtime;
    }
  }

  /** Where insertValue puts the new timer and the deadline it gets, whatever the list. */
  lemma InsertedDeadline(l: seq<Timer>, dtime: real, port: int, bsn: int)
    ensures var m, at := Insert(l, dtime, port, bsn), Position(l, dtime);
      && 0 <= at < |m| && m[at].bsn == bsn && m[at].port == port
      && (at, Deadline(m, at)) == Given(l, dtime)
  {
    if l == [] {
      assert Sum(Insert(l, dtime, port, bsn), 0) == 0.0;
    } else {
      InsertedAt(l, dtime, port, bsn);
      if |l| > 1 && dtime > l[0].dtime {
        GivenBehind(l, dtime, port, bsn);
      } else {
        GivenInFront(l, dtime, port, bsn);
      }
    }
  }

  /** The new timer gets the deadline asked for exactly when WellPlaced says so; insertValue
      misplaces a timer due with the head, one due between two others but not just before
      the last, and one due a little after the last. */
  lemma WellPlacedExactly(l: seq<Timer>, dtime: real, port: int, bsn: int)
    ensures var m, at := Insert(l, dtime, port, bsn), Position(l, dtime);
      0 <= at < |m| && (Deadline(m, at) == dtime <==> WellPlaced(l, dtime))
  {
    InsertedDeadline(l, dtime, port, bsn);
    hide Insert, Position;
    var n, k := |l|, NotBefore(l, dtime, 0);
    if n > 1 && dtime > l[0].dtime {
      assert Deadline(l, 0) == l[0].dtime by { assert Sum(l, 0) == 0.0; }
      assert Deadline(l, k - 1) < dtime;
      hide Sum;
      if k + 1 < n {
        assert !Before(l, dtime, n - 1) && !Before(l, dtime, n);
      } else {
        assert Before(l, dtime, n - 1);
        assert Before(l, dtime, n) <==> Deadline(l, n - 1) < dtime;
      }
    }
  }

  // ----- timers that wait less than nothing

  /** When the new timer's successor has enough time to give. */
  ghost predicate Orderly(l: seq<Timer>, dtime: real) {
    && (|l| == 0 || dtime < l[0].dtime ==> dtime >= 0.0)
    && forall i | 0 < i < |l| - 1 && Deadline(l, i - 1) < dtime <= Deadline(l, i) ::
         dtime - Deadline(l, i - 1) <= l[i + 1].dtime
  }

  /** Inserting keeps every timer's time non-negative exactly when Orderly says so. */
  lemma InsertKeepsNonNegative(l: seq<Timer>, dtime: real, port: int, bsn: int)
    requires NonNegative(l)
    ensures NonNegative(Insert(l, dtime, port, bsn)) <==> Orderly(l, dtime)
  {
    var m := Insert(l, dtime, port, bsn);
    if l == [] {
      assert m[0].dtime == dtime;
    } else if |l| > 1 && dtime > l[0].dtime {
      BehindKeepsNonNegative(l, dtime, port, bsn);
    } else {
      var (at, d) := Place(l, dtime);
      assert m == InsertAt(l, at, Timer(d, port, bsn));
      assert m[at].dtime == d;
      assert forall i | 0 <= i < |m| && i != at && i != at + 1 :: m[i] == l[if i < at then i else i - 1];
      OrderlyInFront(l, dtime);
    }
  }

  lemma OrderlyInFront(l: seq<Timer>, dtime: real)
    requires NonNegative(l) && l != [] && (|l| == 1 || dtime <= l[0].dtime)
    ensures Orderly(l, dtime) <==> (dtime < l[0].dtime ==> dtime >= 0.0)
  {
    assert Sum(l, 0) == 0.0 && Sum(l, 1) == l[0].dtime;
    forall i | 0 <= i < |l|
      ensures Deadline(l, i) >= dtime || |l| == 1
    {
      SumAscends(l, 1, i + 1);
    }
  }

  lemma BehindKeepsNonNegative(l: seq<Timer>, dtime: real, port: int, bsn: int)
    requires NonNegative(l) && |l| > 1 && dtime > l[0].dtime
    ensures NonNegative(Insert(l, dtime, port, bsn)) <==> Orderly(l, dtime)
  {
    var m, n, at := Insert(l, dtime, port, bsn), |l|, Position(l, dtime);
    var k := PlacedBehind(l, dtime, port, bsn);
    assert Deadline(l, k - 1) < dtime;
    assert Deadline(l, k) == Sum(l, k) + l[k].dtime;
    assert m[at].dtime >= 0.0 by {
      if k + 1 == n && Deadline(l, k) == 0.0 {
        SumAscends(l, 0, k);
      }
    }
    forall i | 0 <= i < |m| && i != at && i != at + 1
      ensures m[i].dtime >= 0.0
    {
      assert m[i] == l[if i < at then i else i - 1];
    }
    forall i | 0 < i < n - 1 && Deadline(l, i - 1) < dtime <= Deadline(l, i)
      ensures i == k
    {
      if i < k {
        BeforeAt(l, dtime, i, k);
      } else if k < i {
        SumAscends(l, k + 1, i);
      }
    }
    if at < n {
      assert m[at + 1].dtime == l[at].dtime - m[at].dtime;
    }
    assert k + 1 < n ==> at == k + 1 && 0 < k < n - 1 && Deadline(l, k - 1) < dtime <= Deadline(l, k);
  }

  /** Three timers 10 s apart: one for 15 s is put at 25 s. */
  lemma MisplacedTimer()
    ensures var l := [Timer(10.0, 0, 1), Timer(10.0, 0, 2), Timer(10.0, 0, 3)];
      && !WellPlaced(l, 15.0)
      && Deadline(Insert(l, 15.0, 0, 4), Position(l, 15.0)) == 25.0
  {
    var l := [Timer(10.0, 0, 1), Timer(10.0, 0, 2), Timer(10.0, 0, 3)];
    assert Walk(l, 0, 0.0, 15.0) == Walk(l, 1, 10.0, 15.0) == (1, 10.0);
    var m := Insert(l, 15.0, 0, 4);
    assert m == [l[0], l[1], Timer(5.0, 0, 4), Timer(5.0, 0, 3)];
    assert Sum(m, 1) == 10.0 && Sum(m, 2) == 20.0 && Sum(m, 3) == 25.0;
    assert Sum(l, 1) == 10.0 && Sum(l, 2) == 20.0 && Sum(l, 3) == 30.0;
    assert !(Deadline(l, 1) < 15.0);
  }

  /** Timers for 10, 20, 30, 30.5 and 15 s, set in that order: the fourth, misplaced at
      20.5 s, then waits -4.5 s after the fifth. */
  lemma NegativeTime()
    ensures var l := Insert(Insert(Insert(Insert([], 10.0, 0, 1), 20.0, 0, 2), 30.0, 0, 3), 30.5, 0, 4);
      && NonNegative(l) && !Orderly(l, 15.0)
      && Insert(l, 15.0, 0, 5)
         == [Timer(10.0, 0, 1), Timer(10.0, 0, 2), Timer(5.0, 0, 5), Timer(-4.5, 0, 4), Timer(9.5, 0, 3)]
  {
    var l2 := [Timer(10.0, 0, 1), Timer(10.0, 0, 2)];
    assert Insert(Insert([], 10.0, 0, 1), 20.0, 0, 2) == l2;
    assert Walk(l2, 0, 0.0, 30.0) == Walk(l2, 1, 10.0, 30.0) == (1, 20.0);
    var l3 := l2 + [Timer(10.0, 0, 3)];
    assert Insert(l2, 30.0, 0, 3) == l3;
    assert Walk(l3, 0, 0.0, 30.5) == Walk(l3, 1, 10.0, 30.5) == Walk(l3, 2, 20.0, 30.5) == (2, 30.0);
    var l4 := l2 + [Timer(0.5, 0, 4), Timer(9.5, 0, 3)];
    assert Insert(l3, 30.5, 0, 4) == l4;
    assert Walk(l4, 0, 0.0, 15.0) == Walk(l4, 1, 10.0, 15.0) == (1, 10.0);
    var l5 := [Timer(10.0, 0, 1), Timer(10.0, 0, 2), Timer(5.0, 0, 5), Timer(-4.5, 0, 4), Timer(9.5, 0, 3)];
    assert Insert(l4, 15.0, 0, 5) == l5;
    assert l5[3].dtime < 0.0 && !NonNegative(l5);
    InsertKeepsNonNegative(l4, 15.0, 0, 5);
  }
}
