/** Which acknowledgements the scan by number at cbuffer.c:491 finds in the table. */
module WindowAcks {
  import opened Parameters
  import opened Window
  import opened WindowSlots
  import opened WindowRuns
  import opened Wrappers

  /** A packet sent, and the slot it took. */
  datatype Taken = Taken(slot: int, bsn: int)

  function TakenFrom(s: Sender, i: int): seq<Taken>
    requires Shaped(s) && 0 <= i <= |s.acks|
    decreases |s.acks| - i
  {
    if i == |s.acks| then []
    else if s.acks[i] > 0 then TakenFrom(s, i + 1)
    else if FirstFree(s.slots, 0) == SLOTS then []
    else
      SendOneShaped(s, i);
      [Taken(FirstFree(s.slots, 0), s.base + 1 + i)] + TakenFrom(SendOne(s, i), i + 1)
  }

  /** All the packets sent in a run, in order. */
  ghost function History(calls: seq<Call>): seq<Taken>
    decreases |calls|
  {
    if calls == [] then []
    else
      var before := calls[..|calls| - 1];
      History(before) + (if After(before).Some? then Adds(After(before).value, calls[|calls| - 1]) else [])
  }

  /** The number last put in slot j, or 0. */
  function Latest(history: seq<Taken>, j: int): int
    decreases |history|
  {
    if history == [] then 0
    else
      var last := history[|history| - 1];
      if last.slot == j then last.bsn else Latest(history[..|history| - 1], j)
  }

  ghost predicate Recorded(slots: seq<Slot>, history: seq<Taken>) {
    forall j | 0 <= j < |slots| :: slots[j].bsn == Latest(history, j)
  }

  lemma RecordOne(slots: seq<Slot>, history: seq<Taken>, f: int, bsn: int)
    requires Recorded(slots, history) && 0 <= f < |slots|
    ensures Recorded(slots[f := Slot(bsn, true)], history + [Taken(f, bsn)])
  {
    assert (history + [Taken(f, bsn)])[..|history|] == history;
  }

  lemma {:induction false} SendRecords(s: Sender, i: int, history: seq<Taken>)
    requires Shaped(s) && 0 <= i <= |s.acks| && SendFrom(s, i).Some?
    requires Recorded(s.slots, history)
    ensures Recorded(SendFrom(s, i).value.0.slots, history + TakenFrom(s, i))
    decreases |s.acks| - i
  {
    if i == |s.acks| {
      assert history + [] == history;
    } else if s.acks[i] > 0 {
      SendRecords(s, i + 1, history);
    } else {
      var f, n := FirstFree(s.slots, 0), s.base + 1 + i;
      SendOneShaped(s, i);
      RecordOne(s.slots, history, f, n);
      var t := SendOne(s, i);
      assert t.slots == s.slots[f := Slot(n, true)];
      hide Shaped, Recorded, Packet, Stamped;
      SendRecords(t, i + 1, history + [Taken(f, n)]);
      assert SendFrom(s, i).value.0 == SendFrom(t, i + 1).value.0;
      assert history + [Taken(f, n)] + TakenFrom(t, i + 1) == history + TakenFrom(s, i);
    }
  }

  ghost predicate Matches(sent: seq<Datagram>, taken: seq<Taken>) {
    |sent| == |taken| && forall k | 0 <= k < |sent| :: sent[k].packnum == taken[k].bsn
  }

  lemma {:induction false} SendMatches(s: Sender, i: int)
    requires Shaped(s) && 0 <= i <= |s.acks| && SendFrom(s, i).Some?
    ensures Matches(SendFrom(s, i).value.1, TakenFrom(s, i))
    decreases |s.acks| - i
  {
    if i == |s.acks| {
    } else if s.acks[i] > 0 {
      SendMatches(s, i + 1);
    } else {
      SendOneShaped(s, i);
      SendMatches(SendOne(s, i), i + 1);
      hide Shaped, Packet;
    }
  }

  predicate SameNumbers(slots: seq<Slot>, others: seq<Slot>) {
    |others| == |slots| && forall j | 0 <= j < |slots| :: others[j].bsn == slots[j].bsn
  }

  lemma AckNumbersStay(s: Sender, n: int)
    requires Settled(s)
    ensures SameNumbers(s.slots, RecvAck(s, n).0.slots)
  {
    RecvAckParts(s, n);
    assert SameNumbers(s.slots, FreeSlot(s, n).slots);
    var u := SetAck(FreeSlot(s, n), n, 2);
    hide Shaped, CheckWindow, RecvAck, SetAck, FreeSlot, SameNumbers;
    if Outstanding(s, n) {
      CheckWindowSettles(u);
    }
  }

  /** Calls other than a pass leave the numbers in the table alone. */
  lemma NumbersStay(run: Run, c: Call)
    requires Settled(run.tx) && !c.Send?
    ensures Do(run, c).Some? && Do(run, c).value.sent == run.sent
    ensures SameNumbers(run.tx.slots, Do(run, c).value.tx.slots)
  {
    hide Settled, Shaped, RecvAck, AddData;
    match c
    case Add(chunk) => AddDataSettles(run.tx, chunk);
    case Expire(n) =>
    case Ack(n) => AckNumbersStay(run.tx, n);
  }

  /** What one call adds to the history. */
  ghost function Adds(run: Run, c: Call): seq<Taken>
    requires Shaped(run.tx)
  {
    if c.Send? then TakenFrom(run.tx, 0) else []
  }

  lemma RecordedStays(slots: seq<Slot>, others: seq<Slot>, history: seq<Taken>)
    requires Recorded(slots, history) && SameNumbers(slots, others)
    ensures Recorded(others, history)
  {
  }

  lemma DoRecords(run: Run, c: Call, history: seq<Taken>)
    requires Settled(run.tx) && Do(run, c).Some?
    requires Recorded(run.tx.slots, history) && Matches(run.sent, history)
    ensures Shaped(run.tx)
    ensures Recorded(Do(run, c).value.tx.slots, history + Adds(run, c))
    ensures Matches(Do(run, c).value.sent, history + Adds(run, c))
  {
    hide Recorded, Settled, Shaped, SendFrom, SameNumbers;
    SettledIsShaped(run.tx);
    if c.Send? {
      SendRecords(run.tx, 0, history);
      SendMatches(run.tx, 0);
    } else {
      NumbersStay(run, c);
      assert history + [] == history;
      RecordedStays(run.tx.slots, Do(run, c).value.tx.slots, history);
    }
  }

  lemma {:induction false} RunRecords(calls: seq<Call>)
    requires After(calls).Some?
    ensures Recorded(After(calls).value.tx.slots, History(calls))
    ensures Matches(After(calls).value.sent, History(calls))
    decreases |calls|
  {
    hide Recorded, Matches, Do;
    if calls == [] {
      hide After;
      NothingRecorded();
    } else {
      var before, c := calls[..|calls| - 1], calls[|calls| - 1];
      RunRecords(before);
      assert Settled(After(before).value.tx);
      DoRecords(After(before).value, c, History(before));
    }
  }

  lemma NothingRecorded()
    ensures After([]) == Some(START) && Recorded(START.tx.slots, []) && Matches(START.sent, [])
  {
  }

  // ----- which acknowledgements are found

  /** No packet sent later took the slot of the k-th. */
  ghost predicate Last(history: seq<Taken>, k: int)
    requires 0 <= k < |history|
  {
    forall l | k < l < |history| :: history[l].slot != history[k].slot
  }

  lemma {:induction false} LatestIsLast(history: seq<Taken>, j: int)
    ensures forall k | 0 <= k < |history| && history[k].slot == j && Last(history, k) :: Latest(history, j) == history[k].bsn
    ensures (exists k | 0 <= k < |history| && Last(history, k) :: history[k].slot == j)
      || (Latest(history, j) == 0 && forall k | 0 <= k < |history| :: history[k].slot != j)
    decreases |history|
  {
    if history == [] {
    } else {
      var n := |history| - 1;
      var before := history[..n];
      LatestIsLast(before, j);
      assert Last(history, n);
      if history[n].slot != j {
        forall k | 0 <= k < n && history[k].slot == j
          ensures Last(history, k) <==> Last(before, k)
        {
          assert Last(before, k) ==> forall l | k < l < n :: before[l].slot != before[k].slot;
          assert Last(history, k) ==> forall l | k < l < n :: history[l].slot != history[k].slot;
        }
      }
    }
  }

  /** After any calls, the scan for a packet's number stays inside the table if and only if
      some sending of it took a slot that no packet sent since has taken. */
  lemma FoundExactly(calls: seq<Call>, n: int)
    requires After(calls).Some? && n != 0
    ensures var s, sent, history := After(calls).value.tx, After(calls).value.sent, History(calls);
      && |sent| == |history|
      && (FirstWith(s.slots, n, 0) < |s.slots| <==>
          exists k | 0 <= k < |sent| && Last(history, k) :: sent[k].packnum == n)
  {
    var s, history := After(calls).value.tx, History(calls);
    RunRecords(calls);
    SlotsInRange(calls);
    hide After, History;
    var j := FirstWith(s.slots, n, 0);
    if j < |s.slots| {
      LatestIsLast(history, j);
      var k :| 0 <= k < |history| && Last(history, k) && history[k].slot == j;
    }
    forall k | 0 <= k < |history| && Last(history, k) && history[k].bsn == n
      ensures j < |s.slots|
    {
      LatestIsLast(history, history[k].slot);
      assert s.slots[history[k].slot].bsn == n;
    }
  }

  lemma {:induction false} TakenInRange(s: Sender, i: int)
    requires Shaped(s) && 0 <= i <= |s.acks|
    ensures forall t | t in TakenFrom(s, i) :: 0 <= t.slot < SLOTS
    decreases |s.acks| - i
  {
    if i == |s.acks| {
    } else if s.acks[i] > 0 {
      TakenInRange(s, i + 1);
    } else if FirstFree(s.slots, 0) < SLOTS {
      SendOneShaped(s, i);
      TakenInRange(SendOne(s, i), i + 1);
    }
  }

  lemma {:induction false} SlotsInRange(calls: seq<Call>)
    requires After(calls).Some?
    ensures |After(calls).value.tx.slots| == SLOTS
    ensures forall t | t in History(calls) :: 0 <= t.slot < SLOTS
    decreases |calls|
  {
    if calls == [] {
    } else {
      SlotsInRange(calls[..|calls| - 1]);
      TakenInRange(After(calls[..|calls| - 1]).value.tx, 0);
    }
  }

  // ----- packets sent and not acknowledged

  /** What is released, and that nothing new waits but what is newly cut. */
  ghost predicate Moves(s: Sender, t: Sender) {
    && Grows(s, t)
    && forall m | Waiting(t, m) && m < |s.cuts| :: Waiting(s, m)
  }

  lemma {:induction false} ReleaseMoves(s: Sender)
    requires Shaped(s)
    ensures Shaped(Release(s)) && Release(s).cuts == s.cuts
    ensures Moves(s, Release(s)) && (Releasable(s) ==> s.base < Release(s).base)
    decreases |s.acks|
  {
    if Releasable(s) {
      ReleaseOneShaped(s);
      var t := ReleaseOne(s);
      hide Shaped;
      ReleaseMoves(t);
      forall m | Waiting(Release(t), m)
        ensures m < |s.cuts| ==> Waiting(s, m)
      {
        assert m < |t.cuts| ==> Waiting(t, m);
      }
    } else {
    }
  }

  lemma CheckWindowMoves(s: Sender)
    requires Shaped(s) && Covered(s) <= Reach(s)
    ensures Moves(s, CheckWindow(s))
    ensures Releasable(s) ==> s.base < CheckWindow(s).base
  {
    hide Extend, Release;
    ReleaseMoves(s);
    ReleaseShaped(s);
    var r := Release(s);
    ExtendShaped(r);
    var t := Extend(r);
    forall m | Waiting(t, m) && m < |s.cuts|
      ensures Waiting(s, m)
    {
      assert Waiting(r, m);
    }
  }

  lemma AckedWaits(s: Sender, u: Sender, n: int)
    requires u.base == s.base && |u.acks| == |s.acks|
    requires forall i | 0 <= i < |s.acks| :: u.acks[i] == if i == n - 1 - s.base then 2 else s.acks[i]
    ensures forall m | Waiting(u, m) :: Waiting(s, m)
    ensures s.acks != [] && n == s.base + 1 ==> Releasable(u)
  {
  }

  lemma AddDataMoves(s: Sender, chunk: seq<byte>)
    requires Settled(s)
    ensures Moves(s, AddData(s, chunk).0)
  {
    if |chunk| <= CAP - Held(s) {
      var a := Appended(s, chunk);
      assert Shaped(a) && Covered(a) <= Reach(a);
      CheckWindowMoves(a);
      assert forall m | Waiting(a, m) :: Waiting(s, m);
    } else {
      CheckWindowIdle(s);
    }
  }

  lemma RecvAckMoves(s: Sender, n: int)
    requires Settled(s)
    ensures Moves(s, RecvAck(s, n).0)
  {
    RecvAckParts(s, n);
    var t := FreeSlot(s, n);
    var u := SetAck(t, n, 2);
    if Outstanding(s, n) {
      hide Shaped, CheckWindow, RecvAck, FreeSlot, SetAck;
      CheckWindowMoves(u);
      AckedWaits(s, u, n);
    } else {
      hide Shaped, RecvAck, FreeSlot;
    }
  }

  /** An expiry of a packet that is acknowledged already, and not yet released. */
  ghost predicate Late(s: Sender, c: Call) {
    c.Expire? && Outstanding(s, c.number) && AckOf(s, c.number) == 2
  }

  lemma CallMoves(run: Run, c: Call)
    requires Settled(run.tx) && !c.Send? && !Late(run.tx, c)
    ensures Do(run, c).Some? && Moves(run.tx, Do(run, c).value.tx)
  {
    match c
    case Add(chunk) => AddDataMoves(run.tx, chunk);
    case Ack(n) => RecvAckMoves(run.tx, n);
    case Expire(n) =>
      forall m | Waiting(TimerExpire(run.tx, n), m)
        ensures Waiting(run.tx, m)
      {
        assert m != n ==> AckOf(TimerExpire(run.tx, n), m) == AckOf(run.tx, m);
      }
  }

  /** The scan for the number stays inside the table. */
  predicate Found(s: Sender, n: int) {
    FirstWith(s.slots, n, 0) < |s.slots|
  }

  ghost predicate AllFound(run: Run) {
    forall d | d in run.sent && Waiting(run.tx, d.packnum) :: Found(run.tx, d.packnum)
  }

  lemma FoundStays(s: Sender, t: Sender, n: int)
    requires SameNumbers(s.slots, t.slots) && Found(s, n)
    ensures Found(t, n)
  {
    assert t.slots[FirstWith(s.slots, n, 0)].bsn == n;
  }

  lemma CallFinds(run: Run, c: Call)
    requires Inv(run) && AllFound(run) && !c.Send? && !Late(run.tx, c)
    ensures Do(run, c).Some? && AllFound(Do(run, c).value)
  {
    NumbersStay(run, c);
    CallMoves(run, c);
    var after := Do(run, c).value;
    hide Do, SameNumbers, Waiting, Found, Settled, OneToOne;
    forall d | d in after.sent && Waiting(after.tx, d.packnum)
      ensures Found(after.tx, d.packnum)
    {
      assert Genuine(run.tx, d);
      assert Waiting(run.tx, d.packnum);
      FoundStays(run.tx, after.tx, d.packnum);
    }
  }

  /** After a pass whatever waits is timed. */
  lemma PassFinds(run: Run)
    requires Inv(run) && Do(run, Send).Some?
    ensures AllFound(Do(run, Send).value)
  {
    var t := SendWindow(run.tx).value.0;
    SendFromSettles(run.tx, 0);
    SendFromCorresponds(run.tx, 0);
    forall n | Waiting(t, n)
      ensures Found(t, n)
    {
      TimedIsFound(t, n);
    }
  }

  /** A packet that is sent, and neither acknowledged nor expired, is found. */
  lemma TimedIsFound(s: Sender, n: int)
    requires OneToOne(s) && Outstanding(s, n) && AckOf(s, n) == 1
    ensures Found(s, n)
  {
    var j :| 0 <= j < |s.slots| && s.slots[j] == Slot(n, true);
  }

  /** No packet expires between its acknowledgement and its release. */
  ghost predicate NoneLate(calls: seq<Call>) {
    forall k | 0 <= k < |calls| && After(calls[..k]).Some? :: !Late(After(calls[..k]).value.tx, calls[k])
  }

  lemma {:induction false} RunFinds(calls: seq<Call>)
    requires After(calls).Some? && NoneLate(calls)
    ensures AllFound(After(calls).value)
    decreases |calls|
  {
    hide Inv, Do, Late, AllFound;
    if calls == [] {
      hide After;
      NothingRecorded();
      NothingToFind();
    } else {
      var before, c := calls[..|calls| - 1], calls[|calls| - 1];
      assert NoneLate(before) by {
        forall k | 0 <= k < |before| && After(before[..k]).Some?
          ensures !Late(After(before[..k]).value.tx, before[k])
        {
          assert before[..k] == calls[..k];
        }
      }
      RunFinds(before);
      if c.Send? {
        PassFinds(After(before).value);
      } else {
        CallFinds(After(before).value, c);
      }
    }
  }

  lemma NothingToFind()
    ensures AllFound(START)
  {
  }

  /** When no expiry is late, every packet sent and not acknowledged is found, also while it
      waits to be sent again. */
  lemma SentIsFound(calls: seq<Call>, d: Datagram)
    requires After(calls).Some? && NoneLate(calls)
    requires d in After(calls).value.sent && Waiting(After(calls).value.tx, d.packnum)
    ensures Found(After(calls).value.tx, d.packnum)
  {
    RunFinds(calls);
  }

  ghost predicate WasSent(run: Run, n: int) {
    exists d :: d in run.sent && d.packnum == n
  }

  /** An expiry leaves every such packet found exactly when its own number, if it is sent and
      not released, is still in the table. */
  lemma ExpiryFindsExactly(run: Run, n: int)
    requires Inv(run) && AllFound(run)
    ensures AllFound(Do(run, Expire(n)).value) <==>
      !(Outstanding(run.tx, n) && WasSent(run, n) && !Found(run.tx, n))
  {
    var s, t := run.tx, TimerExpire(run.tx, n);
    forall m
      ensures Waiting(t, m) <==> Waiting(s, m) || (m == n && Outstanding(s, n))
    {
      assert Outstanding(s, m) && m != n ==> AckOf(t, m) == AckOf(s, m);
    }
    assert forall m :: Found(t, m) <==> Found(s, m) by {
      NumbersStay(run, Expire(n));
      forall m
        ensures Found(t, m) <==> Found(s, m)
      {
        if Found(s, m) { FoundStays(s, t, m); }
        if Found(t, m) { FoundStays(t, s, m); }
      }
    }
    hide Waiting, Found, Settled, TimerExpire;
  }

  // ----- a late expiry

  lemma AfterOn(calls: seq<Call>, run: Run, c: Call, next: Run)
    requires After(calls) == Some(run) && Settled(run.tx) && Do(run, c) == Some(next)
    ensures After(calls + [c]) == Some(next)
  {
    assert (calls + [c])[..|calls|] == calls;
    hide Inv, Do;
  }

  /** A full chunk is cut at once while the window has room for it. */
  lemma CutsAtOnce(s: Sender, chunk: seq<byte>)
    requires Settled(s) && |chunk| == PKT && Held(s) + PKT <= WIN
    ensures AddData(s, chunk).0 ==
      Sender(s.added + chunk, s.cuts + [s.cuts[|s.cuts| - 1] + PKT], s.base, s.acks + [0], s.slots)
  {
    var a := Appended(s, chunk);
    assert Covered(a) == Held(s) && Reach(a) == Held(s) + PKT;
    var t := ExtendOne(a);
    assert Release(a) == a && Extend(t) == t && Extend(a) == t;
  }

  function LateCalls(chunk: seq<byte>): seq<Call> {
    [Add(chunk), Add(chunk), Send, Ack(2), Add(chunk), Send, Expire(2)]
  }

  /** A sender of such chunks that has released none. */
  function Thousands(chunk: seq<byte>, acks: seq<int>, first: Slot, second: Slot): Sender {
    Sender(Repeated(chunk, |acks|), Cuts(|acks|), 0, acks, Unused(SLOTS)[0 := first][1 := second])
  }

  function Repeated(chunk: seq<byte>, k: nat): seq<byte> {
    if k == 0 then [] else Repeated(chunk, k - 1) + chunk
  }

  function Cuts(k: nat): (cuts: seq<int>)
    ensures |cuts| == k + 1 && forall i | 0 <= i <= k :: cuts[i] == i * PKT
  {
    if k == 0 then [0] else Cuts(k - 1) + [k * PKT]
  }

  lemma {:induction false} RepeatedSize(chunk: seq<byte>, k: nat)
    ensures |Repeated(chunk, k)| == k * |chunk|
    decreases k
  {
    if k == 0 {
    } else {
      RepeatedSize(chunk, k - 1);
      assert k * |chunk| == (k - 1) * |chunk| + |chunk|;
    }
  }

  lemma ThousandsSettle(chunk: seq<byte>, acks: seq<int>, first: Slot, second: Slot)
    requires |chunk| == PKT && |acks| <= 20 && (forall i | 0 <= i < |acks| :: 0 <= acks[i] <= 2)
    requires acks == [] || acks[0] != 2
    ensures var s := Thousands(chunk, acks, first, second);
      Settled(s) && Held(s) == |acks| * PKT
  {
    RepeatedSize(chunk, |acks|);
  }

  lemma ThousandsNext(chunk: seq<byte>, acks: seq<int>, first: Slot, second: Slot)
    ensures var s := Thousands(chunk, acks, first, second);
      s.cuts != [] && Thousands(chunk, acks + [0], first, second) ==
        Sender(s.added + chunk, s.cuts + [s.cuts[|s.cuts| - 1] + PKT], s.base, s.acks + [0], s.slots)
  {
    var k := |acks|;
    assert |acks + [0]| == k + 1;
    assert Cuts(k + 1) == Cuts(k) + [(k + 1) * PKT];
    assert Repeated(chunk, k + 1) == Repeated(chunk, k) + chunk;
  }

  lemma ThousandsAdd(chunk: seq<byte>, acks: seq<int>, first: Slot, second: Slot)
    requires |chunk| == PKT && |acks| < 20 && (forall i | 0 <= i < |acks| :: 0 <= acks[i] <= 2)
    requires acks == [] || acks[0] != 2
    ensures Settled(Thousands(chunk, acks, first, second))
    ensures AddData(Thousands(chunk, acks, first, second), chunk).0 == Thousands(chunk, acks + [0], first, second)
  {
    ThousandsSettle(chunk, acks, first, second);
    ThousandsNext(chunk, acks, first, second);
    hide Settled, AddData, Thousands;
    CutsAtOnce(Thousands(chunk, acks, first, second), chunk);
  }

  const FREE := Slot(0, false)

  lemma FirstOut(chunk: seq<byte>)
    requires |chunk| == PKT
    ensures var s, t, u := Thousands(chunk, [0, 0], FREE, FREE),
        Thousands(chunk, [1, 0], Slot(1, true), FREE), Thousands(chunk, [1, 1], Slot(1, true), Slot(2, true));
      && Settled(s) && Shaped(t) && Shaped(u)
      && FirstFree(s.slots, 0) == 0 && SendOne(s, 0) == t
      && FirstFree(t.slots, 0) == 1 && SendOne(t, 1) == u
  {
    ThousandsSettle(chunk, [0, 0], FREE, FREE);
    var s := Thousands(chunk, [0, 0], FREE, FREE);
    assert s.slots[0] == FREE && s.slots[1] == FREE;
    var t := Thousands(chunk, [1, 0], Slot(1, true), FREE);
    assert FirstFree(t.slots, 0) == 1;
    hide Settled, Shaped;
    SettledIsShaped(s);
    SendOneShaped(s, 0);
    SendOneShaped(t, 1);
  }

  /** Both packets go out. */
  lemma FirstPass(chunk: seq<byte>)
    requires |chunk| == PKT
    ensures var s := Thousands(chunk, [0, 0], FREE, FREE);
      && Settled(s) && SendWindow(s).Some?
      && SendWindow(s).value.0 == Thousands(chunk, [1, 1], Slot(1, true), Slot(2, true))
      && exists d :: d in SendWindow(s).value.1 && d.packnum == 2
  {
    FirstOut(chunk);
    var s, t := Thousands(chunk, [0, 0], FREE, FREE), Thousands(chunk, [1, 0], Slot(1, true), FREE);
    var u := Thousands(chunk, [1, 1], Slot(1, true), Slot(2, true));
    assert |s.acks| == |t.acks| == |u.acks| == 2 && s.acks[0] == t.acks[1] == 0 && t.base == 0 && |t.cuts| == 3;
    SettledIsShaped(s);
    hide Settled, Shaped, SendOne, Thousands, FirstFree, Packet;
    assert SendFrom(u, 2) == Some((u, []));
    var d := Stamped(2, Packet(t, 2));
    assert SendFrom(t, 1) == Some((u, [d] + []));
    assert d in SendFrom(s, 0).value.1;
  }

  /** The third takes the slot the second had. */
  lemma SecondPass(chunk: seq<byte>)
    requires |chunk| == PKT
    ensures var s := Thousands(chunk, [1, 2, 0], Slot(1, true), Slot(2, false));
      && Settled(s) && SendWindow(s).Some?
      && SendWindow(s).value.0 == Thousands(chunk, [1, 2, 1], Slot(1, true), Slot(3, true))
  {
    ThousandsSettle(chunk, [1, 2, 0], Slot(1, true), Slot(2, false));
    var s := Thousands(chunk, [1, 2, 0], Slot(1, true), Slot(2, false));
    assert s.slots[0].on && !s.slots[1].on;
    assert FirstFree(s.slots, 0) == 1;
    SendOneShaped(s, 2);
    var t := SendOne(s, 2);
    assert t == Thousands(chunk, [1, 2, 1], Slot(1, true), Slot(3, true));
    hide Settled, Shaped, SendOne, Thousands, FirstFree, Packet;
    assert SendFrom(t, 3) == Some((t, []));
    assert SendFrom(s, 1) == SendFrom(s, 2);
  }

  lemma SecondIsAcked(chunk: seq<byte>)
    requires |chunk| == PKT
    ensures var s := Thousands(chunk, [1, 1], Slot(1, true), Slot(2, true));
      Settled(s) && RecvAck(s, 2).0 == Thousands(chunk, [1, 2], Slot(1, true), Slot(2, false))
  {
    var s := Thousands(chunk, [1, 1], Slot(1, true), Slot(2, true));
    var t := Thousands(chunk, [1, 2], Slot(1, true), Slot(2, false));
    ThousandsSettle(chunk, [1, 1], Slot(1, true), Slot(2, true));
    ThousandsSettle(chunk, [1, 2], Slot(1, true), Slot(2, false));
    assert s.slots[0].bsn == 1 && s.slots[1].bsn == 2;
    assert FirstWith(s.slots, 2, 0) == 1;
    assert SetAck(FreeSlot(s, 2), 2, 2) == t;
    hide Settled, Thousands, SetAck, FreeSlot;
    CheckWindowIdle(t);
  }

  lemma SendStep(run: Run, t: Sender, n: int)
    requires Settled(run.tx) && SendWindow(run.tx).Some? && SendWindow(run.tx).value.0 == t
    requires WasSent(run, n) || exists d :: d in SendWindow(run.tx).value.1 && d.packnum == n
    ensures Do(run, Send).Some? && Do(run, Send).value.tx == t && WasSent(Do(run, Send).value, n)
  {
    hide Settled, SendWindow;
  }

  lemma Expired(chunk: seq<byte>)
    requires |chunk| == PKT
    ensures var s := Thousands(chunk, [1, 2, 1], Slot(1, true), Slot(3, true));
      && Settled(s)
      && TimerExpire(s, 2) == Thousands(chunk, [1, 0, 1], Slot(1, true), Slot(3, true))
      && Waiting(TimerExpire(s, 2), 2) && !Found(TimerExpire(s, 2), 2)
  {
    ThousandsSettle(chunk, [1, 2, 1], Slot(1, true), Slot(3, true));
    var s := Thousands(chunk, [1, 2, 1], Slot(1, true), Slot(3, true));
    assert forall j | 0 <= j < SLOTS :: s.slots[j].bsn != 2;
    assert AllOff(s.slots, 2) == s.slots;
  }

  lemma AddOn(calls: seq<Call>, run: Run, chunk: seq<byte>, acks: seq<int>, first: Slot, second: Slot) returns (next: Run)
    requires |chunk| == PKT && |acks| < 20 && (forall i | 0 <= i < |acks| :: 0 <= acks[i] <= 2)
    requires acks == [] || acks[0] != 2
    requires After(calls) == Some(run) && run.tx == Thousands(chunk, acks, first, second)
    ensures After(calls + [Add(chunk)]) == Some(next)
    ensures next.sent == run.sent && next.tx == Thousands(chunk, acks + [0], first, second)
  {
    ThousandsAdd(chunk, acks, first, second);
    hide Thousands, Settled, AddData, After;
    next := run.(tx := Thousands(chunk, acks + [0], first, second));
    AfterOn(calls, run, Add(chunk), next);
  }

  lemma SendOn(calls: seq<Call>, run: Run, t: Sender, n: int) returns (next: Run)
    requires After(calls) == Some(run) && Settled(run.tx)
    requires SendWindow(run.tx).Some? && SendWindow(run.tx).value.0 == t
    requires WasSent(run, n) || exists d :: d in SendWindow(run.tx).value.1 && d.packnum == n
    ensures After(calls + [Send]) == Some(next) && next.tx == t && WasSent(next, n)
  {
    SendStep(run, t, n);
    hide Settled, SendWindow, After, WasSent;
    next := Do(run, Send).value;
    AfterOn(calls, run, Send, next);
  }

  /** Two packets go out and the second is acknowledged. */
  lemma SecondBack(calls: seq<Call>, run: Run, chunk: seq<byte>) returns (next: Run)
    requires |chunk| == PKT && After(calls) == Some(run) && run.tx == Thousands(chunk, [0, 0], FREE, FREE)
    ensures After(calls + [Send] + [Ack(2)]) == Some(next) && WasSent(next, 2)
    ensures next.tx == Thousands(chunk, [1, 2], Slot(1, true), Slot(2, false))
  {
    FirstPass(chunk);
    SecondIsAcked(chunk);
    hide Settled, Thousands, SendWindow, RecvAck, After;
    var sent := SendOn(calls, run, Thousands(chunk, [1, 1], Slot(1, true), Slot(2, true)), 2);
    next := sent.(tx := Thousands(chunk, [1, 2], Slot(1, true), Slot(2, false)));
    AfterOn(calls + [Send], sent, Ack(2), next);
  }

  /** A third packet takes its slot, and the second expires. */
  lemma ThirdTakes(calls: seq<Call>, run: Run, chunk: seq<byte>) returns (next: Run)
    requires |chunk| == PKT && After(calls) == Some(run) && WasSent(run, 2)
    requires run.tx == Thousands(chunk, [1, 2, 0], Slot(1, true), Slot(2, false))
    ensures After(calls + [Send] + [Expire(2)]) == Some(next) && WasSent(next, 2)
    ensures Waiting(next.tx, 2) && !Found(next.tx, 2)
  {
    SecondPass(chunk);
    Expired(chunk);
    hide Settled, Thousands, SendWindow, TimerExpire, Waiting, Found, After;
    var sent := SendOn(calls, run, Thousands(chunk, [1, 2, 1], Slot(1, true), Slot(3, true)), 2);
    next := sent.(tx := TimerExpire(sent.tx, 2));
    AfterOn(calls + [Send], sent, Expire(2), next);
  }

  lemma LateCallsJoin(chunk: seq<byte>)
    ensures [] + [Add(chunk)] + [Add(chunk)] + [Send] + [Ack(2)] + [Add(chunk)] + [Send] + [Expire(2)] == LateCalls(chunk)
  {
  }

  lemma EmptyThousands(chunk: seq<byte>)
    ensures After([]) == Some(START) && START.tx == Thousands(chunk, [], FREE, FREE)
  {
  }

  /** Packet 2 is acknowledged, packet 3 takes its slot, and then an expiry of packet 2
      arrives: it is to be sent again, and its number is in no slot. */
  lemma LateExpiryLoses(chunk: seq<byte>)
    requires |chunk| == PKT
    ensures var run := After(LateCalls(chunk));
      run.Some? && Waiting(run.value.tx, 2) && WasSent(run.value, 2) && !Found(run.value.tx, 2)
  {
    hide Thousands, After, WasSent, Waiting, Found, LateCalls;
    EmptyThousands(chunk);
    LateCallsJoin(chunk);
    assert [0] + [0] == [0, 0] && [] + [0] == [0] && [1, 2] + [0] == [1, 2, 0];
    var r1 := AddOn([], START, chunk, [], FREE, FREE);
    var r2 := AddOn([] + [Add(chunk)], r1, chunk, [0], FREE, FREE);
    var c := [] + [Add(chunk)] + [Add(chunk)];
    var r4 := SecondBack(c, r2, chunk);
    var r5 := AddOn(c + [Send] + [Ack(2)], r4, chunk, [1, 2], Slot(1, true), Slot(2, false));
    SameSent(r4, r5, 2);
    var r7 := ThirdTakes(c + [Send] + [Ack(2)] + [Add(chunk)], r5, chunk);
  }

  lemma SameSent(run: Run, next: Run, n: int)
    requires WasSent(run, n) && next.sent == run.sent
    ensures WasSent(next, n)
  {
  }
}
