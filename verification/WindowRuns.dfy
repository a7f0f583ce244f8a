/** Whole runs of the sender buffer of cbuffer.c: any calls in any order. */
module WindowRuns {
  import opened Parameters
  import opened Wrappers
  import opened Window
  import opened WindowSlots
  import opened WindowChunks

  datatype Call = Add(chunk: seq<byte>) | Ack(number: int) | Expire(number: int) | Send

  /** A run keeps, beside the buffer, every packet sent. */
  datatype Run = Run(tx: Sender, sent: seq<Datagram>)

  const START := Run(INITIAL, [])

  /** None when a pass runs out of slots. */
  function Do(run: Run, c: Call): Option<Run>
    requires Settled(run.tx)
  {
    match c
    case Add(chunk) => Some(run.(tx := AddData(run.tx, chunk).0))
    case Ack(n) => Some(run.(tx := RecvAck(run.tx, n).0))
    case Expire(n) => Some(run.(tx := TimerExpire(run.tx, n)))
    case Send =>
      (match SendWindow(run.tx)
       case None => None
       case Some((tx, sent)) => Some(Run(tx, run.sent + sent)))
  }

  ghost predicate Inv(run: Run) {
    && Settled(run.tx)
    && OneToOne(run.tx)
    && forall d | d in run.sent :: Genuine(run.tx, d)
  }

  lemma GenuineStays(s: Sender, t: Sender, d: Datagram)
    requires Shaped(s) && Shaped(t) && Grows(s, t) && Genuine(s, d)
    ensures Genuine(t, d)
  {
    PacketsStay(s, t, d.packnum);
  }

  lemma DoSettles(run: Run, c: Call)
    requires Settled(run.tx) && OneToOne(run.tx) && Do(run, c).Some?
    ensures var after := Do(run, c).value;
      && Settled(after.tx) && OneToOne(after.tx) && Grows(run.tx, after.tx)
      && forall d | d in after.sent :: d in run.sent || Genuine(after.tx, d)
  {
    hide OneToOne, Genuine;
    match c {
      case Add(chunk) =>
        AddDataSettles(run.tx, chunk);
        AddDataCorresponds(run.tx, chunk);
      case Ack(n) =>
        RecvAckSettles(run.tx, n);
        RecvAckCorresponds(run.tx, n);
      case Expire(n) =>
        TimerExpireSettles(run.tx, n);
        TimerExpireCorresponds(run.tx, n);
      case Send =>
        SendSettles(run.tx);
        SendFromCorresponds(run.tx, 0);
    }
  }

  lemma DoKeeps(run: Run, c: Call)
    requires Inv(run) && Do(run, c).Some?
    ensures Inv(Do(run, c).value) && Grows(run.tx, Do(run, c).value.tx)
  {
    DoSettles(run, c);
    var after := Do(run, c).value;
    assert Shaped(run.tx) && Shaped(after.tx);
    hide Genuine, OneToOne, Do, Shaped, Grows;
    forall d | d in after.sent
      ensures Genuine(after.tx, d)
    {
      if d in run.sent {
        GenuineStays(run.tx, after.tx, d);
      }
    }
  }

  ghost function Then(run: Run, c: Call): (after: Option<Run>)
    requires Inv(run)
    ensures after == Do(run, c)
    ensures after.Some? ==> Inv(after.value)
  {
    if Do(run, c).Some? then DoKeeps(run, c); Do(run, c) else None
  }

  ghost function After(calls: seq<Call>): (run: Option<Run>)
    ensures run.Some? ==> Inv(run.value)
    decreases |calls|
  {
    if calls == [] then Some(START)
    else
      var before := After(calls[..|calls| - 1]);
      if before.None? then None else Then(before.value, calls[|calls| - 1])
  }

  /** In every run the slots in use and the sent packets correspond one to one, so the
      scan by number always meets the slot in use first. */
  lemma SlotsMatchSent(calls: seq<Call>)
    requires After(calls).Some?
    ensures var s := After(calls).value.tx;
      && (forall j | 0 <= j < |s.slots| && s.slots[j].on ::
            && FirstWith(s.slots, s.slots[j].bsn, 0) == j
            && Outstanding(s, s.slots[j].bsn) && AckOf(s, s.slots[j].bsn) == 1)
      && (forall n | Outstanding(s, n) && AckOf(s, n) == 1 ::
            FirstWith(s.slots, n, 0) < |s.slots| && s.slots[FirstWith(s.slots, n, 0)].on)
  {
    var s := After(calls).value.tx;
    forall j | 0 <= j < |s.slots| && s.slots[j].on
      ensures FirstWith(s.slots, s.slots[j].bsn, 0) == j
    {
      ScanFindsLive(s, j);
    }
    forall n | Outstanding(s, n) && AckOf(s, n) == 1
      ensures FirstWith(s.slots, n, 0) < |s.slots| && s.slots[FirstWith(s.slots, n, 0)].on
    {
      var j :| 0 <= j < |s.slots| && s.slots[j] == Slot(n, true);
      ScanFindsLive(s, j);
    }
  }

  /** A packet sent again is sent as it was, whatever was added, acknowledged or expired
      in between and wherever in the ring it lies. */
  lemma SentAgainAsBefore(calls: seq<Call>, d: Datagram, e: Datagram)
    requires After(calls).Some?
    requires d in After(calls).value.sent && e in After(calls).value.sent && d.packnum == e.packnum
    ensures d == e
  {
    var run := After(calls).value;
    assert Genuine(run.tx, d) && Genuine(run.tx, e);
  }

  lemma {:induction false} RunGrows(calls: seq<Call>, more: seq<Call>)
    requires After(calls).Some? && After(calls + more).Some?
    ensures Grows(After(calls).value.tx, After(calls + more).value.tx)
    decreases |more|
  {
    hide Inv, Do;
    if more == [] {
      assert calls + more == calls;
    } else {
      var before, c := more[..|more| - 1], more[|more| - 1];
      assert (calls + more)[..|calls + more| - 1] == calls + before;
      assert After(calls + before).Some?;
      RunGrows(calls, before);
      DoKeeps(After(calls + before).value, c);
    }
  }

  /** A packet keeps its bytes from when it is cut on, through its release and beyond. */
  lemma PacketIsFixed(calls: seq<Call>, more: seq<Call>, n: int)
    requires After(calls).Some? && After(calls + more).Some?
    requires 1 <= n < |After(calls).value.tx.cuts|
    ensures var s, t := After(calls).value.tx, After(calls + more).value.tx;
      && Shaped(s) && Shaped(t) && n < |t.cuts|
      && Packet(s, n) == Packet(t, n)
  {
    var s, t := After(calls).value.tx, After(calls + more).value.tx;
    assert Shaped(s) && Shaped(t);
    hide After, Inv, Shaped, Packet;
    RunGrows(calls, more);
    PacketsStay(s, t, n);
  }

  /** No chunk is added after a short one has been taken, and none is longer than a packet. */
  ghost predicate ChunksFull(calls: seq<Call>) {
    forall k | 0 <= k < |calls| && calls[k].Add? && After(calls[..k]).Some? ::
      ChunkAllowed(After(calls[..k]).value.tx, calls[k].chunk)
  }

  lemma DoFull(run: Run, c: Call)
    requires Inv(run) && FullChunks(run.tx) && (c.Add? ==> ChunkAllowed(run.tx, c.chunk))
    ensures Do(run, c).Some? && FullChunks(Do(run, c).value.tx)
  {
    match c
    case Add(chunk) => AddDataFull(run.tx, chunk);
    case Ack(n) => RecvAckFull(run.tx, n);
    case Expire(n) =>
    case Send =>
      FullChunksAlwaysSend(run.tx);
      SendFromSettles(run.tx, 0);
  }

  /** With full chunks a run never runs out of slots, and never has more than twenty
      packets in its window. */
  lemma {:induction false} NeverOutOfSlots(calls: seq<Call>)
    requires ChunksFull(calls)
    ensures After(calls).Some?
    ensures FullChunks(After(calls).value.tx) && |After(calls).value.tx.acks| <= SLOTS
    decreases |calls|
  {
    if calls == [] {
    } else {
      var before, c := calls[..|calls| - 1], calls[|calls| - 1];
      assert forall k | 0 <= k < |before| :: before[k] == calls[k] && before[..k] == calls[..k];
      NeverOutOfSlots(before);
      DoFull(After(before).value, c);
    }
    AtMostTwenty(After(calls).value.tx);
  }

  // ----- one-byte chunks

  function Bytes(k: nat): seq<Call> {
    if k == 0 then [] else Bytes(k - 1) + [Add([0])]
  }

  function Counting(k: nat): (cuts: seq<int>)
    ensures |cuts| == k + 1 && forall i | 0 <= i <= k :: cuts[i] == i
  {
    if k == 0 then [0] else Counting(k - 1) + [k]
  }

  /** A packet for each of k bytes, none sent. */
  ghost predicate Single(s: Sender, k: nat) {
    && Settled(s)
    && |s.added| == k && s.base == 0 && s.cuts == Counting(k)
    && |s.acks| == k && (forall i | 0 <= i < k :: s.acks[i] == 0)
    && s.slots == Unused(SLOTS)
  }

  lemma OneMoreByte(s: Sender, k: nat)
    requires Single(s, k) && k < WIN
    ensures Single(AddData(s, [0]).0, k + 1)
  {
    AddDataSettles(s, [0]);
    var a := Appended(s, [0]);
    assert Covered(a) == k && Reach(a) == k + 1;
    assert Release(a) == a;
    var t := ExtendOne(a);
    assert t.cuts == Counting(k + 1);
    assert Extend(t) == t;
    assert Extend(a) == t;
  }

  lemma {:induction false} BytesAreSingle(k: nat)
    requires k <= WIN
    ensures After(Bytes(k)).Some? && Single(After(Bytes(k)).value.tx, k)
    decreases k
  {
    if k == 0 {
    } else {
      BytesAreSingle(k - 1);
      var calls := Bytes(k);
      assert calls[..|calls| - 1] == Bytes(k - 1);
      OneMoreByte(After(Bytes(k - 1)).value.tx, k - 1);
    }
  }

  lemma {:induction false} AllToSend(acks: seq<int>)
    requires forall i | 0 <= i < |acks| :: acks[i] == 0
    ensures ToSend(acks) == |acks|
    decreases |acks|
  {
    if acks == [] {
    } else {
      AllToSend(acks[1..]);
    }
  }

  lemma {:induction false} AllFree(slots: seq<Slot>)
    requires forall j | 0 <= j < |slots| :: !slots[j].on
    ensures FreeSlots(slots) == |slots|
    decreases |slots|
  {
    if slots == [] {
    } else {
      AllFree(slots[1..]);
    }
  }

  lemma SingleRunsOut(s: Sender, k: nat)
    requires Single(s, k)
    ensures SendWindow(s).None? <==> k > SLOTS
  {
    SlotsSufficeExactly(s, 0);
    hide SendFrom, Settled;
    assert s.acks[0..] == s.acks;
    AllToSend(s.acks);
    AllFree(s.slots);
  }

  lemma AfterSend(calls: seq<Call>)
    requires After(calls).Some?
    ensures Settled(After(calls).value.tx)
    ensures After(calls + [Send]).None? <==> SendWindow(After(calls).value.tx).None?
  {
    assert (calls + [Send])[..|calls + [Send]| - 1] == calls;
    assert Settled(After(calls).value.tx);
    hide Inv, Settled, SendWindow;
  }

  /** k chunks of one byte each and then a pass: it runs out of slots, past the end of the
      table at cbuffer.c:399, exactly when there are more than twenty. */
  lemma OneByteChunks(k: nat)
    requires k <= WIN
    ensures After(Bytes(k)).Some?
    ensures After(Bytes(k) + [Send]).None? <==> k > SLOTS
  {
    hide After, Bytes, Single, Settled, SendWindow;
    BytesAreSingle(k);
    AfterSend(Bytes(k));
    SingleRunsOut(After(Bytes(k)).value.tx, k);
  }
}
