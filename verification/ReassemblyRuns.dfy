/** What every run of the receiver buffer serves, whatever arrives in whatever order. */
module ReassemblyRuns {
  import opened Parameters
  import opened Reassembly
  import ReassemblyCells

  datatype Event = Arrives(seqnum: int, packet: seq<byte>) | Asked(size: nat)

  /** A run keeps, beside the buffer, the first packet accepted under each number and
      all the bytes served. */
  datatype Run = Run(r: Receiver, accepted: map<int, seq<byte>>, served: seq<byte>)

  const START := Run(INITIAL, map[], [])

  /** Full packets, numbered below the mark of the open hole. */
  predicate WellFormed(e: Event) {
    e.Arrives? ==> |e.packet| == PKT && e.seqnum < MAXSEQ
  }

  function Step(run: Run, e: Event): Run
    requires Valid(run.r)
  {
    match e
    case Arrives(s, packet) =>
      var taken := Acceptable(run.r, s);
      Run(Insert(run.r, s, packet).0,
          if taken then run.accepted[s := packet] else run.accepted,
          run.served)
    case Asked(size) =>
      var (r, bytes) := Read(run.r, size);
      run.(r := r, served := run.served + bytes)
  }

  // ----- joining

  lemma {:induction false} JoinedConcat(m: map<int, seq<byte>>, s: int, t: int, e: int)
    requires s <= t <= e && FullPackets(m)
    requires forall k | s <= k < e :: k in m
    ensures Joined(m, s, e) == Joined(m, s, t) + Joined(m, t, e)
    decreases t - s
  {
    if s == t {
    } else {
      JoinedConcat(m, s + 1, t, e);
    }
  }

  lemma {:induction false} JoinedSame(m: map<int, seq<byte>>, n: map<int, seq<byte>>, s: int, e: int)
    requires s <= e && FullPackets(m) && FullPackets(n)
    requires forall k | s <= k < e :: k in m && k in n && m[k] == n[k]
    ensures Joined(m, s, e) == Joined(n, s, e)
    decreases e - s
  {
    if s == e {
    } else {
      JoinedSame(m, n, s + 1, e);
    }
  }

  /** Joining up to a later packet only adds to the end. */
  lemma JoinedGrows(m: map<int, seq<byte>>, n: map<int, seq<byte>>, t: int, e: int)
    requires 1 <= t <= e && FullPackets(m) && FullPackets(n)
    requires forall k | 1 <= k < t :: k in m && k in n && m[k] == n[k]
    requires forall k | 1 <= k < e :: k in n
    ensures Joined(m, 1, t) <= Joined(n, 1, e)
  {
    JoinedSame(m, n, 1, t);
    JoinedConcat(n, 1, t, e);
  }

  // ----- the block in front

  lemma BlockEndAtLeast(r: Receiver, e: int)
    requires r.dstart <= e <= r.dstart + BLOCKS
    requires forall k | r.dstart <= k < e :: k in r.store
    ensures e <= BlockEnd(r)
  {
  }

  lemma BlockEndGrows(r: Receiver, s: int, packet: seq<byte>)
    requires Valid(r) && Acceptable(r, s)
    ensures BlockEnd(r) <= BlockEnd(r.(store := r.store[s := packet]))
  {
    BlockEndAtLeast(r.(store := r.store[s := packet]), BlockEnd(r));
  }

  /** After a block is served the next packet is missing. */
  lemma BlockEndMissing(r: Receiver)
    requires Valid(r)
    ensures BlockEnd(r) !in r.store
  {
  }

  lemma EmptyBlock(r: Receiver)
    requires r.dstart !in r.store
    ensures BlockEnd(r) == r.dstart
  {
  }

  // ----- the invariant

  /** How far the application has read into the joined packets. */
  function Position(r: Receiver): int {
    (r.dstart - 1) * PKT + r.off
  }

  ghost predicate Remembers(r: Receiver, accepted: map<int, seq<byte>>) {
    && FullPackets(accepted)
    && (forall s | 1 <= s < r.dstart :: s in accepted)
    && (forall s | s in r.store :: s in accepted && accepted[s] == r.store[s])
    && (forall s | s in accepted && r.dstart <= s :: s in r.store)
  }

  lemma RemembersBlock(r: Receiver, accepted: map<int, seq<byte>>)
    requires Valid(r) && Remembers(r, accepted)
    ensures forall k | 1 <= k < BlockEnd(r) :: k in accepted
    ensures 0 <= Position(r) <= (BlockEnd(r) - 1) * PKT
  {
  }

  ghost predicate Inv(run: Run) {
    && Valid(run.r)
    && Remembers(run.r, run.accepted)
    && (forall k | 1 <= k < BlockEnd(run.r) :: k in run.accepted)
    && 0 <= Position(run.r) <= (BlockEnd(run.r) - 1) * PKT
    && run.served == Joined(run.accepted, 1, BlockEnd(run.r))[..Position(run.r)]
  }

  lemma InsertKeepsValid(r: Receiver, s: int, packet: seq<byte>)
    requires Valid(r) && Acceptable(r, s) && |packet| == PKT && s < MAXSEQ
    ensures Valid(r.(store := r.store[s := packet]))
  {
    BlockEndGrows(r, s, packet);
  }

  lemma InsertRemembers(r: Receiver, accepted: map<int, seq<byte>>, s: int, packet: seq<byte>)
    requires Remembers(r, accepted) && Acceptable(r, s) && |packet| == PKT
    ensures s !in accepted
    ensures Remembers(r.(store := r.store[s := packet]), accepted[s := packet])
  {
  }

  lemma ArrivalKeeps(run: Run, s: int, packet: seq<byte>)
    requires Inv(run) && |packet| == PKT && s < MAXSEQ
    ensures Inv(Step(run, Arrives(s, packet)))
  {
    if Acceptable(run.r, s) {
      AcceptedKeeps(run, s, packet);
    }
  }

  lemma AcceptedKeeps(run: Run, s: int, packet: seq<byte>)
    requires Inv(run) && Acceptable(run.r, s) && |packet| == PKT && s < MAXSEQ
    ensures Inv(Run(run.r.(store := run.r.store[s := packet]), run.accepted[s := packet], run.served))
  {
    var r, accepted := run.r.(store := run.r.store[s := packet]), run.accepted[s := packet];
    assert FullPackets(run.accepted) && FullPackets(accepted);
    hide Remembers, Valid, BlockEnd, Joined, FullPackets;
    InsertKeepsValid(run.r, s, packet);
    InsertRemembers(run.r, run.accepted, s, packet);
    BlockEndGrows(run.r, s, packet);
    RemembersBlock(r, accepted);
    hide Acceptable;
    JoinedGrows(run.accepted, accepted, BlockEnd(run.r), BlockEnd(r));
    assert run.served <= Joined(run.accepted, 1, BlockEnd(run.r));
  }

  /** What is available is the rest of the joined packets. */
  lemma AvailableIsRest(r: Receiver, accepted: map<int, seq<byte>>)
    requires Valid(r) && Remembers(r, accepted)
    ensures forall k | 1 <= k < BlockEnd(r) :: k in accepted
    ensures 0 <= Position(r) <= (BlockEnd(r) - 1) * PKT
    ensures Available(r) == Joined(accepted, 1, BlockEnd(r))[Position(r)..]
  {
    RemembersBlock(r, accepted);
    JoinedConcat(accepted, 1, r.dstart, BlockEnd(r));
    JoinedSame(accepted, r.store, r.dstart, BlockEnd(r));
  }

  lemma ServedWholeKeeps(r: Receiver, accepted: map<int, seq<byte>>)
    requires Valid(r) && Remembers(r, accepted)
    requires r.dstart in r.store
    ensures var after := Receiver(BlockEnd(r), 0, DropBelow(r.store, BlockEnd(r)));
      Valid(after) && Remembers(after, accepted) && BlockEnd(after) == BlockEnd(r)
  {
    BlockEndMissing(r);
    BlockEndAtLeast(r, r.dstart + 1);
    assert BlockEnd(r) - 1 in r.store;
    EmptyBlock(Receiver(BlockEnd(r), 0, DropBelow(r.store, BlockEnd(r))));
  }

  lemma ServedPartKeeps(r: Receiver, accepted: map<int, seq<byte>>, n: nat)
    requires Valid(r) && Remembers(r, accepted)
    requires n < |Available(r)|
    ensures var after := r.(off := r.off + n);
      Valid(after) && Remembers(after, accepted) && BlockEnd(after) == BlockEnd(r)
  {
    assert BlockEnd(r.(off := r.off + n)) == BlockEnd(r);
    assert r.off + |Available(r)| == (BlockEnd(r) - r.dstart) * PKT by {
      if r.dstart !in r.store { EmptyBlock(r); }
    }
  }

  lemma ReadKeeps(run: Run, size: nat)
    requires Inv(run)
    ensures Inv(Step(run, Asked(size)))
  {
    var r := run.r;
    var all := Joined(run.accepted, 1, BlockEnd(r));
    AvailableIsRest(r, run.accepted);
    if r.dstart !in r.store {
      assert Step(run, Asked(size)) == run;
    } else if |Available(r)| <= size {
      var after := Receiver(BlockEnd(r), 0, DropBelow(r.store, BlockEnd(r)));
      assert Step(run, Asked(size)) == Run(after, run.accepted, run.served + Available(r));
      ServedWholeKeeps(r, run.accepted);
      hide Remembers, Valid, BlockEnd, Joined, Available, DropBelow;
      assert run.served + Available(r) == all == all[..Position(after)];
    } else {
      var after := r.(off := r.off + size);
      assert Step(run, Asked(size)) == Run(after, run.accepted, run.served + Available(r)[..size]);
      ServedPartKeeps(r, run.accepted, size);
      hide Remembers, Valid, BlockEnd, Joined, Available;
      assert run.served + Available(r)[..size] == all[..Position(after)];
    }
  }

  lemma StepKeeps(run: Run, e: Event)
    requires Inv(run) && WellFormed(e)
    ensures Inv(Step(run, e))
  {
    match e
    case Arrives(s, packet) => ArrivalKeeps(run, s, packet);
    case Asked(size) => ReadKeeps(run, size);
  }

  // ----- whole runs

  function After(events: seq<Event>): (run: Run)
    requires forall e | e in events :: WellFormed(e)
    ensures Inv(run)
    decreases |events|
  {
    if events == [] then START
    else
      var run := After(events[..|events| - 1]);
      var e := events[|events| - 1];
      StepKeeps(run, e);
      Step(run, e)
  }

  /** Whatever arrives and whatever is asked for: the bytes served are a prefix of the
      first accepted packets 1, 2, 3, ... joined, as long as the reader has got. */
  lemma ServedIsAPrefix(events: seq<Event>)
    requires forall e | e in events :: WellFormed(e)
    ensures var run := After(events);
      && (forall k | 1 <= k < BlockEnd(run.r) :: k in run.accepted)
      && FullPackets(run.accepted)
      && run.served <= Joined(run.accepted, 1, BlockEnd(run.r))
      && |run.served| == Position(run.r)
  {
    hide Joined, BlockEnd, Step, Valid;
    assert Inv(After(events));
  }

  /** A packet once accepted is never replaced. */
  lemma AcceptedOnce(run: Run, e: Event)
    requires Inv(run) && WellFormed(e)
    ensures forall s | s in run.accepted :: s in Step(run, e).accepted && Step(run, e).accepted[s] == run.accepted[s]
  {
  }

  /** A reader who asks for something gets nothing only when the next packet is missing. */
  lemma NothingOnlyWhenMissing(r: Receiver, size: nat)
    requires Valid(r) && size > 0
    ensures Read(r, size).1 == [] <==> r.dstart !in r.store
  {
    if r.dstart in r.store {
      BlockEndAtLeast(r, r.dstart + 1);
    }
  }

  // ----- how much a read serves

  /** The packets from the next one on are held up to e, and e is not. */
  predicate HeldUpTo(r: Receiver, e: int) {
    r.dstart <= e && (forall k | r.dstart <= k < e :: k in r.store) && e !in r.store
  }

  /** There is one such e. */
  lemma HeldUpToBlockEnd(r: Receiver, e: int)
    requires Valid(r)
    ensures HeldUpTo(r, e) <==> e == BlockEnd(r)
  {
    BlockEndMissing(r);
  }

  /** The bytes held without a gap and not served yet. */
  function Left(r: Receiver, e: int): int {
    (e - r.dstart) * PKT - r.off
  }

  function Least(a: int, b: int): int {
    if a < b then a else b
  }

  /** Byte i of those, in the packet it arrived in. */
  ghost predicate NextByte(r: Receiver, i: nat, b: byte) {
    var s, j := r.dstart + (r.off + i) / PKT, (r.off + i) % PKT;
    s in r.store && j < |r.store[s]| && b == r.store[s][j]
  }

  lemma AvailableAt(r: Receiver, i: nat)
    requires Valid(r) && i < Left(r, BlockEnd(r))
    ensures |Available(r)| == Left(r, BlockEnd(r)) && NextByte(r, i, Available(r)[i])
  {
    var s, e := r.dstart, BlockEnd(r);
    assert Available(r)[i] == Joined(r.store, s, e)[r.off + i];
    hide Joined, BlockEnd;
    ReassemblyCells.JoinedAt(r.store, s, e, r.off + i);
  }

  lemma LeftSize(r: Receiver)
    requires Valid(r)
    ensures |Available(r)| == Left(r, BlockEnd(r)) >= 0
    ensures r.dstart !in r.store ==> Left(r, BlockEnd(r)) == 0
  {
  }

  /** A read of n bytes serves the next n bytes of the packets held without a gap, or all
      there are; the reader moves on by as many, and packets behind it are dropped. */
  lemma ReadServesExactly(r: Receiver, n: nat, e: int)
    requires Valid(r) && HeldUpTo(r, e)
    ensures var (t, bytes) := Read(r, n);
      && |bytes| == Least(n, Left(r, e))
      && (forall i | 0 <= i < |bytes| :: NextByte(r, i, bytes[i]))
      && Position(t) == Position(r) + |bytes|
      && t.dstart == (if n < Left(r, e) then r.dstart else e)
      && (forall s :: s in t.store <==> s in r.store && t.dstart <= s)
      && (forall s | s in t.store :: t.store[s] == r.store[s])
  {
    HeldUpToBlockEnd(r, e);
    LeftSize(r);
    assert forall s | s in r.store :: r.dstart <= s;
    assert r.dstart !in r.store ==> r.off == 0;
    var (t, bytes) := Read(r, n);
    assert bytes == Available(r)[..|bytes|];
    hide Valid, Available, Read, HeldUpTo, NextByte;
    forall i | 0 <= i < |bytes|
      ensures NextByte(r, i, bytes[i])
    {
      AvailableAt(r, i);
    }
  }

  /** What is served grows by what such a read gives. */
  ghost predicate GrowsBy(r: Receiver, size: nat, e: int, served: seq<byte>, after: seq<byte>) {
    && served <= after
    && |after| == |served| + Least(size, Left(r, e))
    && forall i | 0 <= i < |after| - |served| :: NextByte(r, i, after[|served|..][i])
  }

  lemma ReadGrows(r: Receiver, size: nat, e: int, served: seq<byte>)
    requires Valid(r) && HeldUpTo(r, e)
    ensures GrowsBy(r, size, e, served, served + Read(r, size).1)
  {
    ReadServesExactly(r, size, e);
    hide Read, NextByte, HeldUpTo, Left, Valid;
    assert (served + Read(r, size).1)[|served|..] == Read(r, size).1;
  }

  /** In every run a read makes what is served longer by just that. */
  lemma AskedServes(events: seq<Event>, size: nat, e: int)
    requires (forall e | e in events :: WellFormed(e)) && HeldUpTo(After(events).r, e)
    ensures forall e | e in events + [Asked(size)] :: WellFormed(e)
    ensures GrowsBy(After(events).r, size, e, After(events).served, After(events + [Asked(size)]).served)
  {
    assert (events + [Asked(size)])[..|events|] == events;
    var run := After(events);
    assert Inv(run) && Valid(run.r);
    ReadGrows(run.r, size, e, run.served);
    hide Read, GrowsBy, HeldUpTo, Inv, Valid;
    assert Step(run, Asked(size)).served == run.served + Read(run.r, size).1;
  }

  // ----- when a packet that was stored is acknowledged again

  /** Already served, or stored behind its predecessor. */
  predicate Silent(r: Receiver, s: int) {
    s < r.dstart || (s in r.store && s - 1 in r.store)
  }

  /** Only packets beyond the window and those already merged or served are refused. */
  lemma RefusedExactly(r: Receiver, s: int, packet: seq<byte>)
    requires Valid(r)
    ensures !Insert(r, s, packet).1 <==> Silent(r, s) || r.dstart + BLOCKS <= s
  {
    assert s in r.store ==> r.dstart <= s;
  }

  lemma SilentIsRefused(r: Receiver, s: int, packet: seq<byte>)
    requires Valid(r) && Silent(r, s)
    ensures Insert(r, s, packet) == (r, false)
  {
    RefusedExactly(r, s, packet);
  }

  lemma SilentStays(run: Run, e: Event, s: int)
    requires Valid(run.r) && WellFormed(e) && Silent(run.r, s)
    ensures Silent(Step(run, e).r, s)
  {
    if e.Asked? && run.r.dstart in run.r.store {
      BlockEndMissing(run.r);
    }
  }

  /** If the acknowledgement of such a packet is lost, no repetition of it is ever
      acknowledged, whatever arrives and is read in between. */
  lemma {:induction false} NeverAcknowledgedAgain(events: seq<Event>, more: seq<Event>, s: int, packet: seq<byte>)
    requires forall e | e in events :: WellFormed(e)
    requires forall e | e in more :: WellFormed(e)
    requires Silent(After(events).r, s)
    ensures forall e | e in events + more :: WellFormed(e)
    ensures Silent(After(events + more).r, s)
    ensures Insert(After(events + more).r, s, packet) == (After(events + more).r, false)
    decreases |more|
  {
    hide Step, Remembers, Joined, BlockEnd, Silent, Insert;
    if more == [] {
      assert events + more == events;
    } else {
      var before, e := more[..|more| - 1], more[|more| - 1];
      NeverAcknowledgedAgain(events, before, s, packet);
      assert (events + more)[..|events + more| - 1] == events + before;
      SilentStays(After(events + before), e, s);
    }
    SilentIsRefused(After(events + more).r, s, packet);
  }

  /** Packets 1 and 2 arrive, and packet 2 again: it is refused. */
  lemma SecondIsRefused(a: seq<byte>, b: seq<byte>)
    requires |a| == PKT && |b| == PKT
    ensures var events := [Arrives(1, a), Arrives(2, b)];
      && (forall e | e in events :: WellFormed(e))
      && After(events).r == Receiver(1, 0, map[1 := a, 2 := b])
      && Silent(After(events).r, 2)
      && Insert(After(events).r, 2, b) == (After(events).r, false)
  {
    var one, events := [Arrives(1, a)], [Arrives(1, a), Arrives(2, b)];
    assert one[..0] == [] && events[..1] == one;
    assert After(one) == Step(START, Arrives(1, a));
    assert After(one).r == Receiver(1, 0, map[1 := a]);
  }
}
