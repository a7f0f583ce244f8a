/** One schedule without faults: chunk after chunk is sent, delivered, acknowledged and read
    before the next. */
module Delivery {
  import opened Parameters
  import opened Wrappers
  import opened Protocol
  import W = Window
  import R = Reassembly

  /** One full chunk on its way: handed over, sent, delivered, acknowledged and read. */
  function Round(n: int, chunk: seq<byte>): seq<Action> {
    [Local(Hand(chunk)), Local(Offer), Local(Send), Arrive(W.Stamped(n, chunk)), Local(Ack(n)), Read(PKT)]
  }

  function Rounds(chunks: seq<seq<byte>>): seq<Action> {
    if chunks == [] then []
    else Rounds(chunks[..|chunks| - 1]) + Round(|chunks|, chunks[|chunks| - 1])
  }

  function Concat(chunks: seq<seq<byte>>): seq<byte> {
    if chunks == [] then [] else Concat(chunks[..|chunks| - 1]) + chunks[|chunks| - 1]
  }

  // ----- the sender's part

  /** Everything added is released, and the first slot is free. */
  ghost predicate Idle(s: W.Sender) {
    W.Settled(s) && s.acks == [] && s.cuts[s.base] == |s.added| && !s.slots[0].on
  }

  /** The sender with one more packet, in the given states. */
  function Holding(s: W.Sender, chunk: seq<byte>, ack: int, slot: W.Slot): W.Sender
    requires |s.slots| == W.SLOTS
  {
    W.Sender(s.added + chunk, s.cuts + [|s.added| + PKT], s.base, [ack], s.slots[0 := slot])
  }

  lemma HoldingSettles(s: W.Sender, chunk: seq<byte>, ack: int, slot: W.Slot)
    requires Idle(s) && |chunk| == PKT && 0 <= ack <= 1
    ensures var t := Holding(s, chunk, ack, slot);
      && W.Settled(t) && W.Held(t) == PKT
      && 0 <= t.base && t.base + 2 == |t.cuts|
      && W.Packet(t, t.base + 1) == chunk
  {
    var t := Holding(s, chunk, ack, slot);
    W.SteppedAppend(s.cuts, PKT);
    assert t.cuts[t.base] == |s.added| && t.cuts[t.base + 1] == |s.added| + PKT;
    assert t.added[|s.added|..|s.added| + PKT] == chunk;
  }

  lemma Adds(s: W.Sender, chunk: seq<byte>)
    requires Idle(s) && |chunk| == PKT
    ensures W.AddData(s, chunk) == (Holding(s, chunk, 0, s.slots[0]), true)
  {
    var a, t := W.Appended(s, chunk), Holding(s, chunk, 0, s.slots[0]);
    HoldingSettles(s, chunk, 0, s.slots[0]);
    assert W.Covered(a) == 0 && W.Reach(a) == PKT;
    assert W.ExtendOne(a) == t;
    assert W.Extend(t) == t;
  }

  /** The sender with a second packet behind the one that is out. */
  function Holding2(s: W.Sender, chunk: seq<byte>, slot: W.Slot, next: seq<byte>): W.Sender
    requires |s.slots| == W.SLOTS
  {
    W.Sender(s.added + chunk + next, s.cuts + [|s.added| + PKT, |s.added| + 2 * PKT], s.base, [1, 0], s.slots[0 := slot])
  }

  lemma AddsBehind(s: W.Sender, chunk: seq<byte>, slot: W.Slot, next: seq<byte>)
    requires Idle(s) && |chunk| == PKT && |next| == PKT
    ensures W.Settled(Holding(s, chunk, 1, slot)) && W.Settled(Holding2(s, chunk, slot, next))
    ensures W.AddData(Holding(s, chunk, 1, slot), next) == (Holding2(s, chunk, slot, next), true)
    ensures var t := Holding2(s, chunk, slot, next);
      && 0 <= t.base && t.base + 3 == |t.cuts| && W.Shaped(t)
      && W.Packet(t, t.base + 2) == next
  {
    var t, u := Holding(s, chunk, 1, slot), Holding2(s, chunk, slot, next);
    HoldingSettles(s, chunk, 1, slot);
    var a := W.Appended(t, next);
    assert W.Release(a) == a && W.Covered(a) == PKT && W.Reach(a) == 2 * PKT;
    assert u.cuts == t.cuts + [|s.added| + 2 * PKT];
    W.SteppedAppend(t.cuts, PKT);
    assert W.ExtendOne(a) == u;
    assert W.Extend(u) == u;
    assert W.Extend(a) == u;
    assert u.added[|s.added| + PKT..|s.added| + 2 * PKT] == next;
  }

  lemma Sends(s: W.Sender, chunk: seq<byte>)
    requires Idle(s) && |chunk| == PKT
    ensures W.Settled(Holding(s, chunk, 0, s.slots[0]))
    ensures W.SendWindow(Holding(s, chunk, 0, s.slots[0]))
         == Some((Holding(s, chunk, 1, W.Slot(s.base + 1, true)), [W.Stamped(s.base + 1, chunk)]))
  {
    var t, u := Holding(s, chunk, 0, s.slots[0]), Holding(s, chunk, 1, W.Slot(s.base + 1, true));
    HoldingSettles(s, chunk, 0, s.slots[0]);
    HoldingSettles(s, chunk, 1, W.Slot(s.base + 1, true));
    assert W.FirstFree(t.slots, 0) == 0;
    assert W.SendOne(t, 0) == u;
    hide W.Shaped, W.Packet, W.Stamped;
    assert W.SendFrom(u, 1) == Some((u, []));
    var d := W.Stamped(t.base + 1, W.Packet(t, t.base + 1));
    assert W.SendFrom(t, 0) == Some((u, [d] + []));
    assert [d] + [] == [d];
  }

  /** The sender after the round. */
  function Done(s: W.Sender, chunk: seq<byte>): W.Sender
    requires |s.slots| == W.SLOTS
  {
    Holding(s, chunk, 0, W.Slot(s.base + 1, false)).(base := s.base + 1, acks := [])
  }

  lemma Acknowledges(s: W.Sender, chunk: seq<byte>)
    requires Idle(s) && |chunk| == PKT
    ensures W.Settled(Holding(s, chunk, 1, W.Slot(s.base + 1, true)))
    ensures W.RecvAck(Holding(s, chunk, 1, W.Slot(s.base + 1, true)), s.base + 1) == (Done(s, chunk), true)
    ensures Idle(Done(s, chunk))
  {
    var n := s.base + 1;
    var t, done := Holding(s, chunk, 1, W.Slot(n, true)), Done(s, chunk);
    HoldingSettles(s, chunk, 1, W.Slot(n, true));
    assert W.FirstWith(t.slots, n, 0) == 0;
    var u := W.SetAck(W.FreeSlot(t, n), n, 2);
    assert u == t.(acks := [2], slots := t.slots[0 := W.Slot(n, false)]);
    assert W.ReleaseOne(u) == done;
    assert W.Release(u) == done;
    assert W.Covered(done) == W.Reach(done) == 0;
    assert W.Extend(done) == done;
  }

  // ----- the receiver's part

  lemma Stores(n: int, chunk: seq<byte>)
    requires 1 <= n < MAXSEQ && |chunk| == PKT
    ensures Deliver(R.Receiver(n, 0, map[]), W.Stamped(n, chunk)) == (R.Receiver(n, 0, map[n := chunk]), true)
  {
  }

  lemma Serves(n: int, chunk: seq<byte>)
    requires 1 <= n < MAXSEQ && |chunk| == PKT
    ensures R.Valid(R.Receiver(n, 0, map[n := chunk]))
    ensures R.Read(R.Receiver(n, 0, map[n := chunk]), PKT) == (R.Receiver(n + 1, 0, map[]), chunk)
  {
    var r := R.Receiver(n, 0, map[n := chunk]);
    assert R.FirstMissing(r.store.Keys, n + 1, n + BLOCKS) == n + 1;
    assert R.BlockEnd(r) == n + 1;
    assert R.Joined(r.store, n + 1, n + 1) == [];
    assert R.Joined(r.store, n, n + 1) == chunk + [] == chunk;
    assert R.Available(r) == chunk;
    assert R.DropBelow(r.store, n + 1) == map[];
  }

  // ----- one round

  /** Both ends are done with n packets. */
  ghost predicate Rests(s: System, n: int) {
    && Idle(s.client.tx) && s.client.tx.base == n && s.client.pending == None
    && s.rx == R.Receiver(n + 1, 0, map[])
  }

  /** All that was handed over has been served. */
  ghost predicate Quiet(s: System, n: int) {
    Inv(s) && Rests(s, n)
  }

  lemma QuietParts(s: System, n: int)
    requires Quiet(s, n)
    ensures Inv(s) && Rests(s, n)
  {
  }

  lemma CanStep(s: System)
    requires Inv(s)
    ensures W.Settled(s.client.tx) && R.Valid(s.rx)
  {
  }

  lemma RunOn(actions: seq<Action>, s: System, a: Action, t: System)
    requires Run(actions) == Some(s) && Inv(s) && Step(s, a) == Some(t)
    ensures Run(actions + [a]) == Some(t) && Inv(t)
  {
    hide Step, Inv;
    assert (actions + [a])[..|actions + [a]| - 1] == actions;
    assert KeptStep(s, a) == Some(t);
  }

  function Handed(s: System, chunk: seq<byte>): System {
    s.(client := Client(s.client.tx, Some(chunk), s.client.handed + chunk))
  }

  function Offered(s: System, chunk: seq<byte>): System
    requires |s.client.tx.slots| == W.SLOTS
  {
    s.(client := Client(Holding(s.client.tx, chunk, 0, s.client.tx.slots[0]), None, s.client.handed + chunk))
  }

  function Sent(s: System, n: int, chunk: seq<byte>): System
    requires |s.client.tx.slots| == W.SLOTS
  {
    s.(client := Client(Holding(s.client.tx, chunk, 1, W.Slot(n, true)), None, s.client.handed + chunk),
       net := s.net + {W.Stamped(n, chunk)})
  }

  function Arrived(s: System, n: int, chunk: seq<byte>): System
    requires |s.client.tx.slots| == W.SLOTS
  {
    Sent(s, n, chunk).(rx := R.Receiver(n, 0, map[n := chunk]), acks := s.acks + {n})
  }

  function Acked(s: System, n: int, chunk: seq<byte>): System
    requires |s.client.tx.slots| == W.SLOTS
  {
    Arrived(s, n, chunk).(client := Client(Done(s.client.tx, chunk), None, s.client.handed + chunk))
  }

  function Over(s: System, n: int, chunk: seq<byte>): System
    requires |s.client.tx.slots| == W.SLOTS
  {
    Acked(s, n, chunk).(rx := R.Receiver(n + 1, 0, map[]), served := s.served + chunk)
  }

  lemma HandsOver(s: System, n: int, chunk: seq<byte>)
    requires Rests(s, n - 1) && |chunk| == PKT && R.Valid(s.rx)
    ensures Step(s, Local(Hand(chunk))) == Some(Handed(s, chunk))
  {
    assert s.net + AsSet([]) == s.net;
  }

  lemma OffersOn(s: System, n: int, chunk: seq<byte>)
    requires Rests(s, n - 1) && |chunk| == PKT && R.Valid(s.rx)
    ensures Step(Handed(s, chunk), Local(Offer)) == Some(Offered(s, chunk))
  {
    Adds(s.client.tx, chunk);
    assert s.net + AsSet([]) == s.net;
  }

  lemma SendsOff(s: System, n: int, chunk: seq<byte>)
    requires Rests(s, n - 1) && |chunk| == PKT && R.Valid(s.rx)
    ensures W.Settled(Offered(s, chunk).client.tx)
    ensures Step(Offered(s, chunk), Local(Send)) == Some(Sent(s, n, chunk))
  {
    Sends(s.client.tx, chunk);
    assert AsSet([W.Stamped(n, chunk)]) == {W.Stamped(n, chunk)};
  }

  lemma Arrives(s: System, n: int, chunk: seq<byte>)
    requires Rests(s, n - 1) && |chunk| == PKT && 1 <= n < MAXSEQ
    requires R.Valid(s.rx) && W.Settled(Sent(s, n, chunk).client.tx)
    ensures Step(Sent(s, n, chunk), Arrive(W.Stamped(n, chunk))) == Some(Arrived(s, n, chunk))
  {
    assert s.rx == R.Receiver(n, 0, map[]);
    hide Rests, Idle, Deliver;
    Stores(n, chunk);
  }

  lemma AcksBack(s: System, n: int, chunk: seq<byte>)
    requires Rests(s, n - 1) && |chunk| == PKT && 1 <= n < MAXSEQ
    requires R.Valid(Arrived(s, n, chunk).rx)
    ensures Step(Arrived(s, n, chunk), Local(Ack(n))) == Some(Acked(s, n, chunk))
  {
    Acknowledges(s.client.tx, chunk);
    var t := Arrived(s, n, chunk);
    assert t.net + AsSet([]) == t.net;
    assert t.client.tx == Holding(s.client.tx, chunk, 1, W.Slot(s.client.tx.base + 1, true)) && s.client.tx.base + 1 == n;
    assert W.Settled(t.client.tx) && R.Valid(t.rx) && n in t.acks;
    hide Rests, Idle, Holding, Done, W.Settled, R.Valid, W.RecvAck, AsSet;
  }

  lemma ReadsOut(s: System, n: int, chunk: seq<byte>)
    requires Rests(s, n - 1) && |chunk| == PKT && 1 <= n < MAXSEQ
    requires W.Settled(Acked(s, n, chunk).client.tx)
    ensures Step(Acked(s, n, chunk), Read(PKT)) == Some(Over(s, n, chunk))
  {
    Serves(n, chunk);
    assert W.Settled(Acked(s, n, chunk).client.tx);
    hide Rests, W.Settled, R.Valid, R.Read;
  }

  lemma QuietAgain(s: System, n: int, chunk: seq<byte>)
    requires Quiet(s, n - 1) && |chunk| == PKT && Inv(Over(s, n, chunk))
    ensures Quiet(Over(s, n, chunk), n)
  {
    Acknowledges(s.client.tx, chunk);
  }

  lemma GoesOut(actions: seq<Action>, s: System, n: int, chunk: seq<byte>)
    requires Run(actions) == Some(s) && Inv(s) && Rests(s, n - 1) && |chunk| == PKT
    ensures Run(actions + [Local(Hand(chunk)), Local(Offer), Local(Send)]) == Some(Sent(s, n, chunk))
    ensures Inv(Sent(s, n, chunk))
  {
    var as1 := actions + [Local(Hand(chunk))];
    var as2 := as1 + [Local(Offer)];
    assert actions + [Local(Hand(chunk)), Local(Offer), Local(Send)] == as2 + [Local(Send)];
    CanStep(s);
    assert |s.client.tx.slots| == W.SLOTS;
    hide Inv, Rests, Idle, W.Settled, W.Shaped, R.Valid, Run, Step, Handed, Offered, Sent;
    HandsOver(s, n, chunk);
    RunOn(actions, s, Local(Hand(chunk)), Handed(s, chunk));
    OffersOn(s, n, chunk);
    RunOn(as1, Handed(s, chunk), Local(Offer), Offered(s, chunk));
    SendsOff(s, n, chunk);
    RunOn(as2, Offered(s, chunk), Local(Send), Sent(s, n, chunk));
  }

  /** One round more. */
  lemma RoundServes(actions: seq<Action>, s: System, n: int, chunk: seq<byte>)
    requires Run(actions) == Some(s) && Quiet(s, n - 1) && |chunk| == PKT && 1 <= n < MAXSEQ
    ensures Run(actions + Round(n, chunk)) == Some(Over(s, n, chunk)) && Quiet(Over(s, n, chunk), n)
  {
    var as3 := actions + [Local(Hand(chunk)), Local(Offer), Local(Send)];
    var as4 := as3 + [Arrive(W.Stamped(n, chunk))];
    var as5 := as4 + [Local(Ack(n))];
    assert actions + Round(n, chunk) == as5 + [Read(PKT)];
    assert Inv(s) && Rests(s, n - 1) && |s.client.tx.slots| == W.SLOTS;
    hide Quiet, Inv, Rests, Idle, W.Settled, W.Shaped, R.Valid, Run, Step, Sent, Arrived, Acked, Over, W.Stamped;
    CanStep(s);
    GoesOut(actions, s, n, chunk);
    CanStep(Sent(s, n, chunk));
    Arrives(s, n, chunk);
    RunOn(as3, Sent(s, n, chunk), Arrive(W.Stamped(n, chunk)), Arrived(s, n, chunk));
    CanStep(Arrived(s, n, chunk));
    AcksBack(s, n, chunk);
    RunOn(as4, Arrived(s, n, chunk), Local(Ack(n)), Acked(s, n, chunk));
    CanStep(Acked(s, n, chunk));
    ReadsOut(s, n, chunk);
    RunOn(as5, Acked(s, n, chunk), Read(PKT), Over(s, n, chunk));
    QuietAgain(s, n, chunk);
  }

  lemma QuietServed(s: System, n: int)
    requires Quiet(s, n)
    ensures s.served == s.client.handed == s.client.tx.added
  {
    assert FullUpTo(s.client.tx, n);
  }

  lemma QuietStart()
    ensures Run([]) == Some(START) && Quiet(START, 0)
  {
  }

  /** The round trip: chunk after chunk, however many and however often around both rings,
      the application is served exactly what was handed over, and all of it is released. */
  lemma {:induction false} FaultlessRoundTrip(chunks: seq<seq<byte>>)
    requires |chunks| < MAXSEQ && forall k | 0 <= k < |chunks| :: |chunks[k]| == PKT
    ensures Run(Rounds(chunks)).Some?
    ensures var s := Run(Rounds(chunks)).value;
      && Quiet(s, |chunks|)
      && s.served == s.client.handed == Concat(chunks)
    decreases |chunks|
  {
    hide Quiet, Run, Round;
    if chunks == [] {
      QuietStart();
    } else {
      var before, n := chunks[..|chunks| - 1], |chunks|;
      FaultlessRoundTrip(before);
      var s := Run(Rounds(before)).value;
      RoundServes(Rounds(before), s, n, chunks[n - 1]);
      QuietServed(Over(s, n, chunks[n - 1]), n);
    }
  }

  // ----- acknowledgements that come again

  /** After k rounds the first slot keeps the number k, and no other slot a number. */
  ghost predicate OneSlot(s: System, k: int) {
    && |s.client.tx.slots| == W.SLOTS
    && s.client.tx.slots[0].bsn == k
    && (forall j | 1 <= j < W.SLOTS :: s.client.tx.slots[j].bsn == 0)
    && (forall n | 1 <= n <= k :: n in s.acks)
  }

  lemma {:induction false} RoundsLeaveOneSlot(chunks: seq<seq<byte>>)
    requires |chunks| < MAXSEQ && forall k | 0 <= k < |chunks| :: |chunks[k]| == PKT
    ensures Run(Rounds(chunks)).Some? && OneSlot(Run(Rounds(chunks)).value, |chunks|)
    decreases |chunks|
  {
    if chunks == [] {
      hide Run, Inv, Rests;
      StartSlots();
    } else {
      var before, n := chunks[..|chunks| - 1], |chunks|;
      RoundsLeaveOneSlot(before);
      FaultlessRoundTrip(before);
      var s := Run(Rounds(before)).value;
      hide Run, Round, Inv, Quiet, OneSlot;
      RoundServes(Rounds(before), s, n, chunks[n - 1]);
      OverSlots(s, n, chunks[n - 1]);
    }
  }

  lemma StartSlots()
    ensures Run([]) == Some(START) && OneSlot(START, 0)
  {
  }

  lemma OverSlots(s: System, n: int, chunk: seq<byte>)
    requires Quiet(s, n - 1) && OneSlot(s, n - 1)
    ensures OneSlot(Over(s, n, chunk), n)
  {
  }

  /** After any number of rounds without a fault, every acknowledgement but the last one's,
      come again, finds no slot with its number: the scan at cbuffer.c:491 runs past the
      table. */
  lemma OldAcksOverrun(chunks: seq<seq<byte>>)
    requires |chunks| < MAXSEQ && forall k | 0 <= k < |chunks| :: |chunks[k]| == PKT
    ensures Run(Rounds(chunks)).Some?
    ensures var s := Run(Rounds(chunks)).value;
      forall n | 1 <= n < |chunks| :: n in s.acks && |s.client.tx.slots| == W.SLOTS && W.FirstWith(s.client.tx.slots, n, 0) == W.SLOTS
  {
    hide Run, Inv;
    RoundsLeaveOneSlot(chunks);
  }
}
