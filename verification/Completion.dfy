/** When a transfer can still be completed: from the state after any run of full chunks,
    whatever was lost, repeated or damaged, exactly when no packet is stuck. */
module Completion {
  import opened Parameters
  import opened Wrappers
  import opened Protocol
  import opened Stuck
  import W = Window
  import Slots = WindowSlots
  import Chunks = WindowChunks
  import Table = WindowAcks
  import R = Reassembly
  import Runs = ReassemblyRuns
  import Delivery

  // ----- runs of full chunks

  ghost predicate FullHand(a: Action) {
    a.Local? && a.action.Hand? ==> |a.action.chunk| == PKT
  }

  ghost predicate Full(tx: W.Sender) {
    && W.Settled(tx) && Slots.OneToOne(tx) && Chunks.FullChunks(tx)
    && |tx.added| % PKT == 0
  }

  ghost predicate FullClient(c: Client) {
    Full(c.tx) && (c.pending.Some? ==> |c.pending.value| == PKT)
  }

  lemma AddDataIsFull(s: W.Sender, chunk: seq<byte>)
    requires Full(s) && |chunk| == PKT
    ensures Full(W.AddData(s, chunk).0)
  {
    hide W.Settled, W.Shaped, W.AddData, Chunks.FullChunks, Slots.OneToOne;
    W.SettledIsShaped(s);
    W.AddDataSettles(s, chunk);
    Slots.AddDataCorresponds(s, chunk);
    Chunks.AddDataFull(s, chunk);
  }

  lemma RecvAckIsFull(s: W.Sender, n: int)
    requires Full(s)
    ensures Full(W.RecvAck(s, n).0)
  {
    hide W.Settled, W.Shaped, W.RecvAck, Chunks.FullChunks, Slots.OneToOne;
    W.SettledIsShaped(s);
    W.RecvAckSettles(s, n);
    Slots.RecvAckCorresponds(s, n);
    Chunks.RecvAckFull(s, n);
  }

  lemma ExpireIsFull(s: W.Sender, n: int)
    requires Full(s)
    ensures Full(W.TimerExpire(s, n))
  {
    W.TimerExpireSettles(s, n);
    Slots.TimerExpireCorresponds(s, n);
  }

  lemma SendIsFull(s: W.Sender)
    requires Full(s)
    ensures W.SendWindow(s).Some? && Full(W.SendWindow(s).value.0)
  {
    Chunks.FullChunksAlwaysSend(s);
    W.SendSettles(s);
    W.SendFromSettles(s, 0);
    hide W.Settled, W.SendWindow, Slots.OneToOne;
  }

  lemma ClientStepIsFull(c: Client, a: ClientAction)
    requires FullClient(c) && ClientStep(c, a).Some?
    requires a.Hand? ==> |a.chunk| == PKT
    ensures FullClient(ClientStep(c, a).value.0)
  {
    assert W.Settled(c.tx);
    hide Full, W.Settled;
    match a
    case Hand(chunk) =>
    case Offer => AddDataIsFull(c.tx, c.pending.value);
    case Ack(n) => RecvAckIsFull(c.tx, n);
    case Expire(n) => ExpireIsFull(c.tx, n);
    case Send => SendIsFull(c.tx);
  }

  lemma StepIsFull(s: System, a: Action)
    requires Inv(s) && FullClient(s.client) && FullHand(a) && Step(s, a).Some?
    ensures FullClient(Step(s, a).value.client)
  {
    assert W.Settled(s.client.tx) && R.Valid(s.rx);
    hide Inv, FullClient, W.Settled, R.Valid, ClientStep, R.Read, Deliver;
    if a.Local? {
      ClientStepIsFull(s.client, a.action);
    }
  }

  lemma {:induction false} RunIsFull(actions: seq<Action>)
    requires Run(actions).Some? && forall a | a in actions :: FullHand(a)
    ensures FullClient(Run(actions).value.client)
    decreases |actions|
  {
    hide Inv, Step, FullHand;
    if actions == [] {
      hide Run;
      StartIsFull();
    } else {
      RunIsFull(actions[..|actions| - 1]);
      StepIsFull(Run(actions[..|actions| - 1]).value, actions[|actions| - 1]);
    }
  }

  lemma StartIsFull()
    ensures Run([]) == Some(START) && FullClient(START.client)
  {
  }

  /** All packets are full. */
  lemma PacketIsFull(s: W.Sender, n: int)
    requires Full(s) && 1 <= n < |s.cuts|
    ensures s.cuts[n] == n * PKT <= |s.added| && |W.Packet(s, n)| == PKT
  {
    var last := |s.cuts| - 1;
    W.CutsAscend(s, n, last);
    W.CutsAscend(s, last - 1, last);
    assert s.cuts[last - 1] == (last - 1) * PKT;
    assert s.cuts[last] == last * PKT by {
      if s.cuts[last] == |s.added| { MultipleBetween(|s.added|, last); }
    }
    assert s.cuts[n - 1] == (n - 1) * PKT;
    PacketSlice(s, n);
  }

  lemma MultipleBetween(x: int, k: int)
    requires x % PKT == 0 && (k - 1) * PKT < x <= k * PKT
    ensures x == k * PKT
  {
  }

  // ----- single steps

  /** Nothing new is handed over, and an acknowledgement is taken only while its number is
      in the sender's table. */
  ghost predicate TameStep(before: seq<Action>, a: Action) {
    a.Local? ==>
      && !a.action.Hand?
      && (a.action.Ack? ==> Run(before).Some? && Table.Found(Run(before).value.client.tx, a.action.number))
  }

  ghost predicate Tame(actions: seq<Action>, more: seq<Action>) {
    forall k | 0 <= k < |more| :: TameStep(actions + more[..k], more[k])
  }

  lemma TameNone(actions: seq<Action>)
    ensures Tame(actions, [])
  {
  }

  lemma TameOne(actions: seq<Action>, a: Action)
    requires TameStep(actions, a)
    ensures Tame(actions, [a])
  {
    assert actions + [a][..0] == actions;
    hide TameStep;
  }

  lemma TameBoth(actions: seq<Action>, first: seq<Action>, rest: seq<Action>)
    requires Tame(actions, first) && Tame(actions + first, rest)
    ensures Tame(actions, first + rest)
  {
    hide TameStep;
    forall k | 0 <= k < |first + rest|
      ensures TameStep(actions + (first + rest)[..k], (first + rest)[k])
    {
      if k < |first| {
        assert (first + rest)[..k] == first[..k];
      } else {
        assert actions + (first + rest)[..k] == actions + first + rest[..k - |first|];
      }
    }
  }

  ghost predicate Plain(a: Action) {
    a.Local? ==> !a.action.Hand? && !a.action.Ack?
  }

  lemma PlainIsTame(actions: seq<Action>, more: seq<Action>)
    requires forall a | a in more :: Plain(a)
    ensures Tame(actions, more)
  {
    forall k | 0 <= k < |more|
      ensures TameStep(actions + more[..k], more[k])
    {
      assert Plain(more[k]);
    }
  }

  /** The state after the actions, all of whose chunks are full. */
  ghost predicate At(actions: seq<Action>, s: System) {
    Run(actions) == Some(s) && Inv(s) && FullClient(s.client)
  }

  lemma On(actions: seq<Action>, s: System, a: Action, t: System)
    requires At(actions, s) && FullHand(a)
    requires W.Settled(s.client.tx) && R.Valid(s.rx) && Step(s, a) == Some(t)
    ensures At(actions + [a], t)
  {
    hide Inv, FullClient, Step, Run, W.Settled, R.Valid, FullHand;
    StepIsFull(s, a);
    Delivery.RunOn(actions, s, a, t);
  }

  lemma {:induction false} SendsAll(s: W.Sender, i: int, k: int)
    requires W.Shaped(s) && 0 <= i <= k < |s.acks| && s.acks[k] == 0 && W.SendFrom(s, i).Some?
    ensures 1 <= s.base + 1 + k < |s.cuts|
    ensures W.Stamped(s.base + 1 + k, W.Packet(s, s.base + 1 + k)) in W.SendFrom(s, i).value.1
    decreases |s.acks| - i
  {
    hide W.SendFrom, W.Packet, W.Stamped, W.Shaped;
    W.SendFromNext(s, i);
    if s.acks[i] > 0 {
      SendsAll(s, i + 1, k);
    } else if i < k {
      var u := W.SendOne(s, i);
      SendsAll(u, i + 1, k);
      W.SamePacket(s, u, s.base + 1 + k);
    }
  }

  /** The same packets are outstanding, and the same of them wait. */
  ghost predicate SameWaiting(s: W.Sender, t: W.Sender) {
    && t.added == s.added && t.cuts == s.cuts && t.base == s.base
    && forall m :: Slots.Waiting(t, m) <==> Slots.Waiting(s, m)
  }

  lemma ExpireWaits(s: W.Sender, n: int)
    requires W.Settled(s) && Slots.Waiting(s, n)
    ensures SameWaiting(s, W.TimerExpire(s, n))
    ensures W.TimerExpire(s, n).acks == s.acks[n - 1 - s.base := 0]
  {
  }

  lemma SendWaits(s: W.Sender)
    requires W.Settled(s) && W.SendWindow(s).Some?
    ensures SameWaiting(s, W.SendWindow(s).value.0)
    ensures forall m | Slots.Waiting(W.SendWindow(s).value.0, m) :: Slots.AckOf(W.SendWindow(s).value.0, m) == 1
  {
    W.SendFromSettles(s, 0);
    var t := W.SendWindow(s).value.0;
    forall m
      ensures Slots.Waiting(t, m) <==> Slots.Waiting(s, m)
    {
      assert W.Outstanding(s, m) <==> W.Outstanding(t, m);
    }
  }

  /** The two states differ in the sender's marks and slots, and in the network, alone. */
  ghost predicate SameBut(s: System, t: System) {
    && SameWaiting(s.client.tx, t.client.tx)
    && t.client.pending == s.client.pending && t.client.handed == s.client.handed
    && t.rx == s.rx && t.acks == s.acks && t.served == s.served
  }

  lemma Parts(actions: seq<Action>, s: System)
    requires At(actions, s)
    ensures Inv(s) && FullClient(s.client) && Full(s.client.tx)
    ensures W.Settled(s.client.tx) && R.Valid(s.rx)
  {
  }

  lemma Expires(actions: seq<Action>, s: System, n: int) returns (t: System)
    requires At(actions, s) && Slots.Waiting(s.client.tx, n)
    ensures At(actions + [Local(Expire(n))], t) && SameBut(s, t)
    ensures W.Outstanding(t.client.tx, n) && Slots.AckOf(t.client.tx, n) == 0
  {
    hide At, Inv, FullClient, Full, Run, W.Settled, R.Valid;
    Parts(actions, s);
    var c := s.client;
    t := s.(client := c.(tx := W.TimerExpire(c.tx, n)));
    ExpireWaits(c.tx, n);
    assert s.net + AsSet([]) == s.net;
    assert Step(s, Local(Expire(n))) == Some(t);
    assert W.Outstanding(t.client.tx, n) && Slots.AckOf(t.client.tx, n) == 0;
    hide Step, W.TimerExpire;
    On(actions, s, Local(Expire(n)), t);
  }

  ghost predicate Timed(s: W.Sender, n: int) {
    W.Outstanding(s, n) && Slots.AckOf(s, n) == 1
  }

  lemma SendsTx(s: W.Sender, n: int)
    requires Full(s) && W.Outstanding(s, n) && Slots.AckOf(s, n) == 0
    ensures W.SendWindow(s).Some? && SameWaiting(s, W.SendWindow(s).value.0)
    ensures Timed(W.SendWindow(s).value.0, n)
    ensures 1 <= n < |s.cuts| && W.Stamped(n, W.Packet(s, n)) in W.SendWindow(s).value.1
  {
    SendIsFull(s);
    SendWaits(s);
    assert Slots.Waiting(s, n);
    SendsAll(s, 0, n - 1 - s.base);
    hide W.Settled, W.SendFrom, Slots.OneToOne, Chunks.FullChunks, W.Packet, SameWaiting;
  }

  lemma Sends(actions: seq<Action>, s: System, n: int) returns (t: System)
    requires At(actions, s) && W.Outstanding(s.client.tx, n) && Slots.AckOf(s.client.tx, n) == 0
    ensures At(actions + [Local(Send)], t) && SameBut(s, t) && Timed(t.client.tx, n)
    ensures W.Shaped(s.client.tx) && 1 <= n < |s.client.tx.cuts|
    ensures W.Stamped(n, W.Packet(s.client.tx, n)) in t.net
  {
    hide At, Inv, FullClient, Full, Run, R.Valid, W.Shaped, SameWaiting, Timed, W.SendWindow, W.Packet, W.Stamped;
    Parts(actions, s);
    var c := s.client;
    SendsTx(c.tx, n);
    var (tx, sent) := W.SendWindow(c.tx).value;
    t := s.(client := c.(tx := tx), net := s.net + AsSet(sent));
    hide W.Settled;
    assert Step(s, Local(Send)) == Some(t);
    hide Step;
    On(actions, s, Local(Send), t);
  }

  lemma Delivers(actions: seq<Action>, s: System, d: W.Datagram) returns (t: System)
    requires At(actions, s) && d in s.net && |d.data| == PKT && d.packnum < MAXSEQ && d == W.Stamped(d.packnum, d.data)
    ensures At(actions + [Arrive(d)], t)
    ensures t.client == s.client && t.served == s.served
    ensures var (rx, ok) := R.Insert(s.rx, d.packnum, d.data);
      t.rx == rx && t.acks == if ok then s.acks + {d.packnum} else s.acks
  {
    hide At, Inv, FullClient, Run, R.Valid, R.Insert, W.Settled;
    Parts(actions, s);
    var (rx, ok) := Deliver(s.rx, d);
    t := s.(rx := rx, acks := if ok then s.acks + {d.packnum} else s.acks);
    assert Step(s, Arrive(d)) == Some(t);
    hide Step;
    On(actions, s, Arrive(d), t);
  }

  /** A waiting packet expires, goes out and arrives. */
  lemma Resend(actions: seq<Action>, s: System, n: int) returns (more: seq<Action>, t: System)
    requires At(actions, s) && Slots.Waiting(s.client.tx, n) && n < MAXSEQ
    ensures At(actions + more, t) && Tame(actions, more)
    ensures SameWaiting(s.client.tx, t.client.tx)
    ensures t.client.pending == s.client.pending && t.client.handed == s.client.handed && t.served == s.served
    ensures W.Shaped(s.client.tx) && 1 <= n < |s.client.tx.cuts|
    ensures var (rx, ok) := R.Insert(s.rx, n, W.Packet(s.client.tx, n));
      t.rx == rx && t.acks == if ok then s.acks + {n} else s.acks
  {
    hide At, SameWaiting, R.Insert, W.Shaped, W.Packet, Inv, FullClient, Slots.Waiting, Tame;
    var s1 := Expires(actions, s, n);
    var s2 := Sends(actions + [Local(Expire(n))], s1, n);
    Parts(actions, s);
    Parts(actions + [Local(Expire(n))], s1);
    StillPacket(s, s1, n);
    var d := W.Stamped(n, W.Packet(s.client.tx, n));
    t := Delivers(actions + [Local(Expire(n))] + [Local(Send)], s2, d);
    SameTrans(s.client.tx, s1.client.tx, s2.client.tx);
    more := [Local(Expire(n)), Local(Send), Arrive(d)];
    PlainIsTame(actions, more);
    assert actions + [Local(Expire(n))] + [Local(Send)] + [Arrive(d)] == actions + more;
  }

  lemma StillPacket(s: System, t: System, n: int)
    requires Inv(s) && FullClient(s.client) && Inv(t) && SameBut(s, t) && Slots.Waiting(s.client.tx, n)
    ensures W.Shaped(s.client.tx) && W.Shaped(t.client.tx) && 1 <= n < |s.client.tx.cuts| == |t.client.tx.cuts|
    ensures W.Packet(t.client.tx, n) == W.Packet(s.client.tx, n) && |W.Packet(s.client.tx, n)| == PKT
  {
    assert W.Shaped(s.client.tx) && W.Shaped(t.client.tx);
    W.SamePacket(s.client.tx, t.client.tx, n);
    PacketIsFull(s.client.tx, n);
  }

  lemma SameTrans(s: W.Sender, t: W.Sender, u: W.Sender)
    requires SameWaiting(s, t) && SameWaiting(t, u)
    ensures SameWaiting(s, u)
  {
  }

  // ----- every waiting packet the receiver has is acknowledged

  /** A waiting packet the receiver has is acknowledged in the network. */
  ghost predicate AllAcked(s: System) {
    forall n | Slots.Waiting(s.client.tx, n) && Received(s.rx, n) :: n in s.acks
  }

  ghost predicate NoneStuck(s: System) {
    forall n :: !StuckAt(s, n)
  }

  /** The numbers of outstanding packets without an acknowledgement in the network. */
  ghost function Missing(s: System): set<int> {
    Chunks.Interval(s.client.tx.base + 1, s.client.tx.base + |s.client.tx.acks| + 1) - s.acks
  }

  ghost predicate Small(s: System) {
    |s.client.handed| < MAXSEQ * PKT
  }

  lemma NumberSmall(actions: seq<Action>, s: System, n: int)
    requires At(actions, s) && Small(s) && 1 <= n < |s.client.tx.cuts|
    ensures n < MAXSEQ
  {
    PacketIsFull(s.client.tx, n);
    assert |s.client.tx.added| <= |s.client.handed|;
  }

  lemma SameOutstanding(s: System, t: System)
    requires SameWaiting(s.client.tx, t.client.tx) && W.Settled(s.client.tx) && W.Settled(t.client.tx)
    ensures |t.client.tx.acks| == |s.client.tx.acks|
  {
  }

  /** A packet that is received but not silent is recognised when it comes again. */
  lemma NotSilent(r: R.Receiver, n: int, packet: seq<byte>)
    requires Received(r, n) && !Runs.Silent(r, n)
    ensures R.Insert(r, n, packet) == (r, true)
  {
  }

  /** While no packet is stuck, resending brings every lost acknowledgement back. */
  lemma {:induction false} Recover(actions: seq<Action>, s: System) returns (more: seq<Action>, t: System)
    requires At(actions, s) && Small(s) && NoneStuck(s)
    ensures At(actions + more, t) && Tame(actions, more) && AllAcked(t)
    ensures t.client.handed == s.client.handed
    decreases |Missing(s)|
  {
    hide At, Small, NoneStuck, Slots.Waiting, Received, Missing, Tame;
    if n :| Slots.Waiting(s.client.tx, n) && Received(s.rx, n) && n !in s.acks {
      var first, s1 := RecoverOne(actions, s, n);
      var rest;
      rest, t := Recover(actions + first, s1);
      more := first + rest;
      assert actions + first + rest == actions + more;
      TameBoth(actions, first, rest);
    } else {
      more, t := [], s;
      TameNone(actions);
      assert actions + [] == actions;
    }
  }

  lemma RecoverOne(actions: seq<Action>, s: System, n: int) returns (more: seq<Action>, t: System)
    requires At(actions, s) && Small(s) && NoneStuck(s)
    requires Slots.Waiting(s.client.tx, n) && Received(s.rx, n) && n !in s.acks
    ensures At(actions + more, t) && Tame(actions, more) && Small(t) && NoneStuck(t)
    ensures t.client.handed == s.client.handed && |Missing(t)| < |Missing(s)|
  {
    assert !StuckAt(s, n);
    assert n in Missing(s);
    hide At, R.Insert, W.Shaped, W.Packet, Runs.Silent, Received, Tame;
    Parts(actions, s);
    assert 1 <= n < |s.client.tx.cuts|;
    NumberSmall(actions, s, n);
    more, t := Resend(actions, s, n);
    NotSilent(s.rx, n, W.Packet(s.client.tx, n));
    Parts(actions + more, t);
    SameOutstanding(s, t);
    assert Missing(t) == Missing(s) - {n};
    forall m
      ensures !StuckAt(t, m)
    {
      assert !StuckAt(s, m);
    }
  }

  // ----- the way to the end

  /** Everything handed over is served and released. */
  ghost predicate Complete(s: System) {
    s.served == s.client.handed && s.client.tx.base + 1 == |s.client.tx.cuts|
  }

  /** The front packet is acknowledged. */
  lemma AckMoves(s: W.Sender)
    requires W.Settled(s) && s.acks != []
    ensures 0 <= s.base && Table.Moves(s, W.RecvAck(s, s.base + 1).0)
    ensures s.base < W.RecvAck(s, s.base + 1).0.base
    ensures W.RecvAck(s, s.base + 1).0.added == s.added
  {
    hide W.Settled, W.Shaped, W.CheckWindow, W.RecvAck, W.SetAck, W.FreeSlot, Slots.Waiting;
    var n := s.base + 1;
    W.SettledIsShaped(s);
    W.RecvAckSettles(s, n);
    W.RecvAckParts(s, n);
    var u := W.SetAck(W.FreeSlot(s, n), n, 2);
    Table.AckedWaits(s, u, n);
    Table.CheckWindowMoves(u);
  }

  lemma OfferMoves(s: W.Sender, chunk: seq<byte>)
    requires W.Settled(s) && s.acks == [] && |chunk| <= PKT
    ensures W.AddData(s, chunk).1 && W.AddData(s, chunk).0.base == s.base && Table.Moves(s, W.AddData(s, chunk).0)
  {
    assert W.Covered(s) == 0 && W.Held(s) == 0;
    var a := W.Appended(s, chunk);
    assert W.Shaped(a) && W.Covered(a) <= W.Reach(a) && W.Release(a) == a;
    hide W.Extend, W.Release, W.Settled, W.Shaped, Table.Moves;
    Table.AddDataMoves(s, chunk);
    W.ExtendShaped(a);
  }

  /** The receiver has no packet that is not cut. */
  lemma ReceivedIsCut(s: System, n: int)
    requires Inv(s) && Received(s.rx, n)
    ensures 1 <= n < |s.client.tx.cuts|
  {
    if n < s.rx.dstart { assert FullUpTo(s.client.tx, s.rx.dstart - 1); }
  }

  lemma MovedIsAcked(s: System, t: System)
    requires Inv(s) && AllAcked(s) && Table.Moves(s.client.tx, t.client.tx) && t.rx == s.rx && t.acks == s.acks
    ensures AllAcked(t)
  {
    forall n | Slots.Waiting(t.client.tx, n) && Received(t.rx, n)
      ensures n in t.acks
    {
      ReceivedIsCut(s, n);
    }
  }

  /** A waiting packet is sent, if it is to be sent: its number is in the table. */
  lemma Times(actions: seq<Action>, s: System, n: int) returns (more: seq<Action>, t: System)
    requires At(actions, s) && Slots.Waiting(s.client.tx, n)
    ensures At(actions + more, t) && Tame(actions, more) && SameBut(s, t)
    ensures Table.Found(t.client.tx, n)
  {
    hide At, Tame, SameBut, Inv, FullClient, Table.Found, W.Settled, R.Valid;
    Parts(actions, s);
    if Slots.AckOf(s.client.tx, n) == 0 {
      more := [Local(Send)];
      t := Sends(actions, s, n);
      PlainIsTame(actions, more);
      Parts(actions + more, t);
    } else {
      more, t := [], s;
      assert actions + [] == actions;
      TameNone(actions);
      SameButSame(s);
      AckRange(s.client.tx, n);
    }
    Table.TimedIsFound(t.client.tx, n);
  }

  lemma SameButSame(s: System)
    ensures SameBut(s, s)
  {
  }

  lemma AckRange(s: W.Sender, n: int)
    requires W.Settled(s) && W.Outstanding(s, n)
    ensures 0 <= Slots.AckOf(s, n) <= 2
  {
  }

  /** The front packet's acknowledgement is taken, while its number is in the table. */
  lemma Acks(actions: seq<Action>, s: System) returns (more: seq<Action>, t: System)
    requires At(actions, s) && AllAcked(s) && s.client.tx.acks != [] && s.client.tx.base + 1 < s.rx.dstart
    ensures Tame(actions, more) && At(actions + more, t) && AllAcked(t)
    ensures s.client.tx.base < t.client.tx.base
    ensures t.rx == s.rx && t.served == s.served && t.client.handed == s.client.handed && t.client.pending == s.client.pending
  {
    hide At, Inv, FullClient, Full, R.Valid, Tame, AllAcked, W.Settled, Slots.Waiting, Table.Found, SameWaiting;
    Parts(actions, s);
    FrontWaits(s);
    var first, u := Times(actions, s, s.client.tx.base + 1);
    Parts(actions + first, u);
    SameFront(s, u);
    var a;
    a, t := AcksFound(actions + first, u);
    TameBoth(actions, first, [a]);
    more := first + [a];
    assert actions + first + [a] == actions + more;
  }

  lemma SameFront(s: System, t: System)
    requires SameBut(s, t) && AllAcked(s) && W.Settled(s.client.tx) && W.Settled(t.client.tx)
    ensures AllAcked(t) && t.client.tx.base == s.client.tx.base
    ensures t.client.tx.acks == [] <==> s.client.tx.acks == []
  {
    SameOutstanding(s, t);
  }

  lemma AcksFound(actions: seq<Action>, s: System) returns (a: Action, t: System)
    requires At(actions, s) && AllAcked(s) && s.client.tx.acks != [] && s.client.tx.base + 1 < s.rx.dstart
    requires Table.Found(s.client.tx, s.client.tx.base + 1)
    ensures Tame(actions, [a]) && At(actions + [a], t) && AllAcked(t)
    ensures s.client.tx.base < t.client.tx.base
    ensures t.rx == s.rx && t.served == s.served && t.client.handed == s.client.handed && t.client.pending == s.client.pending
  {
    hide At, Inv, FullClient, Run, R.Valid, Full, W.RecvAck, Table.Moves, Table.Found, Tame;
    Parts(actions, s);
    var c, n := s.client, s.client.tx.base + 1;
    AckMoves(c.tx);
    FrontIsAcked(s);
    a, t := Local(Ack(n)), s.(client := c.(tx := W.RecvAck(c.tx, n).0));
    assert s.net + AsSet([]) == s.net;
    hide W.Settled, AllAcked;
    AtRun(actions, s);
    TameOne(actions, a);
    assert Step(s, a) == Some(t);
    hide Step;
    On(actions, s, a, t);
    MovedIsAcked(s, t);
  }

  lemma FrontIsAcked(s: System)
    requires W.Settled(s.client.tx) && AllAcked(s) && s.client.tx.acks != [] && s.client.tx.base + 1 < s.rx.dstart
    ensures s.client.tx.base + 1 in s.acks
  {
    assert Slots.Waiting(s.client.tx, s.client.tx.base + 1) && Received(s.rx, s.client.tx.base + 1);
  }

  lemma Offers(actions: seq<Action>, s: System) returns (a: Action, t: System)
    requires At(actions, s) && AllAcked(s) && s.client.tx.acks == [] && s.client.pending.Some?
    ensures Plain(a) && At(actions + [a], t) && AllAcked(t)
    ensures t.client.tx.base == s.client.tx.base
    ensures t.rx == s.rx && t.served == s.served && t.client.handed == s.client.handed && t.client.pending == None
  {
    hide At, Inv, Run, R.Valid, Full, W.AddData, Table.Moves;
    Parts(actions, s);
    var c := s.client;
    OfferMoves(c.tx, c.pending.value);
    a, t := Local(Offer), s.(client := c.(tx := W.AddData(c.tx, c.pending.value).0, pending := None));
    assert s.net + AsSet([]) == s.net;
    hide W.Settled, AllAcked, FullClient;
    assert Step(s, a) == Some(t);
    hide Step;
    On(actions, s, a, t);
    MovedIsAcked(s, t);
  }

  lemma Reads(actions: seq<Action>, s: System) returns (a: Action, t: System)
    requires At(actions, s) && AllAcked(s) && s.rx.dstart in s.rx.store
    ensures Plain(a) && At(actions + [a], t) && AllAcked(t)
    ensures t.client == s.client && |s.served| < |t.served|
  {
    hide At, Inv, Run, FullClient, Full, W.Settled, R.Read;
    Parts(actions, s);
    var n := |R.Available(s.rx)|;
    BlockServes(s.rx);
    var (rx, bytes) := R.Read(s.rx, n);
    a, t := Read(n), s.(rx := rx, served := s.served + bytes);
    hide R.Valid, AllAcked, Received, R.Available;
    assert Step(s, a) == Some(t);
    hide Step;
    On(actions, s, a, t);
    SameAcked(s, t);
  }

  lemma SameAcked(s: System, t: System)
    requires AllAcked(s) && t.client == s.client && t.acks == s.acks
    requires forall m :: Received(t.rx, m) <==> Received(s.rx, m)
    ensures AllAcked(t)
  {
  }

  lemma BlockServes(r: R.Receiver)
    requires R.Valid(r) && r.dstart in r.store
    ensures var (rx, bytes) := R.Read(r, |R.Available(r)|);
      && bytes != []
      && forall m :: Received(rx, m) <==> Received(r, m)
  {
    Runs.BlockEndAtLeast(r, r.dstart + 1);
    forall m
      ensures Received(R.Read(r, |R.Available(r)|).0, m) <==> Received(r, m)
    {
      if Received(r, m) { ReadReceived(r, m); }
    }
  }

  /** The receiver's next packet is missing: it is sent again and stored. */
  lemma Fills(actions: seq<Action>, s: System) returns (more: seq<Action>, t: System)
    requires At(actions, s) && AllAcked(s) && Small(s)
    requires s.rx.dstart !in s.rx.store && Slots.Waiting(s.client.tx, s.rx.dstart)
    ensures Tame(actions, more) && At(actions + more, t) && AllAcked(t)
    ensures t.client.tx.base == s.client.tx.base
    ensures t.rx.dstart == s.rx.dstart && t.rx.dstart in t.rx.store
    ensures t.served == s.served && t.client.handed == s.client.handed && t.client.pending == s.client.pending
  {
    var n := s.rx.dstart;
    hide At, Inv, FullClient, Full, W.Settled, W.Shaped, W.Packet, Small, Slots.Waiting, Tame;
    Parts(actions, s);
    WaitingIsCut(s, n);
    NumberSmall(actions, s, n);
    more, t := Resend(actions, s, n);
    assert R.Insert(s.rx, n, W.Packet(s.client.tx, n)) == (s.rx.(store := s.rx.store[n := W.Packet(s.client.tx, n)]), true) by {
      hide SameWaiting, AllAcked;
      FrontNotRecognised(s.rx);
    }
    forall m | Slots.Waiting(t.client.tx, m) && Received(t.rx, m)
      ensures m in t.acks
    {
      assert m != n ==> Received(s.rx, m);
    }
  }

  lemma FrontNotRecognised(r: R.Receiver)
    requires R.Valid(r) && r.dstart !in r.store
    ensures !R.Recognised(r, r.dstart) && R.Acceptable(r, r.dstart)
  {
  }

  lemma WaitingIsCut(s: System, n: int)
    requires W.Settled(s.client.tx) && Slots.Waiting(s.client.tx, n)
    ensures 1 <= n < |s.client.tx.cuts|
  {
  }

  /** What is released is received, so the sender is never ahead of the reader. */
  lemma BaseBehind(s: System)
    requires Inv(s) && s.rx.dstart !in s.rx.store
    ensures 0 <= s.client.tx.base < s.rx.dstart <= |s.client.tx.cuts|
  {
    assert s.client.tx.base >= s.rx.dstart ==> Received(s.rx, s.rx.dstart);
    assert FullUpTo(s.client.tx, s.rx.dstart - 1);
  }

  /** Nothing is outstanding and the reader has caught up: all that was added is served. */
  lemma CaughtUp(actions: seq<Action>, s: System)
    requires At(actions, s) && s.rx.dstart !in s.rx.store
    requires s.client.tx.acks == [] && s.client.tx.base + 1 == s.rx.dstart
    ensures s.served == s.client.tx.added && s.client.tx.base + 1 == |s.client.tx.cuts|
  {
    var tx := s.client.tx;
    Runs.EmptyBlock(s.rx);
    assert W.Covered(tx) == 0 && W.Held(tx) == 0;
    assert FullUpTo(tx, tx.base);
    assert |s.served| == Runs.Position(s.rx) == tx.base * PKT == |tx.added|;
  }

  ghost function Unread(s: System): int {
    |s.client.handed| - |s.served|
  }

  ghost function Pends(s: System): nat {
    if s.client.pending.Some? then 1 else 0
  }

  ghost function Gap(s: System): int {
    s.rx.dstart - s.client.tx.base
  }

  ghost function Lacks(s: System): nat {
    if s.rx.dstart in s.rx.store then 0 else 1
  }

  ghost predicate Nearer(s: System, u: System) {
    && 0 <= Unread(u) <= Unread(s)
    && (Unread(u) == Unread(s) ==>
          && Pends(u) <= Pends(s)
          && (Pends(u) == Pends(s) ==>
                && Gap(u) <= Gap(s) && (Gap(u) < Gap(s) ==> 0 <= Gap(s))
                && (Gap(u) == Gap(s) ==> Lacks(u) < Lacks(s))))
  }

  /** One step nearer: read what there is, take an acknowledgement, send what is missing,
      or offer what waits. */
  lemma OneNearer(actions: seq<Action>, s: System) returns (more: seq<Action>, t: System)
    requires At(actions, s) && AllAcked(s) && Small(s) && !Complete(s)
    ensures Tame(actions, more) && At(actions + more, t) && AllAcked(t)
    ensures t.client.handed == s.client.handed && Nearer(s, t)
  {
    hide At, AllAcked, Complete, Tame, Slots.Waiting, Inv, FullClient, Full, W.Settled, R.Valid, Small;
    ServedBound(actions, s);
    if s.rx.dstart in s.rx.store {
      var a;
      a, t := Reads(actions, s);
      more := [a];
      PlainIsTame(actions, more);
    } else {
      Parts(actions, s);
      BaseBehind(s);
      FrontWaits(s);
      if s.client.tx.base + 1 < s.rx.dstart {
        more, t := Acks(actions, s);
      } else if s.client.tx.acks != [] {
        more, t := Fills(actions, s);
      } else if s.client.pending.Some? {
        var a;
        a, t := Offers(actions, s);
        more := [a];
        PlainIsTame(actions, more);
      } else {
        CaughtUp(actions, s);
        Done(actions, s);
      }
    }
    ServedBound(actions + more, t);
  }

  /** The rest of the transfer, once every packet received is acknowledged. */
  lemma {:induction false} Finish(actions: seq<Action>, s: System) returns (more: seq<Action>, t: System)
    requires At(actions, s) && AllAcked(s) && Small(s)
    ensures Tame(actions, more) && At(actions + more, t) && Complete(t)
    decreases Unread(s), Pends(s), Gap(s), Lacks(s)
  {
    hide At, AllAcked, Complete, Tame, Small;
    ServedBound(actions, s);
    if Complete(s) {
      TameNone(actions);
      assert actions + [] == actions;
      more, t := [], s;
    } else {
      var first, u := OneNearer(actions, s);
      SmallStays(s, u);
      hide Gap, Unread, Pends, Lacks;
      var rest;
      rest, t := Finish(actions + first, u);
      TameBoth(actions, first, rest);
      assert actions + first + rest == actions + (first + rest);
      more := first + rest;
    }
  }

  lemma Done(actions: seq<Action>, s: System)
    requires At(actions, s) && s.client.pending.None?
    requires s.served == s.client.tx.added && s.client.tx.base + 1 == |s.client.tx.cuts|
    ensures Complete(s)
  {
  }

  lemma ServedBound(actions: seq<Action>, s: System)
    requires At(actions, s)
    ensures |s.served| <= |s.client.handed|
  {
  }

  lemma FrontWaits(s: System)
    requires W.Settled(s.client.tx)
    ensures s.client.tx.acks != [] ==> Slots.Waiting(s.client.tx, s.client.tx.base + 1)
    ensures s.client.tx.base + 1 < |s.client.tx.cuts| ==> s.client.tx.acks != []
  {
  }

  // ----- exactly when

  lemma Completes(actions: seq<Action>, s: System) returns (more: seq<Action>)
    requires At(actions, s) && Small(s) && NoneStuck(s)
    ensures Tame(actions, more) && Run(actions + more).Some? && Complete(Run(actions + more).value)
  {
    hide At, NoneStuck, Small, Complete, Tame, AllAcked;
    var first, u := Recover(actions, s);
    SmallStays(s, u);
    var rest, t := Finish(actions + first, u);
    TameBoth(actions, first, rest);
    more := first + rest;
    assert actions + first + rest == actions + more;
    AtRun(actions + more, t);
  }

  lemma StuckNeverCompletes(actions: seq<Action>, n: int, more: seq<Action>)
    requires Run(actions).Some? && StuckAt(Run(actions).value, n) && Run(actions + more).Some?
    ensures !Complete(Run(actions + more).value)
  {
    StuckForever(actions, more, n);
    assert W.Settled(Run(actions + more).value.client.tx);
    hide Inv, Run;
    StuckNotComplete(Run(actions + more).value, n);
  }

  /** After any run of full chunks, whatever was lost, repeated or damaged: everything
      handed over can still be served and released if and only if no packet is stuck. It
      then can with acknowledgements taken only while the sender's table has their number. */
  lemma CompletesExactly(actions: seq<Action>)
    requires Run(actions).Some? && (forall a | a in actions :: FullHand(a)) && Small(Run(actions).value)
    ensures NoneStuck(Run(actions).value) <==>
      exists more :: Run(actions + more).Some? && Complete(Run(actions + more).value)
    ensures NoneStuck(Run(actions).value) ==>
      exists more :: Tame(actions, more) && Run(actions + more).Some? && Complete(Run(actions + more).value)
  {
    RunIsFull(actions);
    hide Inv, FullClient, Small, Complete, Tame, StuckAt, FullHand, Run;
    if NoneStuck(Run(actions).value) {
      var more := Completes(actions, Run(actions).value);
    } else {
      var n :| StuckAt(Run(actions).value, n);
      forall more | Run(actions + more).Some?
        ensures !Complete(Run(actions + more).value)
      {
        StuckNeverCompletes(actions, n, more);
      }
    }
  }

  lemma SmallStays(s: System, t: System)
    requires Small(s) && t.client.handed == s.client.handed
    ensures Small(t)
  {
  }

  lemma AtRun(actions: seq<Action>, s: System)
    requires At(actions, s)
    ensures Run(actions) == Some(s)
  {
  }

  lemma StuckNotComplete(s: System, n: int)
    requires 0 <= s.client.tx.base && StuckAt(s, n) && |s.client.tx.cuts| == s.client.tx.base + |s.client.tx.acks| + 1
    ensures !Complete(s)
  {
  }

  // ----- runs that lose no acknowledgement, and one that does

  lemma StepAcks(s: System, a: Action)
    requires Inv(s) && Step(s, a).Some? && !a.LoseAck?
    requires forall n | Received(s.rx, n) :: n in s.acks
    ensures forall n | Received(Step(s, a).value.rx, n) :: n in Step(s, a).value.acks
  {
    assert W.Settled(s.client.tx) && R.Valid(s.rx);
    hide Inv, W.Settled, R.Valid, ClientStep;
    match a
    case Arrive(d) =>
    case Read(size) =>
      var (rx, bytes) := R.Read(s.rx, size);
      ReadAcks(s.rx, size);
      hide R.Read, Received;
    case _ =>
  }

  lemma ReadAcks(r: R.Receiver, size: nat)
    requires R.Valid(r)
    ensures forall n | Received(R.Read(r, size).0, n) :: Received(r, n)
  {
  }

  lemma {:induction false} NoLossAcks(actions: seq<Action>)
    requires Run(actions).Some? && forall a | a in actions :: !a.LoseAck?
    ensures forall n | Received(Run(actions).value.rx, n) :: n in Run(actions).value.acks
    decreases |actions|
  {
    hide Inv, Step, Received;
    if actions == [] {
      hide Run;
      NothingReceived();
    } else {
      NoLossAcks(actions[..|actions| - 1]);
      StepAcks(Run(actions[..|actions| - 1]).value, actions[|actions| - 1]);
    }
  }

  lemma NothingReceived()
    ensures Run([]) == Some(START) && forall n :: !Received(START.rx, n)
  {
  }

  /** While no acknowledgement is lost, whatever happens to the datagrams, everything
      handed over in full chunks can be served and released. */
  lemma NoLossCompletes(actions: seq<Action>)
    requires Run(actions).Some? && Small(Run(actions).value)
    requires forall a | a in actions :: FullHand(a) && !a.LoseAck?
    ensures exists more :: Tame(actions, more) && Run(actions + more).Some? && Complete(Run(actions + more).value)
  {
    NoLossAcks(actions);
    var s := Run(actions).value;
    hide Inv, Run, FullHand, Tame, Complete, Small;
    SilentReceived(s);
    CompletesExactly(actions);
  }

  lemma SilentReceived(s: System)
    requires forall n | Received(s.rx, n) :: n in s.acks
    requires 0 <= s.client.tx.base
    ensures NoneStuck(s)
  {
  }

  function LossyRound(chunk: seq<byte>): seq<Action> {
    [Local(Hand(chunk)), Local(Offer), Local(Send), Arrive(W.Stamped(1, chunk)), Read(PKT), LoseAck(1)]
  }

  /** The system after it: packet 1 is read, its acknowledgement is lost. */
  function Lossy(chunk: seq<byte>): System
    requires |START.client.tx.slots| == W.SLOTS
  {
    Delivery.Arrived(START, 1, chunk).(rx := R.Receiver(2, 0, map[]), served := chunk, acks := {})
  }

  lemma LossyRuns(chunk: seq<byte>)
    requires |chunk| == PKT
    ensures |START.client.tx.slots| == W.SLOTS && Run(LossyRound(chunk)) == Some(Lossy(chunk))
  {
    var a3 := [Local(Hand(chunk)), Local(Offer), Local(Send)];
    var a4 := a3 + [Arrive(W.Stamped(1, chunk))];
    var a5 := a4 + [Read(PKT)];
    assert [] + a3 == a3 && a5 + [LoseAck(1)] == LossyRound(chunk);
    Delivery.QuietStart();
    assert |START.client.tx.slots| == W.SLOTS && START.client.tx.base == 0 && START.served == [] && START.acks == {};
    var s3, s4 := Delivery.Sent(START, 1, chunk), Delivery.Arrived(START, 1, chunk);
    var s5 := s4.(rx := R.Receiver(2, 0, map[]), served := chunk);
    var s6 := s5.(acks := {});
    assert s4.rx == R.Receiver(1, 0, map[1 := chunk]) && s4.acks == {1} && s4.served == [];
    assert s6 == Lossy(chunk);
    hide Run, Inv, Step, Delivery.Quiet, Delivery.Rests, Delivery.Sent, Delivery.Arrived, W.Stamped, W.Settled, R.Valid;
    Delivery.QuietParts(START, 0);
    Delivery.GoesOut([], START, 1, chunk);
    Delivery.CanStep(START);
    Delivery.CanStep(s3);
    Delivery.Arrives(START, 1, chunk);
    Delivery.RunOn(a3, s3, Arrive(W.Stamped(1, chunk)), s4);
    Delivery.CanStep(s4);
    ReadsAway(s4, s5, chunk);
    Delivery.RunOn(a4, s4, Read(PKT), s5);
    Delivery.CanStep(s5);
    LosesAck(s5, s6);
    Delivery.RunOn(a5, s5, LoseAck(1), s6);
  }

  lemma LossySticks(chunk: seq<byte>)
    requires |chunk| == PKT
    ensures |START.client.tx.slots| == W.SLOTS && StuckAt(Lossy(chunk), 1)
    ensures Delivery.Idle(START.client.tx) && START.client.tx.base == 0
    ensures Lossy(chunk).client == Client(Delivery.Holding(START.client.tx, chunk, 1, W.Slot(1, true)), None, chunk)
    ensures Lossy(chunk).rx == R.Receiver(2, 0, map[]) && Lossy(chunk).served == chunk
  {
    Delivery.QuietStart();
    assert [] + chunk == chunk;
  }

  /** A second chunk is handed over, sent and delivered. */
  function LossyRounds(chunk: seq<byte>, next: seq<byte>): seq<Action> {
    LossyRound(chunk) + [Local(Hand(next)), Local(Offer), Local(Send), Arrive(W.Stamped(2, next))]
  }

  lemma LossyIsFull(chunk: seq<byte>)
    requires |chunk| == PKT
    ensures |START.client.tx.slots| == W.SLOTS && At(LossyRound(chunk), Lossy(chunk))
  {
    LossyRuns(chunk);
    hide Run, Lossy, Inv, FullClient, Step, W.Stamped;
    RunIsFull(LossyRound(chunk));
  }

  /** The next chunk goes into a sender that waits for packet 1. */
  lemma HandsNext(actions: seq<Action>, s: System, chunk: seq<byte>, next: seq<byte>) returns (t: System)
    requires At(actions, s) && |chunk| == PKT && |next| == PKT
    requires Delivery.Idle(START.client.tx) && START.client.tx.base == 0
    requires s.client == Client(Delivery.Holding(START.client.tx, chunk, 1, W.Slot(1, true)), None, chunk)
    ensures At(actions + [Local(Hand(next)), Local(Offer)], t) && t.rx == s.rx && t.served == s.served
    ensures W.Outstanding(t.client.tx, 2) && Slots.AckOf(t.client.tx, 2) == 0
    ensures W.Shaped(t.client.tx) && 2 < |t.client.tx.cuts| && W.Packet(t.client.tx, 2) == next
  {
    Delivery.AddsBehind(START.client.tx, chunk, W.Slot(1, true), next);
    var c := s.client;
    var u := s.(client := c.(pending := Some(next), handed := c.handed + next));
    t := s.(client := Client(Delivery.Holding2(START.client.tx, chunk, W.Slot(1, true), next), None, c.handed + next));
    assert s.net + AsSet([]) == s.net;
    hide At, Inv, FullClient, Full, R.Valid, W.Settled, W.Shaped, W.AddData, W.Packet, Delivery.Holding, Run;
    assert W.Outstanding(t.client.tx, 2) && Slots.AckOf(t.client.tx, 2) == 0;
    hide Delivery.Holding2, Delivery.Idle;
    Parts(actions, s);
    On(actions, s, Local(Hand(next)), u);
    On(actions + [Local(Hand(next))], u, Local(Offer), t);
    assert actions + [Local(Hand(next))] + [Local(Offer)] == actions + [Local(Hand(next)), Local(Offer)];
  }

  lemma LossyRoundsJoin(a: seq<Action>, chunk: seq<byte>, next: seq<byte>)
    requires a == LossyRound(chunk)
    ensures a + [Local(Hand(next)), Local(Offer)] + [Local(Send)] + [Arrive(W.Stamped(2, next))] == LossyRounds(chunk, next)
  {
    hide LossyRound, W.Stamped;
  }

  lemma SecondArrives(chunk: seq<byte>, next: seq<byte>) returns (v: System)
    requires |chunk| == PKT && |next| == PKT
    ensures |START.client.tx.slots| == W.SLOTS
    ensures At(LossyRound(chunk), Lossy(chunk)) && At(LossyRounds(chunk, next), v)
    ensures v.served == chunk && v.rx == R.Receiver(2, 0, map[2 := next])
  {
    LossyIsFull(chunk);
    LossySticks(chunk);
    assert R.Insert(R.Receiver(2, 0, map[]), 2, next) == (R.Receiver(2, 0, map[2 := next]), true);
    hide Lossy, LossyRound, LossyRounds, At, StuckAt, Delivery.Idle, Delivery.Holding, W.Packet, W.Shaped, R.Insert, SameWaiting;
    var a := LossyRound(chunk);
    var t := HandsNext(a, Lossy(chunk), chunk, next);
    LossyRoundsJoin(a, chunk, next);
    var a2 := a + [Local(Hand(next)), Local(Offer)];
    var u := Sends(a2, t, 2);
    v := Delivers(a2 + [Local(Send)], u, W.Stamped(2, next));
  }

  /** One full chunk is sent, delivered and read, and its acknowledgement lost; a second is
      sent and delivered. Packet 1 is stuck, though the application has been served - also
      with sbuffer.c:115 as written (FreedRoomRuns.Packets65And1). */
  lemma LostAckSticks(chunk: seq<byte>, next: seq<byte>)
    requires |chunk| == PKT && |next| == PKT
    ensures Run(LossyRounds(chunk, next)).Some?
    ensures var s := Run(LossyRounds(chunk, next)).value;
      StuckAt(s, 1) && s.served == chunk && s.rx == R.Receiver(2, 0, map[2 := next])
  {
    var v := SecondArrives(chunk, next);
    LossySticks(chunk);
    hide Lossy, LossyRound, At, Run, StuckAt;
    AtRun(LossyRound(chunk), Lossy(chunk));
    AtRun(LossyRounds(chunk, next), v);
    StuckForever(LossyRound(chunk), [Local(Hand(next)), Local(Offer), Local(Send), Arrive(W.Stamped(2, next))], 1);
  }

  lemma ReadsAway(s: System, t: System, chunk: seq<byte>)
    requires W.Settled(s.client.tx) && R.Valid(s.rx) && |chunk| == PKT
    requires s.rx == R.Receiver(1, 0, map[1 := chunk]) && s.served == []
    requires t == s.(rx := R.Receiver(2, 0, map[]), served := chunk)
    ensures Step(s, Read(PKT)) == Some(t)
  {
    Delivery.Serves(1, chunk);
    hide W.Settled, R.Valid, R.Read;
    assert [] + chunk == chunk;
  }

  lemma LosesAck(s: System, t: System)
    requires W.Settled(s.client.tx) && R.Valid(s.rx) && s.acks == {1} && t == s.(acks := {})
    ensures Step(s, LoseAck(1)) == Some(t)
  {
    hide W.Settled, R.Valid;
    assert {1} - {1} == {};
  }
}
