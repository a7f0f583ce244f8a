/** Packets whose acknowledgement is lost for good. The receiver is the one with sbuffer.c:115
    repaired; FreedRoomRuns says which packets already read are acknowledged again as the line
    is written. */
module Stuck {
  import opened Parameters
  import opened Protocol
  import W = Window
  import Slots = WindowSlots
  import R = Reassembly
  import Runs = ReassemblyRuns

  /** The sender waits for packet n, the receiver will not acknowledge it again, and no
      acknowledgement of it is on its way. */
  ghost predicate StuckAt(s: System, n: int) {
    Slots.Waiting(s.client.tx, n) && Runs.Silent(s.rx, n) && n !in s.acks
  }

  // ----- the sender goes on waiting

  lemma {:induction false} ReleaseWaits(s: W.Sender, n: int)
    requires Slots.Waiting(s, n)
    ensures Slots.Waiting(W.Release(s), n)
    decreases |s.acks|
  {
    if W.Releasable(s) {
      assert Slots.Waiting(W.ReleaseOne(s), n);
      ReleaseWaits(W.ReleaseOne(s), n);
    } else {
    }
  }

  lemma AppendedWaits(s: W.Sender, t: W.Sender, n: int)
    requires Slots.Waiting(s, n) && t.base == s.base && s.acks <= t.acks
    ensures Slots.Waiting(t, n)
  {
  }

  lemma CheckWindowWaits(s: W.Sender, n: int)
    requires W.Shaped(s) && W.Covered(s) <= W.Reach(s) && Slots.Waiting(s, n)
    ensures Slots.Waiting(W.CheckWindow(s), n)
  {
    hide W.Extend, W.Release, Slots.Waiting;
    W.ReleaseShaped(s);
    ReleaseWaits(s, n);
    W.ExtendShaped(W.Release(s));
    AppendedWaits(W.Release(s), W.Extend(W.Release(s)), n);
  }

  lemma AddDataWaits(s: W.Sender, chunk: seq<byte>, n: int)
    requires W.Settled(s) && Slots.Waiting(s, n)
    ensures Slots.Waiting(W.AddData(s, chunk).0, n)
  {
    if |chunk| <= CAP - W.Held(s) {
      var a := W.Appended(s, chunk);
      assert W.Shaped(a) && W.Covered(a) <= W.Reach(a);
      CheckWindowWaits(a, n);
    } else {
      CheckWindowWaits(s, n);
    }
  }

  lemma RecvAckWaits(s: W.Sender, m: int, n: int)
    requires W.Settled(s) && Slots.Waiting(s, n) && m != n
    ensures Slots.Waiting(W.RecvAck(s, m).0, n)
  {
    W.RecvAckParts(s, m);
    var u := W.SetAck(W.FreeSlot(s, m), m, 2);
    hide W.Shaped, W.RecvAck, W.CheckWindow, W.SetAck, W.FreeSlot;
    if W.Outstanding(s, m) {
      assert Slots.Waiting(u, n);
      hide Slots.Waiting;
      CheckWindowWaits(u, n);
    }
  }

  lemma ClientStepWaits(c: Client, a: ClientAction, n: int)
    requires W.Settled(c.tx) && Slots.Waiting(c.tx, n) && ClientStep(c, a).Some?
    requires a.Ack? ==> a.number != n
    ensures Slots.Waiting(ClientStep(c, a).value.0.tx, n)
  {
    match a
    case Hand(chunk) =>
    case Offer => AddDataWaits(c.tx, c.pending.value, n);
    case Ack(m) => RecvAckWaits(c.tx, m, n);
    case Expire(m) =>
    case Send => W.SendFromSettles(c.tx, 0);
  }

  // ----- the system stays stuck

  lemma StepStaysStuck(s: System, a: Action, n: int)
    requires Inv(s) && StuckAt(s, n) && Step(s, a).Some?
    ensures StuckAt(Step(s, a).value, n)
  {
    assert W.Settled(s.client.tx) && R.Valid(s.rx);
    var run := Runs.Run(s.rx, map[], []);
    hide Inv, W.Settled, R.Valid;
    match a
    case Local(action) =>
      hide Slots.Waiting, ClientStep;
      ClientStepWaits(s.client, action, n);
    case Arrive(d) =>
      Runs.SilentIsRefused(s.rx, n, d.data);
      if Crc32.Checksum(Crc32.CRC_POLY, d.data) == d.crc {
        Runs.SilentStays(run, Runs.Arrives(d.packnum, d.data), n);
      }
      hide R.Insert;
    case Read(size) =>
      Runs.SilentStays(run, Runs.Asked(size), n);
      hide R.Read;
    case Damage(d, data) =>
    case Lose(d) =>
    case LoseAck(m) =>
  }

  /** Once stuck, always stuck: packet n is never released, whatever happens next. */
  lemma {:induction false} StuckForever(actions: seq<Action>, more: seq<Action>, n: int)
    requires Run(actions).Some? && StuckAt(Run(actions).value, n)
    requires Run(actions + more).Some?
    ensures StuckAt(Run(actions + more).value, n)
    ensures Run(actions + more).value.client.tx.base < n
    decreases |more|
  {
    hide Inv, Step;
    if more == [] {
      assert actions + more == actions;
    } else {
      var before, a := more[..|more| - 1], more[|more| - 1];
      assert (actions + more)[..|actions + more| - 1] == actions + before;
      StuckForever(actions, before, n);
      StepStaysStuck(Run(actions + before).value, a, n);
    }
  }
}
