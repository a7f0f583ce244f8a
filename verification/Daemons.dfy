/** tcpdc.c and tcpds.c: the order in which the two ends work on their buffers, as steps
    of the protocol. */
module Daemons {
  import opened Parameters
  import opened Wrappers
  import opened Protocol
  import Crc32
  import W = Window
  import WB = WindowBuffer
  import R = Reassembly
  import RB = ReassemblyBuffer
  import Passes = WindowPasses

  // ----- client runs

  ghost function Then(c: Client, a: ClientAction): (r: Option<(Client, seq<W.Datagram>)>)
    requires ClientOk(c)
    ensures r == ClientStep(c, a)
    ensures r.Some? ==> ClientOk(r.value.0)
  {
    if ClientStep(c, a).Some? then ClientStepKeeps(c, a); ClientStep(c, a) else None
  }

  /** Actions one after the other, with all that is sent on the way. */
  ghost function ClientRun(c: Client, actions: seq<ClientAction>): (r: Option<(Client, seq<W.Datagram>)>)
    requires ClientOk(c)
    ensures r.Some? ==> ClientOk(r.value.0)
    decreases |actions|
  {
    if actions == [] then Some((c, []))
    else
      var before := ClientRun(c, actions[..|actions| - 1]);
      if before.None? then None
      else
        var r := Then(before.value.0, actions[|actions| - 1]);
        if r.None? then None else Some((r.value.0, before.value.1 + r.value.1))
  }

  lemma RunNone(c: Client)
    requires ClientOk(c)
    ensures ClientRun(c, []) == Some((c, []))
  {
  }

  lemma RunOn(c: Client, actions: seq<ClientAction>, d: Client, sent: seq<W.Datagram>, a: ClientAction)
    requires ClientOk(c) && ClientRun(c, actions) == Some((d, sent))
    ensures ClientOk(d)
    ensures ClientRun(c, actions + [a]) == match ClientStep(d, a)
                                           case None => None
                                           case Some((e, more)) => Some((e, sent + more))
  {
    assert (actions + [a])[..|actions|] == actions;
    hide ClientOk, ClientStep;
  }

  lemma RunQuietly(c: Client, actions: seq<ClientAction>, d: Client, sent: seq<W.Datagram>, a: ClientAction, e: Client)
    requires ClientOk(c) && ClientRun(c, actions) == Some((d, sent))
    requires ClientOk(d) && ClientStep(d, a) == Some((e, []))
    ensures ClientRun(c, actions + [a]) == Some((e, sent))
  {
    hide ClientRun, ClientStep, ClientOk;
    RunOn(c, actions, d, sent, a);
    assert sent + [] == sent;
  }

  lemma RunBefore(c: Client, actions: seq<ClientAction>, n: int)
    requires ClientOk(c) && ClientRun(c, actions).Some? && n == |actions| - 1 >= 0
    ensures ClientRun(c, actions[..n]).Some?
    ensures actions[..n] + [actions[n]] == actions
  {
    hide ClientStep, ClientOk;
  }

  /** A whole client run keeps the system's invariant, if it only sees acknowledgements
      that are in the network. */
  lemma {:induction false} ClientRunKeeps(s: System, actions: seq<ClientAction>)
    requires Inv(s) && ClientRun(s.client, actions).Some?
    requires forall a | a in actions && a.Ack? :: a.number in s.acks
    ensures var (client, sent) := ClientRun(s.client, actions).value;
      Inv(s.(client := client, net := s.net + AsSet(sent)))
    decreases |actions|
  {
    assert ClientOk(s.client);
    hide Inv, ClientOk, ClientStep, ClientRun, AsSet;
    if actions == [] {
      RunNone(s.client);
      NothingSent(s);
    } else {
      var n := |actions| - 1;
      RunBefore(s.client, actions, n);
      ClientRunKeeps(s, actions[..n]);
      OneMore(s, actions[..n], actions[n]);
    }
  }

  lemma NothingSent(s: System)
    ensures s.(client := s.client, net := s.net + AsSet([])) == s
  {
  }

  lemma OneMore(s: System, actions: seq<ClientAction>, a: ClientAction)
    requires Inv(s) && ClientRun(s.client, actions).Some? && ClientRun(s.client, actions + [a]).Some?
    requires a.Ack? ==> a.number in s.acks
    requires var (c, sent) := ClientRun(s.client, actions).value; Inv(s.(client := c, net := s.net + AsSet(sent)))
    ensures var (c, sent) := ClientRun(s.client, actions + [a]).value; Inv(s.(client := c, net := s.net + AsSet(sent)))
  {
    assert ClientOk(s.client);
    hide Inv, ClientOk, ClientRun, ClientStep, AsSet;
    var (c, sent) := ClientRun(s.client, actions).value;
    RunOn(s.client, actions, c, sent, a);
    var (d, more) := ClientStep(c, a).value;
    StepOn(s.(client := c, net := s.net + AsSet(sent)), a, d, more);
    SentTogether(s.net, sent, more);
  }

  lemma StepOn(t: System, a: ClientAction, d: Client, more: seq<W.Datagram>)
    requires Inv(t) && (a.Ack? ==> a.number in t.acks)
    requires ClientStep(t.client, a) == Some((d, more))
    ensures Inv(t.(client := d, net := t.net + AsSet(more)))
  {
    assert W.Settled(t.client.tx) && R.Valid(t.rx);
    StepKeeps(t, Local(a));
    hide Inv, ClientStep, AsSet, W.Settled, R.Valid;
    assert Step(t, Local(a)) == Some(t.(client := d, net := t.net + AsSet(more)));
  }

  lemma SentTogether(net: set<W.Datagram>, sent: seq<W.Datagram>, more: seq<W.Datagram>)
    ensures net + AsSet(sent) + AsSet(more) == net + AsSet(sent + more)
  {
  }

  /** The actions of one pass of the client's loop (tcpdc.c:92-179): the waiting chunk
      first, then a new one if none waits, then acknowledgements, expiries and sending. */
  ghost function Plan(c: Client, host: Option<seq<byte>>, acks: seq<int>, expiries: seq<int>): seq<ClientAction>
    requires W.Settled(c.tx)
  {
    HostPlan(c, host) + Acks(acks) + Expiries(expiries) + [Send]
  }

  ghost predicate Fits(c: Client)
    requires W.Settled(c.tx)
  {
    c.pending.Some? && W.AddData(c.tx, c.pending.value).1
  }

  ghost function HostPlan(c: Client, host: Option<seq<byte>>): seq<ClientAction>
    requires W.Settled(c.tx)
  {
    (if c.pending.Some? then [Offer] else [])
    + (if host.Some? && (c.pending.None? || Fits(c)) then [Hand(host.value), Offer] else [])
  }

  ghost function Acks(ns: seq<int>): seq<ClientAction> {
    if ns == [] then [] else Acks(ns[..|ns| - 1]) + [Ack(ns[|ns| - 1])]
  }

  ghost function Expiries(ns: seq<int>): seq<ClientAction> {
    if ns == [] then [] else Expiries(ns[..|ns| - 1]) + [Expire(ns[|ns| - 1])]
  }

  // ----- what a pass does

  lemma {:induction false} AcksInOrder(ns: seq<int>)
    ensures |Acks(ns)| == |ns| && forall i | 0 <= i < |ns| :: Acks(ns)[i] == Ack(ns[i])
    decreases |ns|
  {
    if ns == [] {
    } else {
      AcksInOrder(ns[..|ns| - 1]);
    }
  }

  lemma {:induction false} ExpiriesInOrder(ns: seq<int>)
    ensures |Expiries(ns)| == |ns| && forall i | 0 <= i < |ns| :: Expiries(ns)[i] == Expire(ns[i])
    decreases |ns|
  {
    if ns == [] {
    } else {
      ExpiriesInOrder(ns[..|ns| - 1]);
    }
  }

  /** An acknowledgement is taken, and nothing else of the client changes. */
  lemma AckStep(c: Client, n: int) returns (d: Client)
    requires ClientOk(c)
    ensures ClientStep(c, Ack(n)) == Some((d, [])) && ClientOk(d)
    ensures d == c.(tx := d.tx) && d.tx.added == c.tx.added && Passes.Took(c.tx, d.tx, [n])
  {
    ClientStepKeeps(c, Ack(n));
    assert W.Settled(c.tx);
    d := c.(tx := W.RecvAck(c.tx, n).0);
    hide ClientOk, W.Settled, W.RecvAck, Passes.Took;
    Passes.RecvAckTakes(c.tx, n);
    W.RecvAckSettles(c.tx, n);
  }

  /** However many acknowledgements come, each of them is taken. */
  lemma {:induction false} AcksTake(c: Client, done: seq<ClientAction>, before: Client, ns: seq<int>) returns (after: Client)
    requires ClientOk(c) && ClientRun(c, done) == Some((before, []))
    ensures ClientOk(before) && ClientRun(c, done + Acks(ns)) == Some((after, [])) && ClientOk(after)
    ensures after == before.(tx := after.tx) && after.tx.added == before.tx.added
    ensures Passes.Took(before.tx, after.tx, ns)
    decreases |ns|
  {
    hide ClientOk, ClientRun, ClientStep, Passes.Took;
    RunIsOk(c, done);
    if ns == [] {
      after := before;
      assert done + Acks(ns) == done;
      NothingDone(before);
    } else {
      var front, n := ns[..|ns| - 1], ns[|ns| - 1];
      var d := AcksTake(c, done, before, front);
      after := AckStep(d, n);
      RunQuietly(c, done + Acks(front), d, [], Ack(n), after);
      assert done + Acks(front) + [Ack(n)] == done + Acks(ns);
      Passes.TookBoth(before.tx, d.tx, after.tx, front, [n]);
      assert front + [n] == ns;
    }
  }

  lemma NothingDone(c: Client)
    requires ClientOk(c)
    ensures Passes.Took(c.tx, c.tx, []) && Passes.PutBack(c.tx, c.tx, [])
  {
    assert W.Shaped(c.tx);
    Passes.TookNone(c.tx);
  }

  lemma RunIsOk(c: Client, actions: seq<ClientAction>)
    requires ClientOk(c) && ClientRun(c, actions).Some?
    ensures ClientOk(ClientRun(c, actions).value.0)
  {
  }

  lemma ExpireStep(c: Client, n: int) returns (d: Client)
    requires ClientOk(c)
    ensures ClientStep(c, Expire(n)) == Some((d, [])) && ClientOk(d)
    ensures d == c.(tx := W.TimerExpire(c.tx, n)) && d.tx.added == c.tx.added
  {
    ClientStepKeeps(c, Expire(n));
    d := c.(tx := W.TimerExpire(c.tx, n));
  }

  /** Every packet expired is put back. */
  lemma {:induction false} ExpiriesPutBack(c: Client, done: seq<ClientAction>, before: Client, ns: seq<int>) returns (after: Client)
    requires ClientOk(c) && ClientRun(c, done) == Some((before, []))
    ensures ClientOk(before) && ClientRun(c, done + Expiries(ns)) == Some((after, [])) && ClientOk(after)
    ensures after == before.(tx := after.tx) && after.tx.added == before.tx.added
    ensures Passes.PutBack(before.tx, after.tx, ns)
    decreases |ns|
  {
    hide ClientOk, ClientRun, ClientStep, Passes.PutBack, W.TimerExpire;
    RunIsOk(c, done);
    if ns == [] {
      after := before;
      assert done + Expiries(ns) == done;
      NothingDone(before);
    } else {
      var front, n := ns[..|ns| - 1], ns[|ns| - 1];
      var d := ExpiriesPutBack(c, done, before, front);
      after := ExpireStep(d, n);
      RunQuietly(c, done + Expiries(front), d, [], Expire(n), after);
      assert done + Expiries(front) + [Expire(n)] == done + Expiries(ns);
      Passes.ExpirePutsBack(before.tx, d.tx, front, n);
      assert front + [n] == ns;
    }
  }

  /** What waits, if anything. */
  ghost predicate OfferedTo(c: Client, d: Client) {
    Passes.Offered(c.tx, d.tx, Pending(d), d.pending.Some?)
  }

  lemma OffersOne(c: Client, done: seq<ClientAction>, before: Client) returns (after: Client)
    requires ClientOk(c) && ClientRun(c, done) == Some((before, [])) && before.pending.Some?
    ensures ClientOk(before) && ClientRun(c, done + [Offer]) == Some((after, [])) && ClientOk(after)
    ensures OfferedTo(before, after) && after.handed == before.handed
    ensures W.Settled(before.tx) && (after.pending.None? <==> Fits(before))
  {
    RunIsOk(c, done);
    OfferStep(before);
    assert W.Settled(before.tx);
    var (tx, taken) := W.AddData(before.tx, before.pending.value);
    after := before.(tx := tx, pending := if taken then None else before.pending);
    hide ClientOk, ClientRun, ClientStep, W.AddData, W.Settled, Passes.Offered;
    Passes.OfferedOne(before.tx, before.pending.value);
    NoneWaits(before.tx, tx, before.pending.value, taken);
    RunQuietly(c, done, before, [], Offer, after);
  }

  lemma NoneWaits(s: W.Sender, t: W.Sender, chunk: seq<byte>, taken: bool)
    requires Passes.Offered(s, t, chunk, !taken)
    ensures Passes.Offered(s, t, if taken then [] else chunk, !taken)
  {
    hide Passes.Took;
  }

  lemma HandsOne(c: Client, done: seq<ClientAction>, before: Client, chunk: seq<byte>) returns (after: Client)
    requires ClientOk(c) && ClientRun(c, done) == Some((before, [])) && before.pending.None? && 1 <= |chunk| <= PKT
    ensures ClientOk(before) && ClientRun(c, done + [Hand(chunk), Offer]) == Some((after, [])) && ClientOk(after)
    ensures OfferedTo(before, after) && after.handed == before.handed + chunk
  {
    RunIsOk(c, done);
    HandStep(before, chunk);
    var d := before.(pending := Some(chunk), handed := before.handed + chunk);
    hide ClientOk, ClientRun, ClientStep, Fits, Passes.Offered;
    RunQuietly(c, done, before, [], Hand(chunk), d);
    after := OffersOne(c, done + [Hand(chunk)], d);
    assert done + [Hand(chunk)] + [Offer] == done + [Hand(chunk), Offer];
  }

  /** A chunk is read from the application when none waits, and what waits after the pass
      does not fit; everything else handed over is in the ring. */
  ghost predicate HostDone(c: Client, d: Client, host: Option<seq<byte>>)
    requires W.Settled(c.tx)
  {
    && OfferedTo(c, d)
    && d.handed == c.handed + (if host.Some? && (c.pending.None? || Fits(c)) then host.value else [])
  }

  lemma HostPlanOffers(c: Client, host: Option<seq<byte>>) returns (after: Client)
    requires ClientOk(c) && (host.Some? ==> 1 <= |host.value| <= PKT)
    ensures W.Settled(c.tx)
    ensures ClientRun(c, HostPlan(c, host)) == Some((after, [])) && ClientOk(after) && HostDone(c, after, host)
  {
    RunNone(c);
    assert W.Settled(c.tx);
    Passes.OfferedNone(c.tx, []);
    hide ClientOk, ClientRun, Fits, W.Settled, Passes.Offered;
    var first := if c.pending.Some? then [Offer] else [];
    var d := c;
    if c.pending.Some? {
      d := OffersOne(c, [], c);
      assert [] + [Offer] == first;
    }
    assert c.handed + [] == c.handed;
    if host.Some? && d.pending.None? {
      after := HandsOne(c, first, d, host.value);
      Passes.OfferedBoth(c.tx, d.tx, after.tx, [], Pending(after), after.pending.Some?);
      assert HostPlan(c, host) == first + [Hand(host.value), Offer];
    } else {
      after := d;
      assert HostPlan(c, host) == first + [] == first;
    }
  }

  /** The effect of a whole pass on the packets, on what is handed over and on what waits. */
  ghost predicate PassDone(c: Client, d: Client, host: Option<seq<byte>>, acks: seq<int>, expiries: seq<int>, sent: seq<W.Datagram>)
    requires W.Settled(c.tx)
  {
    && Passes.Passed(c.tx, d.tx, acks, expiries, sent)
    && Passes.NoRoom(c.tx, d.tx, Pending(d), d.pending.Some?)
    && d.handed == c.handed + (if host.Some? && (c.pending.None? || Fits(c)) then host.value else [])
  }

  lemma SendsLast(c: Client, done: seq<ClientAction>, before: Client)
    requires ClientOk(c) && ClientRun(c, done) == Some((before, [])) && ClientRun(c, done + [Send]).Some?
    ensures ClientOk(before)
    ensures var (d, sent) := ClientRun(c, done + [Send]).value;
      && d == before.(tx := d.tx) && d.tx.added == before.tx.added
      && Passes.SentAll(before.tx, d.tx, sent)
  {
    RunIsOk(c, done);
    RunOn(c, done, before, [], Send);
    assert W.Settled(before.tx);
    Passes.SendSendsAll(before.tx);
    W.SendSettles(before.tx);
    hide ClientOk, ClientRun, W.SendWindow, Passes.SentAll, W.Settled;
    assert [] + W.SendWindow(before.tx).value.1 == W.SendWindow(before.tx).value.1;
  }

  /** Every acknowledgement and expiry received takes effect, all that is to be sent goes
      out, and the application's chunk is in the ring if there is room. */
  lemma PlanPasses(c: Client, host: Option<seq<byte>>, acks: seq<int>, expiries: seq<int>)
    requires ClientOk(c) && (host.Some? ==> 1 <= |host.value| <= PKT)
    requires W.Settled(c.tx) && ClientRun(c, Plan(c, host, acks, expiries)).Some?
    ensures var (d, sent) := ClientRun(c, Plan(c, host, acks, expiries)).value;
      PassDone(c, d, host, acks, expiries, sent)
  {
    hide ClientOk, ClientRun, Fits, W.Settled, Acks, Expiries, HostPlan, Passes.Offered, Passes.Took, Passes.PutBack,
      Passes.SentAll, Passes.Passed;
    var p := HostPlanOffers(c, host);
    var q := AcksTake(c, HostPlan(c, host), p, acks);
    var r := ExpiriesPutBack(c, HostPlan(c, host) + Acks(acks), q, expiries);
    SendsLast(c, HostPlan(c, host) + Acks(acks) + Expiries(expiries), r);
    var (d, sent) := ClientRun(c, Plan(c, host, acks, expiries)).value;
    StreamOnly(c, p, q, r);
    OfferedThen(c.tx, p.tx, q.tx, acks, Pending(p), p.pending.Some?);
    Passes.PassedTogether(c.tx, q.tx, r.tx, d.tx, acks, expiries, sent);
    Later(c.tx, p.tx, d.tx, Pending(p), p.pending.Some?);
  }

  lemma StreamOnly(c: Client, p: Client, q: Client, r: Client)
    requires ClientOk(c) && ClientOk(r) && q.tx.added == p.tx.added
    ensures W.Shaped(c.tx) && W.Shaped(r.tx)
  {
  }

  lemma OfferedThen(s: W.Sender, p: W.Sender, q: W.Sender, acks: seq<int>, temp: seq<byte>, waits: bool)
    requires Passes.Offered(s, p, temp, waits) && Passes.Took(p, q, acks)
    ensures Passes.Took(s, q, acks)
  {
    hide Passes.Took;
    Passes.TookBoth(s, p, q, [], acks);
    assert [] + acks == acks;
  }

  lemma Later(s: W.Sender, p: W.Sender, v: W.Sender, temp: seq<byte>, waits: bool)
    requires Passes.Offered(s, p, temp, waits) && v.added == p.added
    ensures Passes.NoRoom(s, v, temp, waits)
  {
    hide Passes.Took;
  }

  class ClientDaemon {
    const buffer: WB.Buffer
    var tempStored: bool
    var temp: seq<byte>
    ghost var handed: seq<byte>

    ghost function State(): Client
      reads this, buffer
    {
      Client(buffer.st, if tempStored then Some(temp) else None, handed)
    }

    ghost predicate Valid()
      reads this, buffer, buffer.head, buffer.nodes, buffer.cirbuffer, buffer.packtimes
    {
      buffer.Valid() && ClientOk(State())
    }

    constructor ()
      ensures Valid() && State() == START.client
      ensures fresh(buffer) && fresh(buffer.head) && fresh(buffer.cirbuffer) && fresh(buffer.packtimes) && buffer.nodes == []
    {
      buffer := new WB.Buffer();
      tempStored, temp, handed := false, [], [];
    }

    /** addData on the chunk in `temp`, and a reply to the application if it was taken. */
    method OfferTemp() returns (replied: bool)
      requires Valid() && tempStored
      modifies this`tempStored, buffer, buffer.head, buffer.nodes, buffer.cirbuffer
      ensures Valid() && Some((State(), [])) == ClientStep(old(State()), Offer)
      ensures replied == !tempStored
      ensures forall k | 0 <= k < |buffer.nodes| :: buffer.nodes[k] in old(buffer.nodes) || fresh(buffer.nodes[k])
    {
      hide ClientOk, ClientStep, WB.Buffer.Valid, W.AddData;
      OfferStep(State());
      replied := buffer.AddData(temp, |temp|);
      tempStored := !replied;
    }

    /** One action has been done: the run so far goes on by it. */
    ghost predicate Did(c: Client, done: seq<ClientAction>, sent: seq<W.Datagram>)
      requires ClientOk(c)
      reads this, buffer
    {
      ClientRun(c, done) == Some((State(), sent))
    }

    /** tcpdc.c:107-148: the waiting chunk, then perhaps a new one from the application.
        Each chunk that goes in is answered. */
    method HostPass(host: Option<seq<byte>>, ghost c: Client) returns (replies: nat, read: bool, ghost done: seq<ClientAction>)
      requires Valid() && c == State() && (host.Some? ==> 1 <= |host.value| <= PKT)
      modifies this, buffer, buffer.head, buffer.nodes, buffer.cirbuffer
      ensures Valid() && ClientOk(c) && done == HostPlan(c, host) && Did(c, done, []) && HostDone(c, State(), host)
      ensures read <==> host.Some? && (c.pending.None? || Fits(c))
      ensures replies + (if tempStored then 1 else 0) == (if c.pending.Some? then 1 else 0) + (if read then 1 else 0)
      ensures forall k | 0 <= k < |buffer.nodes| :: buffer.nodes[k] in old(buffer.nodes) || fresh(buffer.nodes[k])
    {
      hide ClientOk, ClientStep, ClientRun, Fits, WB.Buffer.Valid, HostDone;
      replies, read, done := 0, false, [];
      RunNone(c);
      FitsMeans(c);
      if tempStored {
        var replied := OfferTemp();
        RunQuietly(c, done, c, [], Offer, State());
        done := done + [Offer];
        if replied {
          replies := 1;
        }
      }
      if host.Some? && !tempStored {
        var more := ReadHost(host.value, c, done);
        replies := replies + more;
        done, read := done + [Hand(host.value), Offer], true;
      }
      ghost var after := HostPlanOffers(c, host);
    }

    /** A chunk is read from the application. */
    method TakeIn(chunk: seq<byte>)
      requires Valid() && !tempStored && 1 <= |chunk| <= PKT
      modifies this`temp, this`tempStored, this`handed
      ensures Valid() && tempStored && Some((State(), [])) == ClientStep(old(State()), Hand(chunk))
    {
      HandStep(State(), chunk);
      temp, tempStored, handed := chunk, true, handed + chunk;
    }

    /** tcpdc.c:123-148: a chunk is read and offered. */
    method ReadHost(chunk: seq<byte>, ghost c: Client, ghost done: seq<ClientAction>) returns (replies: nat)
      requires Valid() && !tempStored && 1 <= |chunk| <= PKT
      requires ClientOk(c) && Did(c, done, [])
      modifies this, buffer, buffer.head, buffer.nodes, buffer.cirbuffer
      ensures Valid() && Did(c, done + [Hand(chunk), Offer], [])
      ensures replies == if tempStored then 0 else 1
      ensures forall k | 0 <= k < |buffer.nodes| :: buffer.nodes[k] in old(buffer.nodes) || fresh(buffer.nodes[k])
    {
      hide ClientOk, ClientStep, ClientRun, WB.Buffer.Valid;
      ghost var before := State();
      TakeIn(chunk);
      ghost var between := State();
      RunQuietly(c, done, before, [], Hand(chunk), between);
      var replied := OfferTemp();
      RunQuietly(c, done + [Hand(chunk)], between, [], Offer, State());
      assert done + [Hand(chunk)] + [Offer] == done + [Hand(chunk), Offer];
      replies := if replied then 1 else 0;
    }

    /** tcpdc.c:149-161. */
    method AckPass(acks: seq<int>, ghost c: Client, ghost done: seq<ClientAction>)
      requires Valid() && ClientOk(c) && Did(c, done, [])
      modifies buffer, buffer.head, buffer.nodes, buffer.packtimes
      ensures Valid() && Did(c, done + Acks(acks), [])
      ensures Passes.Took(old(buffer.st), buffer.st, acks)
      ensures forall k | 0 <= k < |buffer.nodes| :: buffer.nodes[k] in old(buffer.nodes) || fresh(buffer.nodes[k])
    {
      hide ClientOk, ClientStep, ClientRun, WB.Buffer.Valid, Passes.Took;
      ghost var after := AcksTake(c, done, State(), acks);
      assert acks[..0] == [] && done + Acks([]) == done;
      for i := 0 to |acks|
        invariant Valid() && Did(c, done + Acks(acks[..i]), [])
        invariant forall k | 0 <= k < |buffer.nodes| :: buffer.nodes[k] in old(buffer.nodes) || fresh(buffer.nodes[k])
      {
        ghost var before := State();
        TakeAck(acks[i]);
        RunQuietly(c, done + Acks(acks[..i]), before, [], Ack(acks[i]), State());
        assert acks[..i + 1][..i] == acks[..i];
        assert done + Acks(acks[..i]) + [Ack(acks[i])] == done + Acks(acks[..i + 1]);
      }
      assert acks[..|acks|] == acks;
    }

    method TakeAck(number: int)
      requires Valid()
      modifies buffer, buffer.head, buffer.nodes, buffer.packtimes
      ensures Valid() && Some((State(), [])) == ClientStep(old(State()), Ack(number))
      ensures forall k | 0 <= k < |buffer.nodes| :: buffer.nodes[k] in old(buffer.nodes) || fresh(buffer.nodes[k])
    {
      ClientStepKeeps(State(), Ack(number));
      hide ClientOk, WB.Buffer.Valid;
      var found := buffer.RecvAck(number);
    }

    /** tcpdc.c:162-176. */
    method ExpiryPass(expiries: seq<int>, ghost c: Client, ghost done: seq<ClientAction>)
      requires Valid() && ClientOk(c) && Did(c, done, [])
      modifies buffer`views, buffer`st, buffer.nodes, buffer.packtimes
      ensures Valid() && Did(c, done + Expiries(expiries), []) && buffer.nodes == old(buffer.nodes)
      ensures Passes.PutBack(old(buffer.st), buffer.st, expiries)
    {
      hide ClientOk, ClientStep, ClientRun, WB.Buffer.Valid, Passes.PutBack;
      ghost var after := ExpiriesPutBack(c, done, State(), expiries);
      assert expiries[..0] == [] && done + Expiries([]) == done;
      for i := 0 to |expiries|
        invariant Valid() && Did(c, done + Expiries(expiries[..i]), []) && buffer.nodes == old(buffer.nodes)
      {
        ghost var before := State();
        TakeExpiry(expiries[i]);
        RunQuietly(c, done + Expiries(expiries[..i]), before, [], Expire(expiries[i]), State());
        assert expiries[..i + 1][..i] == expiries[..i];
        assert done + Expiries(expiries[..i]) + [Expire(expiries[i])] == done + Expiries(expiries[..i + 1]);
      }
      assert expiries[..|expiries|] == expiries;
    }

    method TakeExpiry(number: int)
      requires Valid()
      modifies buffer`views, buffer`st, buffer.nodes, buffer.packtimes
      ensures Valid() && Some((State(), [])) == ClientStep(old(State()), Expire(number))
      ensures buffer.nodes == old(buffer.nodes)
    {
      ClientStepKeeps(State(), Expire(number));
      hide ClientOk, WB.Buffer.Valid;
      buffer.TimerExpire(number);
    }

    /** tcpdc.c:178. */
    method SendPass() returns (ok: bool, sent: seq<W.Datagram>)
      requires Valid()
      modifies buffer`views, buffer`st, buffer.nodes, buffer.packtimes
      ensures W.Settled(old(State()).tx) && (ok <==> ClientStep(old(State()), Send).Some?)
      ensures ok ==> Valid() && Some((State(), sent)) == ClientStep(old(State()), Send)
    {
      ghost var before := State();
      assert W.Settled(before.tx);
      if ClientStep(before, Send).Some? { ClientStepKeeps(before, Send); }
      hide ClientOk, WB.Buffer.Valid, W.Settled;
      ok, sent := buffer.SendWindow();
    }

    /** tcpdc.c:107-176: everything before the sending. */
    method GatherPass(host: Option<seq<byte>>, acks: seq<int>, expiries: seq<int>, ghost c: Client)
      returns (replies: nat, read: bool)
      requires Valid() && c == State() && (host.Some? ==> 1 <= |host.value| <= PKT)
      modifies this, buffer, buffer.head, buffer.nodes, buffer.cirbuffer, buffer.packtimes
      ensures Valid() && ClientOk(c) && W.Settled(c.tx)
      ensures Did(c, HostPlan(c, host) + Acks(acks) + Expiries(expiries), [])
      ensures read <==> host.Some? && (c.pending.None? || Fits(c))
      ensures replies + (if tempStored then 1 else 0) == (if c.pending.Some? then 1 else 0) + (if read then 1 else 0)
      ensures forall k | 0 <= k < |buffer.nodes| :: buffer.nodes[k] in old(buffer.nodes) || fresh(buffer.nodes[k])
    {
      hide ClientStep, ClientRun, WB.Buffer.Valid, Fits, HostPlan, W.Settled, Acks, Expiries, HostDone, Passes.Took, Passes.PutBack;
      ghost var done;
      replies, read, done := HostPass(host, c);
      hide ClientOk;
      AckPass(acks, c, done);
      ExpiryPass(expiries, c, done + Acks(acks));
    }

    /** One pass of the client's loop (tcpdc.c:92-179). `ok` is false when the pass runs
        out of send-time slots. */
    method ReceiveAndSend(host: Option<seq<byte>>, acks: seq<int>, expiries: seq<int>)
      returns (ok: bool, replies: nat, read: bool, sent: seq<W.Datagram>)
      requires Valid() && (host.Some? ==> 1 <= |host.value| <= PKT)
      modifies this, buffer, buffer.head, buffer.nodes, buffer.cirbuffer, buffer.packtimes
      ensures ClientOk(old(State()))
      ensures ok <==> ClientRun(old(State()), Plan(old(State()), host, acks, expiries)).Some?
      ensures ok ==> Valid() && Some((State(), sent)) == ClientRun(old(State()), Plan(old(State()), host, acks, expiries))
      ensures ok ==> PassDone(old(State()), State(), host, acks, expiries, sent)
      ensures read <==> host.Some? && (old(State()).pending.None? || Fits(old(State())))
      ensures replies + (if tempStored then 1 else 0) == (if old(tempStored) then 1 else 0) + (if read then 1 else 0)
    {
      hide ClientStep, ClientRun, WB.Buffer.Valid, Fits, HostPlan, W.Settled, Acks, Expiries, PassDone;
      ghost var c := State();
      replies, read := GatherPass(host, acks, expiries, c);
      ghost var before := State();
      RunOn(c, HostPlan(c, host) + Acks(acks) + Expiries(expiries), before, [], Send);
      hide ClientOk;
      ok, sent := SendPass();
      assert [] + sent == sent;
      if ok { PlanPasses(c, host, acks, expiries); }
    }
  }

  lemma OfferStep(c: Client)
    requires ClientOk(c) && c.pending.Some?
    ensures 1 <= |c.pending.value| && W.Settled(c.tx) && W.Shaped(c.tx)
    ensures var (tx, taken) := W.AddData(c.tx, c.pending.value);
      var d := c.(tx := tx, pending := if taken then None else c.pending);
      ClientStep(c, Offer) == Some((d, [])) && ClientOk(d)
  {
    ClientStepKeeps(c, Offer);
  }

  lemma HandStep(c: Client, chunk: seq<byte>)
    requires ClientOk(c) && c.pending.None? && 1 <= |chunk| <= PKT
    ensures var d := c.(pending := Some(chunk), handed := c.handed + chunk);
      ClientStep(c, Hand(chunk)) == Some((d, [])) && ClientOk(d)
  {
    ClientStepKeeps(c, Hand(chunk));
  }

  /** Whether the waiting chunk goes in. */
  lemma FitsMeans(c: Client)
    requires ClientOk(c)
    ensures W.Settled(c.tx)
    ensures Fits(c) <==> c.pending.Some? && ClientStep(c, Offer).Some? && ClientStep(c, Offer).value.0.pending.None?
  {
  }

  class ServerDaemon {
    const buffer: RB.Buffer

    ghost predicate Valid()
      reads this, buffer, buffer.nodes, buffer.buffer
    {
      buffer.Valid()
    }

    constructor ()
      ensures Valid() && buffer.State() == START.rx
    {
      buffer := new RB.Buffer();
    }

    /** tcpds.c:152-191: a full datagram is checked, stored and acknowledged. */
    method RemoteIsSet(d: W.Datagram) returns (ack: Option<int>)
      requires Valid() && |d.data| == PKT && d.packnum < MAXSEQ
      modifies buffer, buffer.nodes, buffer.buffer
      ensures Valid()
      ensures buffer.State() == Deliver(old(buffer.State()), d).0
      ensures ack == if Deliver(old(buffer.State()), d).1 then Some(d.packnum) else None
      ensures forall k | 0 <= k < |buffer.nodes| :: buffer.nodes[k] in old(buffer.nodes) || fresh(buffer.nodes[k])
    {
      hide RB.Buffer.Valid;
      var retcrc := Crc32.Crc32(Crc32.CRC_POLY, d.data);
      var result := 0;
      if retcrc == d.crc {
        result := buffer.AddData(d.packnum, PKT, d.data);
      }
      ack := if result != 0 then Some(d.packnum) else None;
    }

    /** tcpds.c:102-130: the application asks for bytes. */
    method HostIsSet(requestSize: nat) returns (data: seq<byte>)
      requires Valid()
      modifies buffer, buffer.nodes
      ensures Valid() && R.Valid(old(buffer.State()))
      ensures (buffer.State(), data) == R.Read(old(buffer.State()), requestSize)
      ensures forall k | 0 <= k < |buffer.nodes| :: buffer.nodes[k] in old(buffer.nodes)
    {
      hide RB.Buffer.Valid;
      data := buffer.RequestData(requestSize);
    }
  }
}
