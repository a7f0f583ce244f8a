/** The two ends joined by a network that loses, repeats, reorders and damages. */
module Protocol {
  import opened Parameters
  import opened Wrappers
  import Crc32
  import W = Window
  import R = Reassembly
  import Runs = ReassemblyRuns

  // ----- the sending end: tcpdc.c around cbuffer.c

  /** `pending` is a chunk read from the application that did not fit yet; `handed` is
      every byte read from it. */
  datatype Client = Client(tx: W.Sender, pending: Option<seq<byte>>, handed: seq<byte>)

  datatype ClientAction =
    | Hand(chunk: seq<byte>)
    | Offer
    | Ack(number: int)
    | Expire(number: int)
    | Send

  function Pending(c: Client): seq<byte> {
    match c.pending case None => [] case Some(chunk) => chunk
  }

  /** One action of the client and the packets it sends; None when it cannot happen. */
  function ClientStep(c: Client, a: ClientAction): Option<(Client, seq<W.Datagram>)>
    requires W.Settled(c.tx)
  {
    match a
    case Hand(chunk) =>
      if c.pending.None? && 1 <= |chunk| <= PKT
      then Some((c.(pending := Some(chunk), handed := c.handed + chunk), []))
      else None
    case Offer =>
      (match c.pending
       case None => None
       case Some(chunk) =>
         var (tx, taken) := W.AddData(c.tx, chunk);
         Some((c.(tx := tx, pending := if taken then None else c.pending), [])))
    case Ack(n) => Some((c.(tx := W.RecvAck(c.tx, n).0), []))
    case Expire(n) => Some((c.(tx := W.TimerExpire(c.tx, n)), []))
    case Send =>
      (match W.SendWindow(c.tx)
       case None => None
       case Some((tx, sent)) => Some((c.(tx := tx), sent)))
  }

  ghost predicate ClientOk(c: Client) {
    && W.Settled(c.tx)
    && c.handed == c.tx.added + Pending(c)
    && (c.pending.Some? ==> 1 <= |c.pending.value| <= PKT)
  }

  /** The client keeps its buffer settled, sends only packets of the stream, and has every
      byte it was handed either in the stream or waiting, once and in order. */
  lemma ClientStepKeeps(c: Client, a: ClientAction)
    requires ClientOk(c) && ClientStep(c, a).Some?
    ensures var (d, sent) := ClientStep(c, a).value;
      && ClientOk(d)
      && W.Grows(c.tx, d.tx)
      && (forall p | p in sent :: W.Genuine(d.tx, p))
  {
    match a
    case Hand(chunk) =>
    case Offer => W.AddDataSettles(c.tx, c.pending.value);
    case Ack(n) => W.RecvAckSettles(c.tx, n);
    case Expire(n) => W.TimerExpireSettles(c.tx, n);
    case Send => W.SendSettles(c.tx);
  }

  // ----- the receiving end: tcpds.c around sbuffer.c

  /** A full datagram arrives: it is stored if its checksum is right (tcpds.c:155-176). */
  function Deliver(r: R.Receiver, d: W.Datagram): (R.Receiver, bool) {
    if Crc32.Checksum(Crc32.CRC_POLY, d.data) == d.crc then R.Insert(r, d.packnum, d.data) else (r, false)
  }

  // ----- the system

  /** Datagrams and acknowledgements stay in the network until dropped, so they may be
      delivered in any order and any number of times. */
  datatype System = System(client: Client, rx: R.Receiver, net: set<W.Datagram>, acks: set<int>, served: seq<byte>)

  datatype Action =
    | Local(action: ClientAction)
    | Arrive(d: W.Datagram)
    | Damage(d: W.Datagram, data: seq<byte>)
    | Lose(d: W.Datagram)
    | LoseAck(number: int)
    | Read(size: nat)

  const START := System(Client(W.INITIAL, None, []), R.INITIAL, {}, {}, [])

  function AsSet(sent: seq<W.Datagram>): set<W.Datagram> {
    set d | d in sent
  }

  /** A burst of at most 32 bits hits an intact datagram's payload. */
  ghost predicate Hit(d: W.Datagram, data: seq<byte>) {
    d.crc == Crc32.Checksum(Crc32.CRC_POLY, d.data) && Crc32.BurstApart(data, d.data)
  }

  ghost function Step(s: System, a: Action): Option<System>
    requires W.Settled(s.client.tx) && R.Valid(s.rx)
  {
    match a
    case Local(action) =>
      if action.Ack? && action.number !in s.acks then None
      else
        (match ClientStep(s.client, action)
         case None => None
         case Some((client, sent)) => Some(s.(client := client, net := s.net + AsSet(sent))))
    case Arrive(d) =>
      if d in s.net && |d.data| == PKT && d.packnum < MAXSEQ then
        var (rx, ok) := Deliver(s.rx, d);
        Some(s.(rx := rx, acks := if ok then s.acks + {d.packnum} else s.acks))
      else None
    case Damage(d, data) =>
      if d in s.net && Hit(d, data) then Some(s.(net := s.net + {d.(data := data)})) else None
    case Lose(d) => Some(s.(net := s.net - {d}))
    case LoseAck(n) => Some(s.(acks := s.acks - {n}))
    case Read(size) =>
      var (rx, bytes) := R.Read(s.rx, size);
      Some(s.(rx := rx, served := s.served + bytes))
  }

  // ----- the invariant

  /** The receiver has packet n, or has served it. */
  predicate Received(r: R.Receiver, n: int) {
    n in r.store || 1 <= n < r.dstart
  }

  /** A datagram carries a packet of the stream, perhaps damaged by one burst, under the
      packet's own checksum. */
  ghost predicate Carries(tx: W.Sender, d: W.Datagram) {
    && W.Shaped(tx)
    && 1 <= d.packnum < |tx.cuts|
    && d.crc == Crc32.Checksum(Crc32.CRC_POLY, W.Packet(tx, d.packnum))
    && (d.data == W.Packet(tx, d.packnum) || Crc32.BurstApart(d.data, W.Packet(tx, d.packnum)))
  }

  /** The first k packets take k * PKT bytes. */
  predicate FullUpTo(tx: W.Sender, k: int) {
    0 <= k < |tx.cuts| && tx.cuts[k] == k * PKT
  }

  /** What the receiver holds are packets of the stream, and all up to the end of its
      front block are full. */
  ghost predicate Agrees(tx: W.Sender, r: R.Receiver) {
    && W.Shaped(tx)
    && R.Valid(r)
    && (forall s | s in r.store :: 1 <= s < |tx.cuts| && r.store[s] == W.Packet(tx, s))
    && (forall k | 0 <= k < r.dstart :: FullUpTo(tx, k))
  }

  /** Only packets the receiver has are released, or count as acknowledged. */
  ghost predicate Honest(tx: W.Sender, r: R.Receiver) {
    && (forall n | 1 <= n <= tx.base :: Received(r, n))
    && (forall n | W.Outstanding(tx, n) && tx.acks[n - 1 - tx.base] == 2 :: Received(r, n))
  }

  ghost predicate AcksHonest(acks: set<int>, r: R.Receiver) {
    forall n | n in acks :: Received(r, n)
  }

  ghost predicate Served(tx: W.Sender, r: R.Receiver, served: seq<byte>) {
    |served| == Runs.Position(r) && served <= tx.added
  }

  ghost predicate Inv(s: System) {
    && ClientOk(s.client)
    && Agrees(s.client.tx, s.rx)
    && (forall d | d in s.net :: Carries(s.client.tx, d))
    && Honest(s.client.tx, s.rx)
    && AcksHonest(s.acks, s.rx)
    && Served(s.client.tx, s.rx, s.served)
  }

  // ----- client actions keep it

  lemma CarriesStays(s: W.Sender, t: W.Sender, d: W.Datagram)
    requires Carries(s, d) && W.Shaped(t) && W.Grows(s, t)
    ensures Carries(t, d)
  {
    W.PacketsStay(s, t, d.packnum);
  }

  lemma AgreesStays(s: W.Sender, t: W.Sender, r: R.Receiver)
    requires Agrees(s, r) && W.Shaped(t) && W.Grows(s, t)
    ensures Agrees(t, r)
  {
    forall n | n in r.store
      ensures 1 <= n < |t.cuts| && r.store[n] == W.Packet(t, n)
    {
      W.PacketsStay(s, t, n);
    }
    forall k | 0 <= k < r.dstart
      ensures FullUpTo(t, k)
    {
      assert FullUpTo(s, k);
    }
  }

  lemma ReleaseOneHonest(s: W.Sender, r: R.Receiver)
    requires Honest(s, r) && W.Releasable(s) && 0 <= s.base
    ensures Honest(W.ReleaseOne(s), r)
  {
    var t := W.ReleaseOne(s);
    assert W.Outstanding(s, s.base + 1);
    forall n | W.Outstanding(t, n) && t.acks[n - 1 - t.base] == 2
      ensures Received(r, n)
    {
      assert W.Outstanding(s, n) && s.acks[n - 1 - s.base] == 2;
    }
  }

  lemma {:induction false} ReleaseHonest(s: W.Sender, r: R.Receiver)
    requires Honest(s, r) && 0 <= s.base
    ensures Honest(W.Release(s), r)
    decreases |s.acks|
  {
    hide Honest;
    if !W.Releasable(s) {
    } else {
      ReleaseOneHonest(s, r);
      ReleaseHonest(W.ReleaseOne(s), r);
    }
  }

  lemma AppendedHonest(s: W.Sender, t: W.Sender, r: R.Receiver)
    requires Honest(s, r) && t.base == s.base && s.acks <= t.acks
    requires forall i | |s.acks| <= i < |t.acks| :: t.acks[i] == 0
    ensures Honest(t, r)
  {
    forall n | W.Outstanding(t, n) && t.acks[n - 1 - t.base] == 2
      ensures Received(r, n)
    {
      assert W.Outstanding(s, n) && s.acks[n - 1 - s.base] == 2;
    }
  }

  lemma CheckWindowHonest(s: W.Sender, r: R.Receiver)
    requires W.Shaped(s) && W.Covered(s) <= W.Reach(s) && Honest(s, r)
    ensures Honest(W.CheckWindow(s), r)
  {
    hide Honest, W.Extend, W.Release;
    W.ReleaseShaped(s);
    ReleaseHonest(s, r);
    W.ExtendShaped(W.Release(s));
    AppendedHonest(W.Release(s), W.Extend(W.Release(s)), r);
  }

  lemma AddDataHonest(s: W.Sender, chunk: seq<byte>, r: R.Receiver)
    requires W.Settled(s) && Honest(s, r)
    ensures Honest(W.AddData(s, chunk).0, r)
  {
    if |chunk| <= CAP - W.Held(s) {
      var a := W.Appended(s, chunk);
      assert W.Shaped(a) && W.Covered(a) <= W.Reach(a);
      AppendedHonest(s, a, r);
      CheckWindowHonest(a, r);
    } else {
      CheckWindowHonest(s, r);
    }
  }

  lemma SetAckHonest(s: W.Sender, n: int, ack: int, r: R.Receiver)
    requires Honest(s, r) && (ack == 2 ==> Received(r, n))
    ensures Honest(W.SetAck(s, n, ack), r)
  {
    var t := W.SetAck(s, n, ack);
    forall m | W.Outstanding(t, m) && t.acks[m - 1 - t.base] == 2
      ensures Received(r, m)
    {
      assert m != n ==> s.acks[m - 1 - s.base] == 2;
    }
  }

  lemma RecvAckHonest(s: W.Sender, n: int, r: R.Receiver)
    requires W.Settled(s) && Honest(s, r) && Received(r, n)
    ensures Honest(W.RecvAck(s, n).0, r)
  {
    W.RecvAckParts(s, n);
    var t := W.FreeSlot(s, n);
    AppendedHonest(s, t, r);
    hide Honest, W.Shaped, W.RecvAck, W.FreeSlot, W.SetAck, W.CheckWindow;
    SetAckHonest(t, n, 2, r);
    if W.Outstanding(s, n) {
      CheckWindowHonest(W.SetAck(t, n, 2), r);
    }
  }

  lemma ExpireHonest(s: W.Sender, n: int, r: R.Receiver)
    requires Honest(s, r)
    ensures Honest(W.TimerExpire(s, n), r)
  {
    SetAckHonest(s, n, 0, r);
    var t := W.SetAck(s, n, 0);
    AppendedHonest(t, W.TimerExpire(s, n), r);
  }

  lemma SendHonest(s: W.Sender, r: R.Receiver)
    requires W.Shaped(s) && Honest(s, r) && W.SendWindow(s).Some?
    ensures Honest(W.SendWindow(s).value.0, r)
  {
    W.SendFromSettles(s, 0);
    var t := W.SendWindow(s).value.0;
    forall m | W.Outstanding(t, m) && t.acks[m - 1 - t.base] == 2
      ensures Received(r, m)
    {
      assert W.Outstanding(s, m) && s.acks[m - 1 - s.base] == 2;
    }
  }

  lemma ClientStepHonest(c: Client, a: ClientAction, r: R.Receiver)
    requires W.Settled(c.tx) && Honest(c.tx, r) && ClientStep(c, a).Some?
    requires a.Ack? ==> Received(r, a.number)
    ensures Honest(ClientStep(c, a).value.0.tx, r)
  {
    hide Honest;
    match a
    case Hand(chunk) =>
    case Offer => AddDataHonest(c.tx, c.pending.value, r);
    case Ack(n) => RecvAckHonest(c.tx, n, r);
    case Expire(n) => ExpireHonest(c.tx, n, r);
    case Send => SendHonest(c.tx, r);
  }

  lemma GenuineCarries(tx: W.Sender, d: W.Datagram)
    requires W.Shaped(tx) && W.Genuine(tx, d)
    ensures Carries(tx, d)
  {
  }

  lemma LocalKeeps(s: System, action: ClientAction)
    requires Inv(s) && Step(s, Local(action)).Some?
    ensures Inv(Step(s, Local(action)).value)
  {
    var (client, sent) := ClientStep(s.client, action).value;
    ClientStepKeeps(s.client, action);
    ClientStepHonest(s.client, action, s.rx);
    AgreesStays(s.client.tx, client.tx, s.rx);
    hide Honest, Agrees, Carries, ClientStep, W.Genuine;
    forall d | d in s.net + AsSet(sent)
      ensures Carries(client.tx, d)
    {
      if d in s.net {
        CarriesStays(s.client.tx, client.tx, d);
      } else {
        GenuineCarries(client.tx, d);
      }
    }
  }

  // ----- deliveries and reads keep it

  lemma InsertReceived(r: R.Receiver, s: int, packet: seq<byte>)
    requires R.Valid(r) && |packet| == PKT && s < MAXSEQ
    ensures var (t, ok) := R.Insert(r, s, packet);
      && R.Valid(t) && t.dstart == r.dstart && t.off == r.off
      && (forall n | Received(r, n) :: Received(t, n))
      && (ok ==> Received(t, s))
      && (forall n | n in t.store :: (n in r.store && t.store[n] == r.store[n]) || (ok && n == s && t.store[n] == packet))
  {
    if R.Acceptable(r, s) { Runs.InsertKeepsValid(r, s, packet); }
  }

  /** A datagram whose checksum is right carries its packet undamaged. */
  lemma RightChecksumIsIntact(tx: W.Sender, d: W.Datagram)
    requires Carries(tx, d) && Crc32.Checksum(Crc32.CRC_POLY, d.data) == d.crc
    ensures d.data == W.Packet(tx, d.packnum)
  {
    var packet := W.Packet(tx, d.packnum);
    if Crc32.BurstApart(d.data, packet) {
      Crc32.BurstsAreDetected(Crc32.CRC_POLY, d.data, packet);
    }
  }

  /** A packet of the stream arrives unchanged. */
  lemma InsertKeeps(tx: W.Sender, r: R.Receiver, acks: set<int>, n: int, packet: seq<byte>)
    requires Agrees(tx, r) && Honest(tx, r) && AcksHonest(acks, r)
    requires 1 <= n < |tx.cuts| && n < MAXSEQ && packet == W.Packet(tx, n) && |packet| == PKT
    ensures var (t, ok) := R.Insert(r, n, packet);
      && Agrees(tx, t) && Honest(tx, t)
      && AcksHonest(if ok then acks + {n} else acks, t)
      && Runs.Position(t) == Runs.Position(r)
  {
    InsertReceived(r, n, packet);
    hide R.Valid, W.Packet, W.Shaped;
  }

  lemma ArriveKeeps(s: System, d: W.Datagram)
    requires Inv(s) && Step(s, Arrive(d)).Some?
    ensures Inv(Step(s, Arrive(d)).value)
  {
    assert W.Settled(s.client.tx) && R.Valid(s.rx);
    if Crc32.Checksum(Crc32.CRC_POLY, d.data) == d.crc {
      assert Carries(s.client.tx, d);
      RightChecksumIsIntact(s.client.tx, d);
      hide Agrees, Honest, AcksHonest, Carries, ClientOk, R.Insert, R.Valid, W.Settled, W.Packet, W.Shaped;
      InsertKeeps(s.client.tx, s.rx, s.acks, d.packnum, d.data);
    }
  }

  /** The packets s to e - 1 are held, and are the stream's. */
  ghost predicate HoldsPackets(tx: W.Sender, store: map<int, seq<byte>>, s: int, e: int) {
    W.Shaped(tx) && forall k | s <= k < e :: k in store && 1 <= k < |tx.cuts| && store[k] == W.Packet(tx, k)
  }

  lemma HoldsNext(tx: W.Sender, store: map<int, seq<byte>>, s: int, e: int)
    requires HoldsPackets(tx, store, s, e) && R.FullPackets(store) && 1 <= s < e && FullUpTo(tx, s - 1)
    ensures HoldsPackets(tx, store, s + 1, e) && FullUpTo(tx, s) && s * PKT <= |tx.added|
    ensures s in store && store[s] == tx.added[(s - 1) * PKT..s * PKT]
  {
    assert s in store && |store[s]| == PKT;
    FullPacketSlice(tx, s);
  }

  lemma FullBound(tx: W.Sender, store: map<int, seq<byte>>, s: int, e: int)
    requires HoldsPackets(tx, store, s, e) && FullUpTo(tx, s - 1)
    ensures 0 <= (s - 1) * PKT <= |tx.added|
  {
    W.CutsAscend(tx, s - 1, |tx.cuts| - 1);
  }

  /** Joined, they are that slice of the stream. */
  lemma {:induction false} JoinedIsSlice(tx: W.Sender, store: map<int, seq<byte>>, s: int, e: int)
    requires R.FullPackets(store) && 1 <= s <= e && (forall k | s <= k < e :: k in store)
    requires HoldsPackets(tx, store, s, e) && FullUpTo(tx, s - 1)
    ensures (e - 1) * PKT <= |tx.added|
    ensures R.Joined(store, s, e) == tx.added[(s - 1) * PKT..(e - 1) * PKT]
    ensures forall k | s - 1 <= k < e :: FullUpTo(tx, k)
    decreases e - s
  {
    hide HoldsPackets, R.FullPackets, FullUpTo;
    if s == e {
      FullBound(tx, store, s, e);
    } else {
      HoldsNext(tx, store, s, e);
      JoinedIsSlice(tx, store, s + 1, e);
      SliceSplits(tx.added, (s - 1) * PKT, s * PKT, (e - 1) * PKT);
    }
  }

  lemma SliceSplits(a: seq<byte>, i: int, j: int, k: int)
    requires 0 <= i <= j <= k <= |a|
    ensures a[i..k] == a[i..j] + a[j..k]
  {
  }

  lemma SlicePrefix(a: seq<byte>, i: int, j: int, n: nat)
    requires 0 <= i <= i + n <= j <= |a|
    ensures a[i..j][..n] == a[i..i + n]
  {
  }

  lemma FullPacketSlice(tx: W.Sender, s: int)
    requires W.Shaped(tx) && 1 <= s < |tx.cuts|
    requires FullUpTo(tx, s - 1) && |W.Packet(tx, s)| == PKT
    ensures FullUpTo(tx, s) && s * PKT <= |tx.added|
    ensures W.Packet(tx, s) == tx.added[(s - 1) * PKT..s * PKT]
  {
    PacketSlice(tx, s);
  }

  lemma PacketSlice(tx: W.Sender, s: int)
    requires W.Shaped(tx) && 1 <= s < |tx.cuts|
    ensures 0 <= tx.cuts[s - 1] <= tx.cuts[s] <= |tx.added|
    ensures W.Packet(tx, s) == tx.added[tx.cuts[s - 1]..tx.cuts[s]]
  {
    W.CutsAscend(tx, s - 1, s);
    W.CutsAscend(tx, 0, s - 1);
    W.CutsAscend(tx, s, |tx.cuts| - 1);
  }

  /** What can be served next is the stream from the reader's position on. */
  lemma AvailableIsStream(tx: W.Sender, r: R.Receiver)
    requires Agrees(tx, r)
    ensures 0 <= Runs.Position(r) <= (R.BlockEnd(r) - 1) * PKT <= |tx.added|
    ensures R.Available(r) == tx.added[Runs.Position(r)..(R.BlockEnd(r) - 1) * PKT]
    ensures forall k | 0 <= k < R.BlockEnd(r) :: FullUpTo(tx, k)
  {
    var d, e := r.dstart, R.BlockEnd(r);
    assert FullUpTo(tx, d - 1);
    JoinedIsSlice(tx, r.store, d, e);
    assert forall k | 0 <= k < d :: FullUpTo(tx, k);
    BlockPosition(r);
    var slice := tx.added[(d - 1) * PKT..(e - 1) * PKT];
    assert R.Available(r) == slice[r.off..];
    hide R.Available, R.Joined, R.Valid, W.Shaped, R.BlockEnd;
    assert slice[r.off..] == tx.added[Runs.Position(r)..(e - 1) * PKT];
  }

  lemma BlockPosition(r: R.Receiver)
    requires R.Valid(r)
    ensures 0 <= r.off <= (R.BlockEnd(r) - r.dstart) * PKT
    ensures 0 <= Runs.Position(r) <= (R.BlockEnd(r) - 1) * PKT
  {
  }

  lemma ReadReceived(r: R.Receiver, n: int)
    requires R.Valid(r) && r.dstart in r.store && Received(r, n)
    ensures Received(R.Receiver(R.BlockEnd(r), 0, R.DropBelow(r.store, R.BlockEnd(r))), n)
  {
  }

  lemma WholeBlockAgrees(tx: W.Sender, r: R.Receiver)
    requires Agrees(tx, r) && r.dstart in r.store
    ensures Agrees(tx, R.Receiver(R.BlockEnd(r), 0, R.DropBelow(r.store, R.BlockEnd(r))))
  {
    AvailableIsStream(tx, r);
    Runs.BlockEndMissing(r);
    Runs.BlockEndAtLeast(r, r.dstart + 1);
    var t := R.Receiver(R.BlockEnd(r), 0, R.DropBelow(r.store, R.BlockEnd(r)));
    Runs.EmptyBlock(t);
    assert R.BlockEnd(r) - 1 in r.store;
  }

  lemma PartAgrees(tx: W.Sender, r: R.Receiver, n: nat)
    requires Agrees(tx, r) && n < |R.Available(r)|
    ensures Agrees(tx, r.(off := r.off + n))
  {
    AvailableIsStream(tx, r);
    var t := r.(off := r.off + n);
    assert R.BlockEnd(t) == R.BlockEnd(r);
  }

  lemma ReceivedStays(tx: W.Sender, acks: set<int>, r: R.Receiver, t: R.Receiver)
    requires Honest(tx, r) && AcksHonest(acks, r) && forall n | Received(r, n) :: Received(t, n)
    ensures Honest(tx, t) && AcksHonest(acks, t)
  {
    hide Received;
  }

  lemma ServedNext(tx: W.Sender, r: R.Receiver, t: R.Receiver, served: seq<byte>, bytes: seq<byte>)
    requires Served(tx, r, served) && Runs.Position(r) <= Runs.Position(t) <= |tx.added|
    requires bytes == tx.added[Runs.Position(r)..Runs.Position(t)]
    ensures Served(tx, t, served + bytes)
  {
    var p := Runs.Position(r);
    assert served == tx.added[..p];
    assert tx.added[..Runs.Position(t)] == tx.added[..p] + bytes;
  }

  lemma ReadWholeKeeps(s: System)
    requires Inv(s) && s.rx.dstart in s.rx.store
    ensures Inv(s.(rx := R.Receiver(R.BlockEnd(s.rx), 0, R.DropBelow(s.rx.store, R.BlockEnd(s.rx))),
                   served := s.served + R.Available(s.rx)))
  {
    var r, tx, e := s.rx, s.client.tx, R.BlockEnd(s.rx);
    var t := R.Receiver(e, 0, R.DropBelow(r.store, e));
    assert Agrees(tx, r) && R.Valid(r);
    assert Runs.Position(t) == (e - 1) * PKT;
    hide Agrees, Honest, AcksHonest, Served, Carries, Received, ClientOk, R.Available, R.DropBelow, R.BlockEnd, R.Valid, Runs.Position;
    AvailableIsStream(tx, r);
    WholeBlockAgrees(tx, r);
    forall n | Received(r, n)
      ensures Received(t, n)
    {
      ReadReceived(r, n);
    }
    ReceivedStays(tx, s.acks, r, t);
    ServedNext(tx, r, t, s.served, R.Available(r));
  }

  lemma PartReads(r: R.Receiver, size: nat)
    requires R.Valid(r)
    ensures var t := r.(off := r.off + size);
      && Runs.Position(t) == Runs.Position(r) + size
      && forall n :: Received(t, n) <==> Received(r, n)
  {
  }

  lemma PartKeeps(tx: W.Sender, acks: set<int>, r: R.Receiver, served: seq<byte>, size: nat)
    requires R.Valid(r) && Agrees(tx, r) && Honest(tx, r) && AcksHonest(acks, r) && Served(tx, r, served)
    requires size < |R.Available(r)|
    ensures var t := r.(off := r.off + size);
      && Agrees(tx, t) && Honest(tx, t) && AcksHonest(acks, t)
      && Served(tx, t, served + R.Available(r)[..size])
  {
    hide Agrees, Honest, AcksHonest, Served, Received, R.Available, R.BlockEnd, R.Valid, Runs.Position;
    var t := r.(off := r.off + size);
    PartReads(r, size);
    AvailableIsStream(tx, r);
    PartAgrees(tx, r, size);
    ReceivedStays(tx, acks, r, t);
    SlicePrefix(tx.added, Runs.Position(r), (R.BlockEnd(r) - 1) * PKT, size);
    ServedNext(tx, r, t, served, R.Available(r)[..size]);
  }

  lemma ReadPartKeeps(s: System, size: nat)
    requires Inv(s) && size < |R.Available(s.rx)|
    ensures Inv(s.(rx := s.rx.(off := s.rx.off + size), served := s.served + R.Available(s.rx)[..size]))
  {
    assert R.Valid(s.rx);
    hide Agrees, Honest, AcksHonest, Served, Carries, ClientOk, R.Available, R.Valid;
    PartKeeps(s.client.tx, s.acks, s.rx, s.served, size);
  }

  lemma ReadKeeps(s: System, size: nat)
    requires Inv(s)
    ensures Inv(Step(s, Read(size)).value)
  {
    assert W.Settled(s.client.tx) && R.Valid(s.rx);
    hide Inv, Agrees, R.Available, R.Valid, W.Settled;
    if s.rx.dstart !in s.rx.store {
      assert Step(s, Read(size)).value == s by { assert s.served + [] == s.served; }
    } else if |R.Available(s.rx)| <= size {
      ReadWholeKeeps(s);
    } else {
      ReadPartKeeps(s, size);
    }
  }

  lemma DamageKeeps(s: System, d: W.Datagram, data: seq<byte>)
    requires Inv(s) && Step(s, Damage(d, data)).Some?
    ensures Inv(Step(s, Damage(d, data)).value)
  {
    RightChecksumIsIntact(s.client.tx, d);
    assert Carries(s.client.tx, d.(data := data));
  }

  lemma StepKeeps(s: System, a: Action)
    requires Inv(s)
    ensures Step(s, a).Some? ==> Inv(Step(s, a).value)
  {
    if Step(s, a).Some? {
      match a
      case Local(action) => LocalKeeps(s, action);
      case Arrive(d) => ArriveKeeps(s, d);
      case Damage(d, data) => DamageKeeps(s, d, data);
      case Lose(d) =>
      case LoseAck(n) =>
      case Read(size) => ReadKeeps(s, size);
    }
  }

  // ----- whole runs

  ghost function KeptStep(s: System, a: Action): (t: Option<System>)
    requires Inv(s)
    ensures t.Some? ==> Inv(t.value)
  {
    StepKeeps(s, a);
    Step(s, a)
  }

  /** The system after the actions, if each of them can happen in its turn. */
  ghost function Run(actions: seq<Action>): (s: Option<System>)
    ensures s.Some? ==> Inv(s.value)
    decreases |actions|
  {
    if actions == [] then Some(START)
    else
      var before := Run(actions[..|actions| - 1]);
      if before.None? then None else KeptStep(before.value, actions[|actions| - 1])
  }

  /** End to end: whatever the network does, the bytes served to the application are a
      prefix of the bytes the sending application handed over - in order, none repeated,
      none skipped - and as many as the reader's position says. */
  lemma ServedIsAPrefix(actions: seq<Action>)
    requires Run(actions).Some?
    ensures var s := Run(actions).value;
      && s.served <= s.client.tx.added
      && s.served <= s.client.handed
      && s.client.handed == s.client.tx.added + Pending(s.client)
      && |s.served| == Runs.Position(s.rx)
  {
    hide Agrees, Honest, W.Settled;
    assert Inv(Run(actions).value);
  }

  /** In every run a read can be done at any time; it serves the next bytes asked for of the
      packets held without a gap, or all there are. */
  lemma ReadServes(actions: seq<Action>, size: nat, e: int)
    requires Run(actions).Some? && Runs.HeldUpTo(Run(actions).value.rx, e)
    ensures Run(actions + [Read(size)]).Some?
    ensures var s, t := Run(actions).value, Run(actions + [Read(size)]).value;
      && t.client == s.client && t.net == s.net && t.acks == s.acks
      && Runs.GrowsBy(s.rx, size, e, s.served, t.served)
  {
    assert (actions + [Read(size)])[..|actions|] == actions;
    var s := Run(actions).value;
    assert W.Settled(s.client.tx) && R.Valid(s.rx);
    Runs.ReadGrows(s.rx, size, e, s.served);
    hide Inv, R.Read, Runs.GrowsBy, Runs.HeldUpTo, W.Settled, R.Valid;
  }

  /** No premature release: a packet the sender has dropped from its ring is held by the
      receiver or has been served. */
  lemma ReleasedIsReceived(actions: seq<Action>, n: int)
    requires Run(actions).Some?
    requires 1 <= n <= Run(actions).value.client.tx.base
    ensures Received(Run(actions).value.rx, n)
  {
    hide Agrees, W.Settled;
    assert Inv(Run(actions).value);
  }

  /** Nothing is lost: every packet ever cut is still with the sender or has reached the
      receiver, and what the receiver holds under a number is that packet. */
  lemma NothingIsLost(actions: seq<Action>, n: int)
    requires Run(actions).Some?
    requires W.Shaped(Run(actions).value.client.tx)
    requires 1 <= n < |Run(actions).value.client.tx.cuts|
    ensures var s := Run(actions).value;
      && (W.Outstanding(s.client.tx, n) || Received(s.rx, n))
      && (n in s.rx.store ==> s.rx.store[n] == W.Packet(s.client.tx, n))
  {
    var s := Run(actions).value;
    hide W.Packet;
    if !W.Outstanding(s.client.tx, n) {
      ReleasedIsReceived(actions, n);
    }
  }

  /** Whatever is in the network: a datagram whose payload is not its packet's is neither
      stored nor acknowledged, whenever and however often it comes. */
  lemma DamagedIsNeverStored(actions: seq<Action>, d: W.Datagram)
    requires Run(actions).Some? && d in Run(actions).value.net
    ensures var s := Run(actions).value;
      && W.Shaped(s.client.tx) && 1 <= d.packnum < |s.client.tx.cuts|
      && (d.data != W.Packet(s.client.tx, d.packnum) ==> Deliver(s.rx, d) == (s.rx, false))
  {
    var s := Run(actions).value;
    assert Carries(s.client.tx, d);
    hide W.Packet;
    if Crc32.Checksum(Crc32.CRC_POLY, d.data) == d.crc {
      RightChecksumIsIntact(s.client.tx, d);
    }
  }
}
