/** What the sender buffer of cbuffer.c does, without its list and ring.

    `added` is every byte ever accepted. `cuts[k]` is where packet k+1 starts in it, so
    packet n is added[cuts[n-1]..cuts[n]] and cuts has one entry more than there are
    packets. The first `base` packets are released; `acks` has one entry for each of the
    others: 0 to be sent, 1 sent, 2 acknowledged. `slots` is the table of send times. */
module Window {
  import opened Parameters
  import opened Wrappers
  import Crc32

  datatype Slot = Slot(bsn: int, on: bool)

  datatype Sender = Sender(added: seq<byte>, cuts: seq<int>, base: int, acks: seq<int>, slots: seq<Slot>)

  const SLOTS: int := 20

  function Unused(n: nat): (slots: seq<Slot>)
    ensures |slots| == n && forall i | 0 <= i < n :: slots[i] == Slot(0, false)
  {
    if n == 0 then [] else Unused(n - 1) + [Slot(0, false)]
  }

  const INITIAL := Sender([], [0], 0, [], Unused(SLOTS))

  function Min(a: int, b: int): int {
    if a < b then a else b
  }

  /** Every packet has between one byte and PKT. */
  ghost predicate Stepped(cuts: seq<int>) {
    forall k | 0 <= k < |cuts| - 1 :: 1 <= cuts[k + 1] - cuts[k] <= PKT
  }

  lemma SteppedAppend(cuts: seq<int>, size: int)
    requires |cuts| > 0 && Stepped(cuts) && 1 <= size <= PKT
    ensures Stepped(cuts + [cuts[|cuts| - 1] + size])
  {
  }

  ghost predicate Shaped(s: Sender) {
    && 0 <= s.base
    && |s.cuts| == s.base + |s.acks| + 1
    && s.cuts[0] == 0
    && Stepped(s.cuts)
    && s.cuts[|s.cuts| - 1] <= |s.added|
    && |s.added| - s.cuts[s.base] <= CAP
    && (forall i | 0 <= i < |s.acks| :: 0 <= s.acks[i] <= 2)
    && |s.slots| == SLOTS
  }

  /** Bytes added and not released. */
  function Held(s: Sender): int
    requires 0 <= s.base < |s.cuts|
  {
    |s.added| - s.cuts[s.base]
  }

  /** Bytes laid out as packets and not released. */
  function Covered(s: Sender): int
    requires 0 <= s.base < |s.cuts|
  {
    s.cuts[|s.cuts| - 1] - s.cuts[s.base]
  }

  function Reach(s: Sender): int
    requires 0 <= s.base < |s.cuts|
  {
    Min(WIN, Held(s))
  }

  lemma {:induction false} CutsAscend(s: Sender, i: int, j: int)
    requires Shaped(s) && 0 <= i <= j < |s.cuts|
    ensures j - i <= s.cuts[j] - s.cuts[i] <= (j - i) * PKT
    decreases j - i
  {
    if i == j {
    } else {
      CutsAscend(s, i, j - 1);
      assert 1 <= s.cuts[j - 1 + 1] - s.cuts[j - 1] <= PKT;
    }
  }

  /** The bytes of packet n. */
  function Packet(s: Sender, n: int): seq<byte>
    requires Shaped(s) && 1 <= n < |s.cuts|
  {
    CutsAscend(s, n - 1, n);
    CutsAscend(s, 0, n - 1);
    CutsAscend(s, n, |s.cuts| - 1);
    s.added[s.cuts[n - 1]..s.cuts[n]]
  }

  /** Bytes and cuts are only ever appended, and packets only ever released. */
  ghost predicate Grows(s: Sender, t: Sender) {
    s.added <= t.added && s.cuts <= t.cuts && s.base <= t.base
  }

  /** A packet, once cut, keeps its bytes. */
  lemma PacketsStay(s: Sender, t: Sender, n: int)
    requires Shaped(s) && Shaped(t) && Grows(s, t) && 1 <= n < |s.cuts|
    ensures Packet(s, n) == Packet(t, n)
  {
    CutsAscend(s, n, |s.cuts| - 1);
    CutsAscend(s, n - 1, n);
    CutsAscend(s, 0, n - 1);
    hide Shaped;
    assert s.cuts[n] == t.cuts[n] && s.cuts[n - 1] == t.cuts[n - 1];
    assert s.added[s.cuts[n - 1]..s.cuts[n]] == t.added[s.cuts[n - 1]..s.cuts[n]];
  }

  // ----- checkWindow

  ghost predicate Releasable(s: Sender) {
    |s.acks| > 0 && s.acks[0] == 2
  }

  function ReleaseOne(s: Sender): Sender
    requires |s.acks| > 0
  {
    s.(base := s.base + 1, acks := s.acks[1..])
  }

  lemma ReleaseOneShaped(s: Sender)
    requires Shaped(s) && |s.acks| > 0
    ensures Shaped(ReleaseOne(s)) && Grows(s, ReleaseOne(s)) && 0 <= s.base < |s.cuts| - 1
    ensures Held(s) - PKT <= Held(ReleaseOne(s)) < Held(s)
    ensures Held(s) - Held(ReleaseOne(s)) == Covered(s) - Covered(ReleaseOne(s))
  {
    assert 1 <= s.cuts[s.base + 1] - s.cuts[s.base] <= PKT;
  }

  /** Acknowledged packets at the front are released. */
  function Release(s: Sender): Sender
    decreases |s.acks|
  {
    if |s.acks| > 0 && s.acks[0] == 2 then Release(ReleaseOne(s)) else s
  }

  function ExtendOne(s: Sender): Sender
    requires 0 <= s.base < |s.cuts|
  {
    var last := s.cuts[|s.cuts| - 1];
    s.(cuts := s.cuts + [last + Min(PKT, Reach(s) - Covered(s))], acks := s.acks + [0])
  }

  lemma ExtendOneShaped(s: Sender)
    requires Shaped(s) && Covered(s) < Reach(s)
    ensures Shaped(ExtendOne(s)) && Grows(s, ExtendOne(s))
    ensures Held(ExtendOne(s)) == Held(s) && Reach(ExtendOne(s)) == Reach(s)
    ensures Covered(ExtendOne(s)) == Covered(s) + Min(PKT, Reach(s) - Covered(s)) <= Reach(s)
  {
    hide Stepped;
    SteppedAppend(s.cuts, Min(PKT, Reach(s) - Covered(s)));
  }

  /** New packets are cut until they cover the window or all that is held. */
  function Extend(s: Sender): Sender
    requires 0 <= s.base < |s.cuts|
    decreases Reach(s) - Covered(s)
  {
    if Covered(s) < Reach(s) then Extend(ExtendOne(s)) else s
  }

  function CheckWindow(s: Sender): Sender
    requires Shaped(s)
  {
    ReleaseShaped(s);
    Extend(Release(s))
  }

  lemma {:induction false} ReleaseShaped(s: Sender)
    requires Shaped(s) && 0 <= s.base < |s.cuts|
    ensures Shaped(Release(s)) && Grows(s, Release(s)) && 0 <= Release(s).base < |s.cuts|
    ensures !Releasable(Release(s))
    ensures Release(s).added == s.added && Release(s).cuts == s.cuts && Release(s).slots == s.slots
    ensures Reach(s) >= Covered(s) ==> Reach(Release(s)) >= Covered(Release(s))
    decreases |s.acks|
  {
    hide Shaped;
    if !Releasable(s) {
    } else {
      ReleaseOneShaped(s);
      ReleaseShaped(ReleaseOne(s));
    }
  }

  lemma {:induction false} ExtendShaped(s: Sender)
    requires Shaped(s) && Covered(s) <= Reach(s)
    ensures Shaped(Extend(s)) && Grows(s, Extend(s))
    ensures Covered(Extend(s)) == Reach(Extend(s)) == Reach(s)
    ensures Extend(s).added == s.added && Extend(s).base == s.base && Extend(s).slots == s.slots
    ensures s.acks <= Extend(s).acks && forall i | |s.acks| <= i < |Extend(s).acks| :: Extend(s).acks[i] == 0
    decreases Reach(s) - Covered(s)
  {
    if Covered(s) >= Reach(s) {
    } else {
      ExtendOneShaped(s);
      ExtendShaped(ExtendOne(s));
    }
  }

  /** Of the packets cut in one call every one but the last takes a full packet's bytes. */
  lemma {:induction false} NewPacketsAreFull(s: Sender)
    requires Shaped(s) && Covered(s) <= Reach(s)
    ensures s.cuts <= Extend(s).cuts
    ensures forall k | |s.cuts| <= k && k + 1 < |Extend(s).cuts| :: Extend(s).cuts[k] - Extend(s).cuts[k - 1] == PKT
    decreases Reach(s) - Covered(s)
  {
    if Covered(s) < Reach(s) {
      var t := ExtendOne(s);
      ExtendOneShaped(s);
      hide Shaped, ExtendOne;
      NewPacketsAreFull(t);
      LastCut(s);
      if Covered(t) >= Reach(t) {
        assert Extend(t) == t;
      }
    } else {
    }
  }

  lemma LastCut(s: Sender)
    requires Shaped(s) && Covered(s) < Reach(s)
    ensures var t, n := ExtendOne(s), |s.cuts|;
      && |t.cuts| == n + 1 && t.cuts[..n] == s.cuts
      && t.cuts[n] - t.cuts[n - 1] == Min(PKT, Reach(s) - Covered(s))
  {
  }

  /** The state between calls: the packets tile exactly the window or all that is held,
      and the front packet is not acknowledged. */
  ghost predicate Settled(s: Sender) {
    Shaped(s) && Covered(s) == Reach(s) && !Releasable(s)
  }

  lemma SettledIsShaped(s: Sender)
    requires Settled(s)
    ensures Shaped(s) && 0 <= s.base < |s.cuts| == s.base + |s.acks| + 1 && Covered(s) <= Reach(s)
  {
  }

  /** After checkWindow the packets tile exactly min(WIN, bytes held) from the first
      byte not released, and the front one is unacknowledged. */
  lemma CheckWindowSettles(s: Sender)
    requires Shaped(s) && Covered(s) <= Reach(s)
    ensures Settled(CheckWindow(s)) && Grows(s, CheckWindow(s))
    ensures CheckWindow(s).added == s.added && CheckWindow(s).slots == s.slots
  {
    hide Extend, Release;
    ReleaseShaped(s);
    ExtendShaped(Release(s));
  }

  lemma CheckWindowIdle(s: Sender)
    requires Settled(s)
    ensures CheckWindow(s) == s
  {
  }

  // ----- the operations

  predicate Outstanding(s: Sender, n: int) {
    s.base < n <= s.base + |s.acks|
  }

  function SetAck(s: Sender, n: int, ack: int): Sender {
    if Outstanding(s, n) then s.(acks := s.acks[n - 1 - s.base := ack]) else s
  }

  /** The first slot from j on that is not in use, or their number. */
  function FirstFree(slots: seq<Slot>, j: int): (k: int)
    requires 0 <= j <= |slots|
    ensures j <= k <= |slots|
    ensures forall i | j <= i < k :: slots[i].on
    ensures k < |slots| ==> !slots[k].on
    decreases |slots| - j
  {
    if j < |slots| && slots[j].on then FirstFree(slots, j + 1) else j
  }

  /** The first slot from j on with the given packet number, or their number. */
  function FirstWith(slots: seq<Slot>, bsn: int, j: int): (k: int)
    requires 0 <= j <= |slots|
    ensures j <= k <= |slots|
    ensures forall i | j <= i < k :: slots[i].bsn != bsn
    ensures k < |slots| ==> slots[k].bsn == bsn
    decreases |slots| - j
  {
    if j < |slots| && slots[j].bsn != bsn then FirstWith(slots, bsn, j + 1) else j
  }

  function Off(slot: Slot): Slot {
    slot.(on := false)
  }

  function AllOff(slots: seq<Slot>, bsn: int): seq<Slot> {
    seq(|slots|, j requires 0 <= j < |slots| => if slots[j].bsn == bsn then Off(slots[j]) else slots[j])
  }

  function Appended(s: Sender, chunk: seq<byte>): Sender {
    s.(added := s.added + chunk)
  }

  /** addData: a chunk is taken whole or not at all. */
  function AddData(s: Sender, chunk: seq<byte>): (Sender, bool)
    requires Shaped(s)
  {
    if |chunk| <= CAP - Held(s) then (CheckWindow(Appended(s, chunk)), true) else (CheckWindow(s), false)
  }

  function FreeSlot(s: Sender, n: int): Sender
    requires |s.slots| == SLOTS
  {
    var j := FirstWith(s.slots, n, 0);
    if j < SLOTS then s.(slots := s.slots[j := Off(s.slots[j])]) else s
  }

  /** recvACK: the first slot with the number is freed; an outstanding packet is
      acknowledged and the window moves. */
  function RecvAck(s: Sender, n: int): (Sender, bool)
    requires Shaped(s)
  {
    var t := FreeSlot(s, n);
    if Outstanding(t, n) then
      SetAckShaped(t, n, 2);
      (CheckWindow(SetAck(t, n, 2)), true)
    else (t, false)
  }

  /** timerExpire: the packet is to be sent again, every slot with its number is free. */
  function TimerExpire(s: Sender, n: int): Sender {
    SetAck(s, n, 0).(slots := AllOff(s.slots, n))
  }

  datatype Datagram = Datagram(crc: bv32, packnum: int, data: seq<byte>)

  function Stamped(n: int, data: seq<byte>): Datagram {
    Datagram(Crc32.Checksum(Crc32.CRC_POLY, data), n, data)
  }

  /** Node i goes out and takes the first free slot. */
  function SendOne(s: Sender, i: int): Sender
    requires 0 <= i < |s.acks| && |s.slots| == SLOTS && FirstFree(s.slots, 0) < SLOTS
  {
    s.(acks := s.acks[i := 1], slots := s.slots[FirstFree(s.slots, 0) := Slot(s.base + 1 + i, true)])
  }

  lemma SendOneShaped(s: Sender, i: int)
    requires Shaped(s) && 0 <= i < |s.acks| && FirstFree(s.slots, 0) < SLOTS
    ensures Shaped(SendOne(s, i))
  {
  }

  lemma SetAckShaped(s: Sender, n: int, ack: int)
    requires Shaped(s) && 0 <= ack <= 2
    ensures Shaped(SetAck(s, n, ack))
    ensures Covered(SetAck(s, n, ack)) == Covered(s) && Reach(SetAck(s, n, ack)) == Reach(s)
  {
  }

  /** sendWindow from node i on: every node that is to be sent goes out, in order. None
      when the slots run out. */
  function SendFrom(s: Sender, i: int): Option<(Sender, seq<Datagram>)>
    requires Shaped(s) && 0 <= i <= |s.acks|
    decreases |s.acks| - i
  {
    if i == |s.acks| then Some((s, []))
    else if s.acks[i] > 0 then SendFrom(s, i + 1)
    else if FirstFree(s.slots, 0) == SLOTS then None
    else
      SendOneShaped(s, i);
      match SendFrom(SendOne(s, i), i + 1)
      case None => None
      case Some((t, sent)) => Some((t, [Stamped(s.base + 1 + i, Packet(s, s.base + 1 + i))] + sent))
  }

  function SendWindow(s: Sender): Option<(Sender, seq<Datagram>)>
    requires Shaped(s)
  {
    SendFrom(s, 0)
  }

  // ----- every operation keeps the state settled and only grows it

  lemma AddDataSettles(s: Sender, chunk: seq<byte>)
    requires Settled(s)
    ensures var (t, taken) := AddData(s, chunk);
      && Settled(t) && Grows(s, t)
      && t.added == (if taken then s.added + chunk else s.added)
      && (taken <==> |chunk| <= CAP - Held(s))
      && (!taken ==> t == s)
      && t.slots == s.slots
  {
    if |chunk| <= CAP - Held(s) {
      var a := Appended(s, chunk);
      assert Shaped(a) && Covered(a) <= Reach(a) && Grows(s, a);
      CheckWindowSettles(a);
    } else {
      CheckWindowIdle(s);
    }
  }

  /** What an acknowledgement does before the window moves. */
  lemma RecvAckParts(s: Sender, n: int)
    requires Shaped(s)
    ensures var t := FreeSlot(s, n);
      var u := SetAck(t, n, 2);
      && t == s.(slots := t.slots) && u == t.(acks := u.acks)
      && |u.acks| == |s.acks|
      && (forall i | 0 <= i < |s.acks| :: u.acks[i] == if i == n - 1 - s.base then 2 else s.acks[i])
      && Shaped(t) && Shaped(u)
      && Covered(u) == Covered(t) == Covered(s) && Reach(u) == Reach(t) == Reach(s)
      && RecvAck(s, n) == (if Outstanding(s, n) then (CheckWindow(u), true) else (t, false))
  {
    FreeSlotShaped(s, n);
    hide Shaped, Covered, Reach, FreeSlot, CheckWindow;
    SetAckShaped(FreeSlot(s, n), n, 2);
  }

  lemma FreeSlotShaped(s: Sender, n: int)
    requires Shaped(s)
    ensures var t := FreeSlot(s, n);
      && t == s.(slots := t.slots)
      && Shaped(t) && Covered(t) == Covered(s) && Reach(t) == Reach(s)
      && 0 <= s.base < |s.cuts|
  {
  }

  lemma RecvAckSettles(s: Sender, n: int)
    requires Settled(s)
    ensures Settled(RecvAck(s, n).0) && Grows(s, RecvAck(s, n).0)
    ensures RecvAck(s, n).0.added == s.added
  {
    RecvAckParts(s, n);
    var t := FreeSlot(s, n);
    var u := SetAck(t, n, 2);
    if Outstanding(s, n) {
      hide Shaped, CheckWindow, RecvAck, FreeSlot, SetAck;
      CheckWindowSettles(u);
    } else {
      hide Shaped, RecvAck, FreeSlot;
    }
  }

  lemma TimerExpireSettles(s: Sender, n: int)
    requires Settled(s)
    ensures Settled(TimerExpire(s, n)) && Grows(s, TimerExpire(s, n))
    ensures TimerExpire(s, n).added == s.added
  {
    SetAckShaped(s, n, 0);
  }

  /** What goes out are packets of the stream, stamped with their checksum. */
  ghost predicate Genuine(s: Sender, d: Datagram)
    requires Shaped(s)
  {
    1 <= d.packnum < |s.cuts| && d == Stamped(d.packnum, Packet(s, d.packnum))
  }

  lemma {:induction false} SendFromSettles(s: Sender, i: int)
    requires Shaped(s) && 0 <= i <= |s.acks|
    requires SendFrom(s, i).Some?
    ensures var t := SendFrom(s, i).value.0;
      && Shaped(t)
      && t == s.(acks := t.acks, slots := t.slots)
      && |t.acks| == |s.acks|
      && (forall k | 0 <= k < |s.acks| :: t.acks[k] == if i <= k && s.acks[k] == 0 then 1 else s.acks[k])
    decreases |s.acks| - i
  {
    if i < |s.acks| {
      if s.acks[i] > 0 {
        SendFromSettles(s, i + 1);
      } else {
        SendOneShaped(s, i);
        hide Shaped;
        SendFromSettles(SendOne(s, i), i + 1);
      }
    } else {
      assert forall k | 0 <= k < |s.acks| :: 0 <= s.acks[k] <= 2;
    }
  }

  lemma SamePacket(s: Sender, u: Sender, n: int)
    requires Shaped(s) && Shaped(u) && u.added == s.added && u.cuts == s.cuts && 1 <= n < |s.cuts|
    ensures Packet(u, n) == Packet(s, n)
  {
  }

  /** One node of the pass. */
  lemma SendFromNext(s: Sender, i: int)
    requires Shaped(s) && 0 <= i < |s.acks| && SendFrom(s, i).Some?
    ensures s.acks[i] > 0 ==> SendFrom(s, i) == SendFrom(s, i + 1)
    ensures s.acks[i] <= 0 ==>
      && 1 <= s.base + 1 + i < |s.cuts|
      && |s.slots| == SLOTS && FirstFree(s.slots, 0) < SLOTS && Shaped(SendOne(s, i))
      && SendFrom(SendOne(s, i), i + 1).Some?
      && SendFrom(s, i).value.1 ==
           [Stamped(s.base + 1 + i, Packet(s, s.base + 1 + i))] + SendFrom(SendOne(s, i), i + 1).value.1
  {
    assert 0 <= s.base && |s.cuts| == s.base + |s.acks| + 1 && |s.slots| == SLOTS;
    hide Packet, Stamped, Shaped;
    if s.acks[i] <= 0 && FirstFree(s.slots, 0) < SLOTS {
      SendOneShaped(s, i);
    }
  }

  /** The packets from node i on that are to be sent, by their numbers. */
  ghost predicate SentOnce(s: Sender, i: int, sent: seq<Datagram>) {
    && (forall k | 0 <= k < |sent| :: s.base + i < sent[k].packnum && ToBeSent(s, sent[k].packnum))
    && (forall k, l | 0 <= k < l < |sent| :: sent[k].packnum < sent[l].packnum)
    && (forall n | s.base + i < n && ToBeSent(s, n) :: HasNumber(sent, n))
  }

  predicate ToBeSent(s: Sender, n: int) {
    Outstanding(s, n) && s.acks[n - 1 - s.base] <= 0
  }

  predicate HasNumber(sent: seq<Datagram>, n: int) {
    exists k | 0 <= k < |sent| :: sent[k].packnum == n
  }

  lemma NoneToSend(s: Sender, i: int, sent: seq<Datagram>)
    requires 0 <= i < |s.acks| && s.acks[i] > 0 && SentOnce(s, i + 1, sent)
    ensures SentOnce(s, i, sent)
  {
  }

  lemma NumberBehind(d: Datagram, sent: seq<Datagram>, n: int)
    ensures HasNumber([d] + sent, n) <==> d.packnum == n || HasNumber(sent, n)
  {
    var all := [d] + sent;
    assert all[0] == d && forall k | 0 < k < |all| :: all[k] == sent[k - 1];
    if HasNumber(sent, n) {
      var k :| 0 <= k < |sent| && sent[k].packnum == n;
      assert all[k + 1].packnum == n;
    }
  }

  lemma OneToSend(s: Sender, i: int, u: Sender, sent: seq<Datagram>, d: Datagram)
    requires 0 <= i < |s.acks| && s.acks[i] <= 0 && d.packnum == s.base + 1 + i
    requires u.base == s.base && u.acks == s.acks[i := 1] && SentOnce(u, i + 1, sent)
    ensures SentOnce(s, i, [d] + sent)
  {
    assert forall n :: ToBeSent(s, n) <==> n == d.packnum || ToBeSent(u, n);
    hide ToBeSent, HasNumber;
    forall n | s.base + i < n && ToBeSent(s, n)
      ensures HasNumber([d] + sent, n)
    {
      NumberBehind(d, sent, n);
    }
  }

  lemma NothingToSend(s: Sender, i: int)
    requires Shaped(s) && i == |s.acks|
    ensures SendFrom(s, i) == Some((s, [])) && SentOnce(s, i, [])
  {
  }

  lemma SentOne(s: Sender, i: int)
    requires Shaped(s) && 0 <= i < |s.acks| && FirstFree(s.slots, 0) < SLOTS
    ensures SendOne(s, i).base == s.base && SendOne(s, i).acks == s.acks[i := 1]
  {
  }

  /** A pass sends the packets that are to be sent and no others, each once and in order. */
  lemma {:induction false} SentExactly(s: Sender, i: int)
    requires Shaped(s) && 0 <= i <= |s.acks| && SendFrom(s, i).Some?
    ensures SentOnce(s, i, SendFrom(s, i).value.1)
    decreases |s.acks| - i
  {
    hide SendFrom, SendOne, Packet, Shaped, SentOnce, Crc32.Checksum;
    if i == |s.acks| {
      NothingToSend(s, i);
    } else {
      SendFromNext(s, i);
      if s.acks[i] > 0 {
        SentExactly(s, i + 1);
        NoneToSend(s, i, SendFrom(s, i + 1).value.1);
      } else {
        SentOne(s, i);
        var u, n := SendOne(s, i), s.base + 1 + i;
        SentExactly(u, i + 1);
        OneToSend(s, i, u, SendFrom(u, i + 1).value.1, Stamped(n, Packet(s, n)));
      }
    }
  }

  lemma GenuineSame(s: Sender, u: Sender, sent: seq<Datagram>)
    requires Shaped(s) && Shaped(u) && u.added == s.added && u.cuts == s.cuts
    requires forall d | d in sent :: Genuine(u, d)
    ensures forall d | d in sent :: Genuine(s, d)
  {
    hide Packet, Stamped, Shaped;
    forall d | d in sent
      ensures Genuine(s, d)
    {
      SamePacket(s, u, d.packnum);
    }
  }

  lemma {:induction false} SentIsGenuine(s: Sender, i: int)
    requires Shaped(s) && 0 <= i <= |s.acks|
    requires SendFrom(s, i).Some?
    ensures forall d | d in SendFrom(s, i).value.1 :: Genuine(s, d)
    decreases |s.acks| - i
  {
    if i == |s.acks| {
      hide Genuine;
    } else {
      hide SendFrom, Packet, Stamped, Shaped;
      SendFromNext(s, i);
      if s.acks[i] > 0 {
        SentIsGenuine(s, i + 1);
      } else {
        var u := SendOne(s, i);
        SentIsGenuine(u, i + 1);
        GenuineSame(s, u, SendFrom(u, i + 1).value.1);
      }
    }
  }

  /** A pass over the window keeps it settled, and what it sends is genuine. */
  lemma SendSettles(s: Sender)
    requires Settled(s) && SendWindow(s).Some?
    ensures var (t, sent) := SendWindow(s).value;
      && Settled(t) && Grows(s, t) && t.added == s.added
      && (forall d | d in sent :: Genuine(t, d))
  {
    SendFromSettles(s, 0);
    SentIsGenuine(s, 0);
    var (t, sent) := SendWindow(s).value;
    forall d | d in sent
      ensures Genuine(t, d)
    {
      SamePacket(s, t, d.packnum);
    }
  }
}
