/** The list of cbuffer.c as values, and what it says about the abstract sender. */
module WindowNodes {
  import opened Parameters
  import opened Rings
  import opened Window
  import opened Wrappers

  datatype Node = Node(seqnum: int, data: int, size: int, ack: int)

  /** Where stream byte i is kept. */
  function At(i: int): int {
    i % CAP
  }

  function NodeAt(s: Sender, i: int): Node
    requires 0 <= s.base && 0 <= i && s.base + i + 1 < |s.cuts| && i < |s.acks|
  {
    Node(s.base + 1 + i, At(s.cuts[s.base + i]), s.cuts[s.base + i + 1] - s.cuts[s.base + i], s.acks[i])
  }

  /** The nodes are the packets not yet released, in order. */
  ghost predicate Describes(views: seq<Node>, s: Sender) {
    && Shaped(s)
    && |views| == |s.acks|
    && forall i | 0 <= i < |views| :: views[i] == NodeAt(s, i)
  }

  lemma IsShaped(views: seq<Node>, s: Sender)
    requires Describes(views, s)
    ensures Shaped(s) && 0 <= s.base < |s.cuts| == s.base + |s.acks| + 1
  {
  }

  /** The bytes from `from` on are in the ring. */
  ghost predicate InRing(ring: seq<byte>, added: seq<byte>, from: int) {
    && |ring| == CAP
    && 0 <= from
    && forall i | from <= i < |added| :: ring[At(i)] == added[i]
  }

  ghost predicate Kept(ring: seq<byte>, s: Sender) {
    Shaped(s) && InRing(ring, s.added, s.cuts[s.base])
  }

  /** The indices; `isEmpty` is only meaningful when they coincide. */
  ghost predicate Indexed(dstart: int, dend: int, isEmpty: bool, packseq: int, s: Sender) {
    && Shaped(s)
    && dstart == At(s.cuts[s.base])
    && dend == At(|s.added|)
    && packseq == |s.cuts|
    && (Held(s) == 0 ==> isEmpty)
    && (Held(s) == CAP ==> !isEmpty)
  }

  /** The distance between the indices tells the bytes held, but for full and empty. */
  lemma IndexDistance(s: Sender)
    requires Shaped(s)
    ensures 0 <= s.cuts[s.base] && 0 <= Held(s) <= CAP
    ensures var a, b := At(s.cuts[s.base]), At(|s.added|);
      && 0 <= a < CAP && 0 <= b < CAP
      && (b < a ==> Held(s) == CAP - (a - b))
      && (a < b ==> Held(s) == b - a)
      && (a == b ==> Held(s) == 0 || Held(s) == CAP)
  {
    CutsAscend(s, 0, s.base);
    CutsAscend(s, s.base, |s.cuts| - 1);
  }

  lemma IndexRange(s: Sender, dstart: int, dend: int, isEmpty: bool, packseq: int)
    requires Indexed(dstart, dend, isEmpty, packseq, s)
    ensures 0 <= dstart < CAP
    ensures 0 <= Held(s) && Reach(s) == (if WIN < Held(s) then WIN else Held(s))
  {
    IndexDistance(s);
  }

  /** The window's end from its start, and back: indices at most WIN apart. */
  lemma WindowDistance(a: int, reach: int)
    requires 0 <= a < CAP && 0 <= reach <= WIN
    ensures var e := At(a + reach);
      (if a < e then e - a else if e < a then CAP - a + e else 0) == reach
  {
  }

  lemma AtAdd(i: int, n: int)
    ensures At(At(i) + n) == At(i + n)
  {
  }

  // ----- releasing

  lemma ReleaseView(views: seq<Node>, s: Sender)
    requires Describes(views, s) && Releasable(s)
    ensures Shaped(ReleaseOne(s)) && Describes(views[1..], ReleaseOne(s))
    ensures views[0].ack == 2 && views[0].size == s.cuts[s.base + 1] - s.cuts[s.base]
  {
    ReleaseOneShaped(s);
    assert views[0] == NodeAt(s, 0);
    forall i | 0 <= i < |views[1..]|
      ensures views[1..][i] == NodeAt(ReleaseOne(s), i)
    {
      assert views[i + 1] == NodeAt(s, i + 1);
    }
  }

  lemma ReleaseRing(ring: seq<byte>, s: Sender)
    requires Kept(ring, s) && |s.acks| > 0
    ensures Kept(ring, ReleaseOne(s))
  {
    ReleaseOneShaped(s);
    assert s.cuts[s.base] < s.cuts[s.base + 1];
  }

  lemma ReleaseIndices(s: Sender, dstart: int, dend: int, isEmpty: bool, packseq: int, size: int)
    requires Indexed(dstart, dend, isEmpty, packseq, s) && |s.acks| > 0
    requires size == s.cuts[s.base + 1] - s.cuts[s.base] && Covered(s) <= Reach(s)
    ensures Indexed((dstart + size) % CAP, dend, if |s.acks| == 1 then true else isEmpty, packseq, ReleaseOne(s))
    ensures Covered(ReleaseOne(s)) <= Reach(ReleaseOne(s))
  {
    ReleaseOneShaped(s);
    var t := ReleaseOne(s);
    IndexDistance(s);
    CutsAscend(t, t.base, |t.cuts| - 1);
    AtAdd(s.cuts[s.base], size);
  }

  // ----- extending

  lemma ExtendView(views: seq<Node>, s: Sender)
    requires Describes(views, s) && Covered(s) < Reach(s)
    ensures Shaped(ExtendOne(s))
    ensures var node := Node(|s.cuts|, At(s.cuts[|s.cuts| - 1]), Min(PKT, Reach(s) - Covered(s)), 0);
      Describes(views + [node], ExtendOne(s))
  {
    ExtendOneShaped(s);
    var t := ExtendOne(s);
    forall i | 0 <= i < |views|
      ensures views[i] == NodeAt(t, i)
    {
    }
  }

  lemma ExtendRing(ring: seq<byte>, s: Sender)
    requires Kept(ring, s) && Covered(s) < Reach(s)
    ensures Kept(ring, ExtendOne(s))
  {
    ExtendOneShaped(s);
  }

  lemma Extends(views: seq<Node>, ring: seq<byte>, s: Sender, dstart: int, dend: int, isEmpty: bool, packseq: int)
    requires Describes(views, s) && Kept(ring, s) && Indexed(dstart, dend, isEmpty, packseq, s)
    requires Covered(s) < Reach(s)
    ensures var t, last, size := ExtendOne(s), s.cuts[|s.cuts| - 1], Min(PKT, Reach(s) - Covered(s));
      && 0 <= s.base < |s.cuts|
      && Describes(views + [Node(packseq, At(last), size, 0)], t)
      && Kept(ring, t)
      && Indexed(dstart, dend, isEmpty, packseq + 1, t)
      && Reach(t) == Reach(s)
      && Covered(t) == Covered(s) + size <= Reach(t)
      && t.slots == s.slots
      && (At(last) + size) % CAP == At(t.cuts[|t.cuts| - 1])
  {
    ExtendView(views, s);
    ExtendRing(ring, s);
    ExtendOneShaped(s);
    AtAdd(s.cuts[|s.cuts| - 1], Min(PKT, Reach(s) - Covered(s)));
    hide Describes, Kept, Stepped;
  }

  lemma NothingCovered(s: Sender, dstart: int, dend: int, isEmpty: bool, packseq: int)
    requires Indexed(dstart, dend, isEmpty, packseq, s) && s.acks == []
    ensures 0 <= s.base < |s.cuts| && Covered(s) == 0 && dstart == At(s.cuts[|s.cuts| - 1])
  {
  }

  lemma ExtendStep(s: Sender)
    requires 0 <= s.base < |s.cuts|
    ensures Extend(s) == if Covered(s) < Reach(s) then Extend(ExtendOne(s)) else s
  {
  }

  lemma NothingHeld(s: Sender)
    requires Shaped(s) && Covered(s) <= Reach(s) <= 0
    ensures Extend(s) == s
  {
    CutsAscend(s, s.base, |s.cuts| - 1);
  }

  // ----- the bytes of a packet

  lemma SliceIs(ring: seq<byte>, added: seq<byte>, from: int, p: int, size: int)
    requires InRing(ring, added, from) && from <= p && 0 <= size <= CAP && p + size <= |added|
    ensures RingSlice(ring, At(p), size) == added[p..p + size]
  {
    var a, b := RingSlice(ring, At(p), size), added[p..p + size];
    assert |a| == size;
    forall j | 0 <= j < size
      ensures a[j] == b[j]
    {
      AtAdd(p, j);
      RingSliceAt(ring, At(p), size, j);
      hide RingSlice;
      assert ring[At(p + j)] == added[p + j];
    }
  }

  /** What a node's place in the ring holds is its packet. */
  lemma SliceIsPacket(ring: seq<byte>, s: Sender, i: int)
    requires Kept(ring, s) && 0 <= i < |s.acks|
    ensures var v := NodeAt(s, i);
      && |ring| == CAP
      && 0 <= v.data < CAP && 1 <= v.size <= PKT
      && RingSlice(ring, v.data, v.size) == Packet(s, s.base + 1 + i)
  {
    hide RingSlice, Shaped, Packet, InRing, At;
    var n := s.base + i;
    PacketBytes(s, i);
    var size := s.cuts[n + 1] - s.cuts[n];
    SliceIs(ring, s.added, s.cuts[s.base], s.cuts[n], size);
    assert s.cuts[n] + size == s.cuts[n + 1];
    AtInRing(s.cuts[n]);
    RingSize(ring, s.added, s.cuts[s.base]);
  }

  lemma RingSize(ring: seq<byte>, added: seq<byte>, from: int)
    requires InRing(ring, added, from)
    ensures |ring| == CAP
  {
  }

  lemma AtInRing(i: int)
    ensures 0 <= At(i) < CAP
  {
  }

  lemma PacketBytes(s: Sender, i: int)
    requires Shaped(s) && 0 <= i < |s.acks|
    ensures var n := s.base + i;
      && 0 <= s.base <= n < n + 1 < |s.cuts|
      && 0 <= s.cuts[s.base] <= s.cuts[n] < s.cuts[n + 1] <= |s.added|
      && s.cuts[n + 1] - s.cuts[n] <= PKT
      && Packet(s, n + 1) == s.added[s.cuts[n]..s.cuts[n + 1]]
  {
    var n := s.base + i;
    CutsAscend(s, 0, s.base);
    CutsAscend(s, s.base, n);
    CutsAscend(s, n, n + 1);
    CutsAscend(s, n + 1, |s.cuts| - 1);
  }

  lemma PacketLength(s: Sender, n: int)
    requires Shaped(s) && 1 <= n < |s.cuts|
    ensures |Packet(s, n)| == s.cuts[n] - s.cuts[n - 1]
  {
    CutsAscend(s, n - 1, n);
    CutsAscend(s, 0, n - 1);
    CutsAscend(s, n, |s.cuts| - 1);
  }

  // ----- adding

  /** The ring after a chunk is written from `at` on, around the end. */
  function Written(ring: seq<byte>, at: int, chunk: seq<byte>): seq<byte>
    requires |ring| == CAP && 0 <= at < CAP && |chunk| <= CAP
  {
    if at + |chunk| <= CAP then ring[..at] + chunk + ring[at + |chunk|..]
    else chunk[CAP - at..] + ring[|chunk| - (CAP - at)..at] + chunk[..CAP - at]
  }

  /** Two copies around the end of the ring write the chunk. */
  lemma WrittenAround(ring: seq<byte>, at: int, chunk: seq<byte>, between: seq<byte>, after: seq<byte>)
    requires |ring| == CAP && 0 <= at < CAP && CAP - at < |chunk| <= CAP
    requires between == ring[..at] + chunk[..CAP - at] + ring[CAP..]
    requires after == between[..0] + chunk[CAP - at..] + between[|chunk| - (CAP - at)..]
    ensures after == Written(ring, at, chunk)
  {
    assert ring[CAP..] == [] && between[..0] == [];
    assert between == ring[..at] + chunk[..CAP - at];
    var k := |chunk| - (CAP - at);
    assert between[k..] == ring[k..at] + chunk[..CAP - at];
    assert after == chunk[CAP - at..] + (ring[k..at] + chunk[..CAP - at]);
  }

  lemma WrittenSize(ring: seq<byte>, at: int, chunk: seq<byte>)
    requires |ring| == CAP && 0 <= at < CAP && |chunk| <= CAP
    ensures |Written(ring, at, chunk)| == CAP
  {
  }

  lemma WrittenAt(ring: seq<byte>, at: int, chunk: seq<byte>, i: int)
    requires |ring| == CAP && 0 <= at < CAP && |chunk| <= CAP && 0 <= i < CAP
    ensures |Written(ring, at, chunk)| == CAP
    ensures i < |chunk| ==> Written(ring, at, chunk)[At(at + i)] == chunk[i]
    ensures |chunk| <= i ==> Written(ring, at, chunk)[At(at + i)] == ring[At(at + i)]
  {
    WrittenSize(ring, at, chunk);
    assert At(at + i) == if at + i < CAP then at + i else at + i - CAP;
    hide At;
  }

  lemma WrittenByte(ring: seq<byte>, added: seq<byte>, from: int, chunk: seq<byte>, i: int)
    requires InRing(ring, added, from) && from <= |added| && |added| + |chunk| <= from + CAP
    requires from <= i < |added| + |chunk|
    ensures |Written(ring, At(|added|), chunk)| == CAP
    ensures Written(ring, At(|added|), chunk)[At(i)] == (added + chunk)[i]
  {
    hide Written;
    var n := |added|;
    var k := if n <= i then i - n else i + CAP - n;
    WrittenAt(ring, At(n), chunk, k);
    AtAdd(n, k);
    assert At(n + k) == At(i);
    assert i < n ==> ring[At(i)] == added[i];
  }

  lemma WrittenKeeps(ring: seq<byte>, added: seq<byte>, from: int, chunk: seq<byte>)
    requires InRing(ring, added, from) && from <= |added| && |added| + |chunk| <= from + CAP
    ensures InRing(Written(ring, At(|added|), chunk), added + chunk, from)
  {
    var n := |added|;
    assert 0 <= At(n) < CAP;
    hide Written, At;
    WrittenSize(ring, At(n), chunk);
    forall i | from <= i < n + |chunk|
      ensures Written(ring, At(n), chunk)[At(i)] == (added + chunk)[i]
    {
      AtInRing(i);
      WrittenByte(ring, added, from, chunk, i);
    }
  }

  lemma AppendRing(ring: seq<byte>, s: Sender, chunk: seq<byte>)
    requires Kept(ring, s) && |chunk| <= CAP - Held(s)
    ensures 0 <= Held(s) && Kept(Written(ring, At(|s.added|), chunk), Appended(s, chunk))
  {
    IndexDistance(s);
    hide Written, InRing;
    WrittenKeeps(ring, s.added, s.cuts[s.base], chunk);
  }

  lemma AppendShaped(s: Sender, chunk: seq<byte>)
    requires Shaped(s) && Covered(s) <= Reach(s) && |chunk| <= CAP - Held(s)
    ensures var t := Appended(s, chunk);
      Shaped(t) && Covered(t) <= Reach(t)
  {
    hide Stepped;
  }

  lemma AppendViews(views: seq<Node>, s: Sender, chunk: seq<byte>)
    requires Describes(views, s) && |chunk| <= CAP - Held(s)
    ensures Describes(views, Appended(s, chunk))
  {
    hide Stepped, At;
    assert Shaped(Appended(s, chunk));
    forall i | 0 <= i < |views|
      ensures views[i] == NodeAt(Appended(s, chunk), i)
    {
      assert views[i] == NodeAt(s, i);
    }
  }

  lemma Appends(views: seq<Node>, ring: seq<byte>, s: Sender, chunk: seq<byte>, dstart: int, dend: int, isEmpty: bool, packseq: int)
    requires Describes(views, s) && Kept(ring, s) && Indexed(dstart, dend, isEmpty, packseq, s)
    requires Covered(s) <= Reach(s) && 1 <= |chunk| <= CAP - Held(s)
    ensures 0 <= dend < CAP && |ring| == CAP && |chunk| <= CAP
    ensures var t := Appended(s, chunk);
      && Describes(views, t)
      && Kept(Written(ring, dend, chunk), t)
      && Indexed(dstart, At(dend + |chunk|), false, packseq, t)
      && Covered(t) <= Reach(t)
  {
    assert |ring| == CAP;
    AppendShaped(s, chunk);
    IndexDistance(s);
    hide Kept, Written, Describes, Shaped;
    AppendRing(ring, s, chunk);
    AtAdd(|s.added|, |chunk|);
    AppendViews(views, s, chunk);
  }

  lemma Marks(views: seq<Node>, ring: seq<byte>, s: Sender, dstart: int, dend: int, isEmpty: bool, packseq: int, i: int, ack: int)
    requires Describes(views, s) && Kept(ring, s) && Indexed(dstart, dend, isEmpty, packseq, s)
    requires Covered(s) <= Reach(s) && 0 <= i < |s.acks| == |views| && 0 <= ack <= 2
    ensures var t := s.(acks := s.acks[i := ack]);
      && Describes(views[i := views[i].(ack := ack)], t)
      && Kept(ring, t)
      && Indexed(dstart, dend, isEmpty, packseq, t)
      && Covered(t) <= Reach(t)
  {
    var t := s.(acks := s.acks[i := ack]);
    assert Shaped(t);
    hide Stepped;
    forall k | 0 <= k < |views|
      ensures views[i := views[i].(ack := ack)][k] == NodeAt(t, k)
    {
      assert views[k] == NodeAt(s, k);
    }
  }

  lemma Slots(views: seq<Node>, ring: seq<byte>, s: Sender, dstart: int, dend: int, isEmpty: bool, packseq: int, slots: seq<Slot>)
    requires Describes(views, s) && Kept(ring, s) && Indexed(dstart, dend, isEmpty, packseq, s)
    requires Covered(s) <= Reach(s) && |slots| == SLOTS
    ensures var t := s.(slots := slots);
      && Describes(views, t)
      && Kept(ring, t)
      && Indexed(dstart, dend, isEmpty, packseq, t)
      && Covered(t) <= Reach(t)
  {
    var t := s.(slots := slots);
    assert Shaped(t);
    hide Stepped;
    forall k | 0 <= k < |views|
      ensures views[k] == NodeAt(t, k)
    {
      assert views[k] == NodeAt(s, k);
    }
  }

  // ----- a pass over the window

  ghost predicate SameButSent(s: Sender, t: Sender) {
    && t == s.(acks := t.acks, slots := t.slots)
    && |t.acks| == |s.acks|
    && forall k | 0 <= k < |s.acks| :: t.acks[k] == s.acks[k] || (s.acks[k] == 0 && t.acks[k] == 1)
  }

  lemma SameStart(s: Sender)
    ensures SameButSent(s, s)
  {
  }

  lemma SameTrans(s: Sender, t: Sender, u: Sender)
    requires SameButSent(s, t) && SameButSent(t, u)
    ensures SameButSent(s, u)
  {
  }

  lemma AckRange(s: Sender, i: int)
    requires Shaped(s) && 0 <= i < |s.acks|
    ensures 0 <= s.acks[i] <= 2
  {
  }

  lemma SentSettles(s: Sender, t: Sender)
    requires Settled(s) && Shaped(t) && SameButSent(s, t)
    ensures Settled(t)
  {
  }

  /** A pass that has sent `sent` and has `rest` before it is the pass `whole`. */
  ghost predicate Continues(whole: Option<(Sender, seq<Datagram>)>, sent: seq<Datagram>, rest: Option<(Sender, seq<Datagram>)>) {
    whole == match rest
             case None => None
             case Some((t, more)) => Some((t, sent + more))
  }

  lemma SendStep(s: Sender, i: int)
    requires Shaped(s) && 0 <= i <= |s.acks|
    ensures i == |s.acks| ==> SendFrom(s, i) == Some((s, []))
    ensures i < |s.acks| && s.acks[i] > 0 ==> SendFrom(s, i) == SendFrom(s, i + 1)
    ensures i < |s.acks| && s.acks[i] <= 0 && FirstFree(s.slots, 0) == SLOTS ==> SendFrom(s, i) == None
    ensures i < |s.acks| && s.acks[i] <= 0 && FirstFree(s.slots, 0) < SLOTS ==>
      && Shaped(SendOne(s, i)) && 1 <= s.base + 1 + i < |s.cuts|
      && Continues(SendFrom(s, i), [Stamped(s.base + 1 + i, Packet(s, s.base + 1 + i))], SendFrom(SendOne(s, i), i + 1))
  {
  }

  lemma ContinuesStart(whole: Option<(Sender, seq<Datagram>)>)
    ensures Continues(whole, [], whole)
  {
    if whole.Some? {
      assert [] + whole.value.1 == whole.value.1;
    }
  }

  lemma ContinuesOne(whole: Option<(Sender, seq<Datagram>)>, sent: seq<Datagram>, rest: Option<(Sender, seq<Datagram>)>,
                     d: Datagram, after: Option<(Sender, seq<Datagram>)>)
    requires Continues(whole, sent, rest) && Continues(rest, [d], after)
    ensures Continues(whole, sent + [d], after)
  {
    if after.Some? {
      assert sent + ([d] + after.value.1) == sent + [d] + after.value.1;
    }
  }

  lemma ContinuesEnd(whole: Option<(Sender, seq<Datagram>)>, sent: seq<Datagram>, t: Sender)
    requires Continues(whole, sent, Some((t, [])))
    ensures whole == Some((t, sent))
  {
    assert sent + [] == sent;
  }

  lemma FreeSlotSettled(s: Sender, n: int)
    requires Settled(s)
    ensures |s.slots| == SLOTS && Settled(FreeSlot(s, n))
  {
  }

  lemma AllOffEnds(slots: seq<Slot>, bsn: int)
    ensures AllOff(slots[..0], bsn) + slots[0..] == slots
    ensures AllOff(slots[..|slots|], bsn) + slots[|slots|..] == AllOff(slots, bsn)
  {
  }

  lemma AllOffNext(slots: seq<Slot>, bsn: int, q: int)
    requires 0 <= q < |slots|
    ensures var now := AllOff(slots[..q], bsn) + slots[q..];
      && |now| == |slots| && now[q] == slots[q]
      && (if slots[q].bsn == bsn then now[q := Off(slots[q])] else now) == AllOff(slots[..q + 1], bsn) + slots[q + 1..]
  {
  }
}
