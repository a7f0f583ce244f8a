/** When the table of send times is large enough. */
module WindowChunks {
  import opened Parameters
  import opened Window
  import opened WindowSlots

  function ToSend(acks: seq<int>): nat {
    if acks == [] then 0 else (if acks[0] > 0 then 0 else 1) + ToSend(acks[1..])
  }

  function FreeSlots(slots: seq<Slot>): nat {
    if slots == [] then 0 else (if slots[0].on then 0 else 1) + FreeSlots(slots[1..])
  }

  lemma {:induction false} NoneFree(slots: seq<Slot>)
    ensures FreeSlots(slots) == 0 <==> forall j | 0 <= j < |slots| :: slots[j].on
    decreases |slots|
  {
    if slots == [] {
    } else {
      NoneFree(slots[1..]);
      assert (forall j | 0 <= j < |slots| :: slots[j].on)
        <==> slots[0].on && (forall j | 0 <= j < |slots[1..]| :: slots[1..][j].on);
    }
  }

  lemma {:induction false} TakeSlot(slots: seq<Slot>, f: int, slot: Slot)
    requires 0 <= f < |slots| && !slots[f].on && slot.on
    ensures FreeSlots(slots[f := slot]) == FreeSlots(slots) - 1
    decreases |slots|
  {
    if f == 0 {
      assert slots[f := slot][1..] == slots[1..];
    } else {
      assert slots[f := slot][1..] == slots[1..][f - 1 := slot];
      TakeSlot(slots[1..], f - 1, slot);
    }
  }

  /** The scan for a free slot stays inside the table for every packet of a pass exactly
      when there are at least as many free slots as packets to send. */
  lemma {:induction false} SlotsSufficeExactly(s: Sender, i: int)
    requires Shaped(s) && 0 <= i <= |s.acks|
    ensures SendFrom(s, i).Some? <==> ToSend(s.acks[i..]) <= FreeSlots(s.slots)
    decreases |s.acks| - i
  {
    NoneFree(s.slots);
    if i == |s.acks| {
    } else {
      assert s.acks[i..][1..] == s.acks[i + 1..];
      if s.acks[i] > 0 {
        SlotsSufficeExactly(s, i + 1);
      } else if FirstFree(s.slots, 0) < SLOTS {
        var f := FirstFree(s.slots, 0);
        SendOneShaped(s, i);
        TakeSlot(s.slots, f, Slot(s.base + 1 + i, true));
        assert SendOne(s, i).acks[i + 1..] == s.acks[i + 1..];
        SlotsSufficeExactly(SendOne(s, i), i + 1);
      }
    }
  }

  // ----- at most twenty packets: a free slot is always there

  function Interval(lo: int, hi: int): (ns: set<int>)
    ensures forall n :: n in ns <==> lo <= n < hi
    decreases hi - lo
  {
    if hi <= lo then {} else Interval(lo, hi - 1) + {hi - 1}
  }

  lemma {:induction false} IntervalSize(lo: int, hi: int)
    requires lo <= hi
    ensures |Interval(lo, hi)| == hi - lo
    decreases hi - lo
  {
    if lo == hi {
    } else {
      IntervalSize(lo, hi - 1);
    }
  }

  lemma {:induction false} DistinctNumbers(ns: seq<int>, within: set<int>)
    requires forall a, b | 0 <= a < b < |ns| :: ns[a] != ns[b]
    requires forall a | 0 <= a < |ns| :: ns[a] in within
    ensures |ns| <= |within|
    decreases |ns|
  {
    if ns == [] {
    } else {
      DistinctNumbers(ns[1..], within - {ns[0]});
    }
  }

  lemma FreeSlotExists(s: Sender, i: int)
    requires Shaped(s) && OneToOne(s) && |s.acks| <= SLOTS
    requires 0 <= i < |s.acks| && s.acks[i] == 0
    ensures FirstFree(s.slots, 0) < SLOTS
  {
    if FirstFree(s.slots, 0) == SLOTS {
      var n := s.base + 1 + i;
      var ns := UsedNumbers(s, n);
      hide *;
      IntervalSize(s.base + 1, s.base + 1 + |s.acks|);
      DistinctNumbers(ns, Interval(s.base + 1, s.base + 1 + |s.acks|) - {n});
    }
  }

  /** With every slot in use their numbers are distinct, outstanding and not that packet's. */
  lemma UsedNumbers(s: Sender, n: int) returns (ns: seq<int>)
    requires Shaped(s) && OneToOne(s) && Outstanding(s, n) && AckOf(s, n) == 0
    requires FirstFree(s.slots, 0) == SLOTS
    ensures |ns| == SLOTS && (forall a, b | 0 <= a < b < SLOTS :: ns[a] != ns[b])
    ensures forall j | 0 <= j < SLOTS :: ns[j] in Interval(s.base + 1, s.base + 1 + |s.acks|) - {n}
  {
    ns := seq(SLOTS, j requires 0 <= j < SLOTS => s.slots[j].bsn);
    assert forall j | 0 <= j < SLOTS :: s.slots[j].on;
    forall j | 0 <= j < SLOTS
      ensures ns[j] in Interval(s.base + 1, s.base + 1 + |s.acks|) - {n}
    {
      assert s.slots[j].on && AckOf(s, s.slots[j].bsn) == 1;
    }
  }

  lemma {:induction false} SendFromSucceeds(s: Sender, i: int)
    requires Shaped(s) && OneToOne(s) && |s.acks| <= SLOTS && 0 <= i <= |s.acks|
    ensures SendFrom(s, i).Some?
    decreases |s.acks| - i
  {
    hide OneToOne;
    if i == |s.acks| {
    } else {
      if s.acks[i] > 0 {
        SendFromSucceeds(s, i + 1);
      } else {
        assert s.acks[i] == 0;
        FreeSlotExists(s, i);
        SendOneShaped(s, i);
        SendOneCorresponds(s, i);
        hide Shaped;
        SendFromSucceeds(SendOne(s, i), i + 1);
      }
    }
  }

  // ----- chunks of PKT bytes, but for the last

  /** All packets but the last are full; the last is full or ends the stream. */
  ghost predicate FullChunks(s: Sender) {
    var last := |s.cuts| - 1;
    && last >= 0
    && (forall k | 0 <= k < last :: s.cuts[k] == k * PKT)
    && (s.cuts[last] == last * PKT || s.cuts[last] == |s.added|)
  }

  /** The discipline of a sender of full packets: a short chunk is the last one. */
  ghost predicate ChunkAllowed(s: Sender, chunk: seq<byte>) {
    |s.added| % PKT == 0 && 1 <= |chunk| <= PKT
  }

  lemma AtMostTwenty(s: Sender)
    requires Settled(s) && FullChunks(s)
    ensures |s.acks| <= SLOTS
  {
    var m := |s.acks|;
    if m > 1 {
      assert s.cuts[s.base + m - 1] - s.cuts[s.base] == (m - 1) * PKT;
      CutsAscend(s, s.base + m - 1, s.base + m);
    }
  }

  lemma ExtendOneFull(s: Sender)
    requires Shaped(s) && FullChunks(s) && Covered(s) < Reach(s)
    ensures Shaped(ExtendOne(s)) && FullChunks(ExtendOne(s))
  {
    ExtendOneShaped(s);
    var last := |s.cuts| - 1;
    assert s.cuts[last] == last * PKT;
    assert s.cuts[s.base] == s.base * PKT;
    assert Covered(s) == (last - s.base) * PKT;
    assert WIN - Covered(s) >= PKT;
  }

  lemma {:induction false} ExtendFull(s: Sender)
    requires Shaped(s) && Covered(s) <= Reach(s) && FullChunks(s)
    ensures Shaped(Extend(s)) && FullChunks(Extend(s))
    decreases Reach(s) - Covered(s)
  {
    if Covered(s) >= Reach(s) {
    } else {
      ExtendOneShaped(s);
      ExtendOneFull(s);
      hide Shaped, FullChunks;
      ExtendFull(ExtendOne(s));
    }
  }

  lemma CheckWindowFull(s: Sender)
    requires Shaped(s) && Covered(s) <= Reach(s) && FullChunks(s)
    ensures Shaped(CheckWindow(s)) && FullChunks(CheckWindow(s))
  {
    ReleaseShaped(s);
    ExtendFull(Release(s));
  }

  lemma AppendedFull(s: Sender, chunk: seq<byte>)
    requires Settled(s) && FullChunks(s) && ChunkAllowed(s, chunk) && |chunk| <= CAP - Held(s)
    ensures var a := Appended(s, chunk);
      Shaped(a) && Covered(a) <= Reach(a) && FullChunks(a)
  {
    var last := |s.cuts| - 1;
    CutsAscend(s, if last > 0 then last - 1 else 0, last);
    assert s.cuts[last] == last * PKT;
  }

  lemma AddDataFull(s: Sender, chunk: seq<byte>)
    requires Settled(s) && FullChunks(s) && ChunkAllowed(s, chunk)
    ensures FullChunks(AddData(s, chunk).0)
  {
    if |chunk| <= CAP - Held(s) {
      AppendedFull(s, chunk);
      hide *;
      CheckWindowFull(Appended(s, chunk));
    } else {
      CheckWindowIdle(s);
    }
  }

  lemma RecvAckFull(s: Sender, n: int)
    requires Settled(s) && FullChunks(s)
    ensures FullChunks(RecvAck(s, n).0)
  {
    RecvAckParts(s, n);
    var t := SetAck(FreeSlot(s, n), n, 2);
    hide Shaped, CheckWindow, RecvAck, SetAck, FreeSlot;
    if Outstanding(s, n) {
      CheckWindowFull(t);
    }
  }

  /** With full chunks no pass ever runs out of slots, and afterwards every packet in the
      window is sent or acknowledged, each sent one with a slot of its own. */
  lemma FullChunksAlwaysSend(s: Sender)
    requires Settled(s) && OneToOne(s) && FullChunks(s)
    ensures SendWindow(s).Some?
    ensures OneToOne(SendWindow(s).value.0)
    ensures forall i | 0 <= i < |s.acks| :: i < |SendWindow(s).value.0.acks| && SendWindow(s).value.0.acks[i] > 0
  {
    AtMostTwenty(s);
    SendFromSucceeds(s, 0);
    SendFromCorresponds(s, 0);
    SendFromSettles(s, 0);
    assert forall i | 0 <= i < |s.acks| :: 0 <= s.acks[i] <= 2;
  }
}
