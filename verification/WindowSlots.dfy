/** The table of send times against the packets it times. */
module WindowSlots {
  import opened Parameters
  import opened Window

  function AckOf(s: Sender, n: int): int
    requires Outstanding(s, n)
  {
    s.acks[n - 1 - s.base]
  }

  /** Packet n is outstanding and not acknowledged. */
  ghost predicate Waiting(s: Sender, n: int) {
    Outstanding(s, n) && AckOf(s, n) != 2
  }

  ghost predicate Live(slots: seq<Slot>, n: int) {
    exists j | 0 <= j < |slots| :: slots[j] == Slot(n, true)
  }

  /** A slot in use times a sent packet. */
  ghost predicate UsedAreSent(s: Sender) {
    forall j | 0 <= j < |s.slots| && s.slots[j].on :: Outstanding(s, s.slots[j].bsn) && AckOf(s, s.slots[j].bsn) == 1
  }

  /** A sent packet is timed. */
  ghost predicate SentAreTimed(s: Sender) {
    forall n | Outstanding(s, n) && AckOf(s, n) == 1 :: Live(s.slots, n)
  }

  /** Slots with one number may repeat, but the one in use comes first. */
  ghost predicate LiveFirst(slots: seq<Slot>) {
    forall k, j | 0 <= k < j < |slots| && slots[j].on :: slots[k].bsn != slots[j].bsn
  }

  /** Slots in use and sent packets correspond one to one. */
  ghost predicate OneToOne(s: Sender) {
    UsedAreSent(s) && SentAreTimed(s) && LiveFirst(s.slots)
  }

  /** The scan by number finds the slot in use, whatever stale ones there are. */
  lemma ScanFindsLive(s: Sender, j: int)
    requires LiveFirst(s.slots) && 0 <= j < |s.slots| && s.slots[j].on
    ensures FirstWith(s.slots, s.slots[j].bsn, 0) == j
    ensures forall k | 0 <= k < |s.slots| && k != j && s.slots[k].bsn == s.slots[j].bsn :: j < k && !s.slots[k].on
  {
  }

  // ----- the operations keep the correspondence

  lemma ReleaseOneCorresponds(s: Sender)
    requires OneToOne(s) && Releasable(s)
    ensures OneToOne(ReleaseOne(s))
  {
    var t := ReleaseOne(s);
    forall n | Outstanding(t, n)
      ensures Outstanding(s, n) && AckOf(t, n) == AckOf(s, n)
    {
    }
    forall j | 0 <= j < |s.slots| && s.slots[j].on
      ensures Outstanding(t, s.slots[j].bsn)
    {
      assert AckOf(s, s.slots[j].bsn) == 1;
    }
  }

  lemma {:induction false} ReleaseCorresponds(s: Sender)
    requires OneToOne(s)
    ensures OneToOne(Release(s))
    decreases |s.acks|
  {
    if !Releasable(s) {
    } else {
      ReleaseOneCorresponds(s);
      ReleaseCorresponds(ReleaseOne(s));
    }
  }

  lemma AppendedAcksCorrespond(s: Sender, t: Sender)
    requires OneToOne(s) && t.slots == s.slots && t.base == s.base && s.acks <= t.acks
    requires forall i | |s.acks| <= i < |t.acks| :: t.acks[i] == 0
    ensures OneToOne(t)
  {
    forall n | Outstanding(t, n) && AckOf(t, n) == 1
      ensures Live(t.slots, n)
    {
      assert Outstanding(s, n) && AckOf(s, n) == 1;
    }
    forall j | 0 <= j < |t.slots| && t.slots[j].on
      ensures Outstanding(t, t.slots[j].bsn) && AckOf(t, t.slots[j].bsn) == 1
    {
      assert AckOf(s, s.slots[j].bsn) == 1;
    }
  }

  lemma CheckWindowCorresponds(s: Sender)
    requires Shaped(s) && Covered(s) <= Reach(s) && OneToOne(s)
    ensures OneToOne(CheckWindow(s))
  {
    hide OneToOne, Release, Extend;
    ReleaseShaped(s);
    ReleaseCorresponds(s);
    ExtendShaped(Release(s));
    AppendedAcksCorrespond(Release(s), Extend(Release(s)));
  }

  lemma AddDataCorresponds(s: Sender, chunk: seq<byte>)
    requires Settled(s) && OneToOne(s)
    ensures OneToOne(AddData(s, chunk).0)
  {
    if |chunk| <= CAP - Held(s) {
      var a := Appended(s, chunk);
      assert Shaped(a) && Covered(a) <= Reach(a);
      AppendedAcksCorrespond(s, a);
      CheckWindowCorresponds(a);
    } else {
      CheckWindowCorresponds(s);
    }
  }

  /** What is taken away: no slot with the number stays in use, the others stay. */
  lemma AckTakes(s: Sender, n: int)
    requires Shaped(s) && LiveFirst(s.slots) && Outstanding(s, n)
    ensures var t := SetAck(FreeSlot(s, n), n, 2);
      && t.base == s.base && |t.acks| == |s.acks| && |t.slots| == |s.slots|
      && (forall m | Outstanding(s, m) :: Outstanding(t, m) && AckOf(t, m) == if m == n then 2 else AckOf(s, m))
      && (forall j | 0 <= j < |s.slots| :: t.slots[j].bsn == s.slots[j].bsn)
      && (forall j | 0 <= j < |s.slots| :: t.slots[j].on <==> s.slots[j].on && s.slots[j].bsn != n)
  {
    forall j | 0 <= j < |s.slots| && s.slots[j].on && s.slots[j].bsn == n
      ensures FirstWith(s.slots, n, 0) == j
    {
      ScanFindsLive(s, j);
    }
  }

  /** An acknowledgement takes the packet and its live slot, if it has one, away together. */
  lemma AckCorresponds(s: Sender, n: int)
    requires Shaped(s) && OneToOne(s) && Outstanding(s, n)
    ensures OneToOne(SetAck(FreeSlot(s, n), n, 2))
  {
    AckTakes(s, n);
    var t := SetAck(FreeSlot(s, n), n, 2);
    hide SetAck, FreeSlot, Shaped;
    forall m | Outstanding(t, m) && AckOf(t, m) == 1
      ensures Live(t.slots, m)
    {
      assert Outstanding(s, m) && m != n && AckOf(s, m) == 1;
      var j :| 0 <= j < |s.slots| && s.slots[j] == Slot(m, true);
      assert t.slots[j] == Slot(m, true);
    }
    forall j | 0 <= j < |t.slots| && t.slots[j].on
      ensures Outstanding(t, t.slots[j].bsn) && AckOf(t, t.slots[j].bsn) == 1
    {
      assert AckOf(s, s.slots[j].bsn) == 1;
    }
  }

  lemma FreeSlotIdle(s: Sender, n: int)
    requires Shaped(s) && OneToOne(s) && !Outstanding(s, n)
    ensures FreeSlot(s, n) == s
  {
    var f := FirstWith(s.slots, n, 0);
    if f < SLOTS {
      assert !s.slots[f].on;
      assert s.slots[f := Off(s.slots[f])] == s.slots;
    }
  }

  lemma RecvAckCorresponds(s: Sender, n: int)
    requires Settled(s) && OneToOne(s)
    ensures OneToOne(RecvAck(s, n).0)
  {
    if Outstanding(s, n) {
      AckCorresponds(s, n);
      var t := FreeSlot(s, n);
      assert Settled(t);
      SetAckShaped(t, n, 2);
      CheckWindowCorresponds(SetAck(t, n, 2));
    } else {
      FreeSlotIdle(s, n);
    }
  }

  lemma TimerExpireCorresponds(s: Sender, n: int)
    requires OneToOne(s)
    ensures OneToOne(TimerExpire(s, n))
  {
    var t := TimerExpire(s, n);
    forall m | Outstanding(t, m) && AckOf(t, m) == 1
      ensures Live(t.slots, m)
    {
      assert m != n && AckOf(s, m) == 1;
      var j :| 0 <= j < |s.slots| && s.slots[j] == Slot(m, true);
      assert t.slots[j] == s.slots[j];
    }
  }

  /** An expiry of a number that is not outstanding changes nothing. */
  lemma ExpireIdle(s: Sender, n: int)
    requires OneToOne(s) && !Outstanding(s, n)
    ensures TimerExpire(s, n) == s
  {
    forall j | 0 <= j < |s.slots|
      ensures AllOff(s.slots, n)[j] == s.slots[j]
    {
      assert s.slots[j].on ==> Outstanding(s, s.slots[j].bsn);
    }
  }

  /** An expiry puts its own packet back to be sent, frees its own slots, and does nothing to
      any other packet or slot. */
  lemma ExpireTakesOne(s: Sender, n: int)
    ensures var t := TimerExpire(s, n);
      && t.added == s.added && t.cuts == s.cuts && t.base == s.base
      && |t.acks| == |s.acks| && |t.slots| == |s.slots|
      && (forall m | Outstanding(s, m) :: Outstanding(t, m) && AckOf(t, m) == if m == n then 0 else AckOf(s, m))
      && (forall j | 0 <= j < |s.slots| :: t.slots[j].bsn == s.slots[j].bsn)
      && (forall j | 0 <= j < |s.slots| :: t.slots[j].on <==> s.slots[j].on && s.slots[j].bsn != n)
  {
  }

  lemma SendOneCorresponds(s: Sender, i: int)
    requires Shaped(s) && OneToOne(s)
    requires 0 <= i < |s.acks| && s.acks[i] == 0 && FirstFree(s.slots, 0) < SLOTS
    ensures OneToOne(SendOne(s, i))
  {
    var f, n, t := FirstFree(s.slots, 0), s.base + 1 + i, SendOne(s, i);
    assert Outstanding(s, n) && AckOf(s, n) == 0;
    forall m | Outstanding(t, m) && AckOf(t, m) == 1
      ensures Live(t.slots, m)
    {
      if m == n {
        assert t.slots[f] == Slot(n, true);
      } else {
        assert AckOf(s, m) == 1;
        var j :| 0 <= j < |s.slots| && s.slots[j] == Slot(m, true);
        assert t.slots[j] == s.slots[j];
      }
    }
    forall j | 0 <= j < |t.slots| && t.slots[j].on
      ensures Outstanding(t, t.slots[j].bsn) && AckOf(t, t.slots[j].bsn) == 1
    {
      if j != f { assert AckOf(s, s.slots[j].bsn) == 1; }
    }
    forall k, j | 0 <= k < j < |t.slots| && t.slots[j].on
      ensures t.slots[k].bsn != t.slots[j].bsn
    {
      assert j != f ==> AckOf(s, s.slots[j].bsn) == 1;
      assert k != f && k < f ==> s.slots[k].on && AckOf(s, s.slots[k].bsn) == 1;
    }
  }

  lemma {:induction false} SendFromCorresponds(s: Sender, i: int)
    requires Shaped(s) && OneToOne(s) && 0 <= i <= |s.acks|
    requires SendFrom(s, i).Some?
    ensures OneToOne(SendFrom(s, i).value.0)
    decreases |s.acks| - i
  {
    hide OneToOne;
    if i == |s.acks| {
    } else {
      if s.acks[i] > 0 {
        SendFromCorresponds(s, i + 1);
      } else {
        assert s.acks[i] == 0;
        SendOneShaped(s, i);
        SendOneCorresponds(s, i);
        hide Shaped;
        SendFromCorresponds(SendOne(s, i), i + 1);
      }
    }
  }
}
