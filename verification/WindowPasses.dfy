/** What one pass of the client's loop does to the packets in the window. */
module WindowPasses {
  import opened Parameters
  import opened Window
  import opened WindowSlots
  import Stuck

  // ----- chunks and acknowledgements

  /** From s to t the given packets are acknowledged, if they were cut, and nothing happens to
      the others but that new ones are cut, to be sent; only acknowledged ones are released. */
  ghost predicate Took(s: Sender, t: Sender, acks: seq<int>) {
    && |s.cuts| == s.base + |s.acks| + 1 && |t.cuts| == t.base + |t.acks| + 1
    && |s.cuts| <= |t.cuts| && s.base <= t.base
    && (forall m | m in acks && m < |s.cuts| && Outstanding(t, m) :: AckOf(t, m) == 2)
    && (forall m | m !in acks && Outstanding(t, m) :: AckOf(t, m) == if Outstanding(s, m) then AckOf(s, m) else 0)
    && (forall m | m !in acks && Waiting(s, m) :: Outstanding(t, m))
  }

  lemma TookNone(s: Sender)
    requires Shaped(s)
    ensures Took(s, s, [])
  {
  }

  lemma TookBoth(s: Sender, t: Sender, u: Sender, a: seq<int>, b: seq<int>)
    requires Took(s, t, a) && Took(t, u, b)
    ensures Took(s, u, a + b)
  {
    forall m | Outstanding(u, m) && Outstanding(s, m)
      ensures Outstanding(t, m)
    {
    }
  }

  lemma {:induction false} ReleaseAcks(s: Sender)
    requires Shaped(s)
    ensures forall m | Outstanding(Release(s), m) :: Outstanding(s, m) && AckOf(Release(s), m) == AckOf(s, m)
    decreases |s.acks|
  {
    if Releasable(s) {
      ReleaseOneShaped(s);
      var t := ReleaseOne(s);
      ReleaseAcks(t);
      assert forall m | Outstanding(t, m) :: AckOf(t, m) == AckOf(s, m);
    } else {
    }
  }

  lemma CheckWindowAcks(s: Sender)
    requires Shaped(s) && Covered(s) <= Reach(s)
    ensures var t := CheckWindow(s);
      forall m | Outstanding(t, m) :: AckOf(t, m) == if Outstanding(s, m) then AckOf(s, m) else 0
  {
    hide Release, Extend;
    ReleaseShaped(s);
    ReleaseAcks(s);
    var r := Release(s);
    ExtendShaped(r);
    var t := Extend(r);
    forall m | Outstanding(t, m)
      ensures Outstanding(r, m) <==> Outstanding(s, m)
      ensures AckOf(t, m) == if Outstanding(r, m) then AckOf(r, m) else 0
    {
    }
  }

  lemma CheckWindowTakes(s: Sender)
    requires Shaped(s) && Covered(s) <= Reach(s)
    ensures Took(s, CheckWindow(s), [])
  {
    CheckWindowSettles(s);
    CheckWindowAcks(s);
    hide CheckWindow;
    forall m | Waiting(s, m)
      ensures Outstanding(CheckWindow(s), m)
    {
      Stuck.CheckWindowWaits(s, m);
    }
  }

  lemma RecvAckTakes(s: Sender, n: int)
    requires Settled(s)
    ensures Took(s, RecvAck(s, n).0, [n])
  {
    RecvAckParts(s, n);
    var t := FreeSlot(s, n);
    var u := SetAck(t, n, 2);
    assert Took(s, u, [n]);
    assert !Outstanding(s, n) ==> Took(s, t, [n]);
    hide Shaped, Settled, RecvAck, FreeSlot, SetAck, CheckWindow, Took;
    if Outstanding(s, n) {
      Covers(s);
      CheckWindowTakes(u);
      TookBoth(s, u, CheckWindow(u), [n], []);
      assert [n] + [] == [n];
    }
  }

  lemma Covers(s: Sender)
    requires Settled(s)
    ensures 0 <= s.base < |s.cuts| && Covered(s) <= Reach(s)
  {
  }

  lemma AppendTakes(s: Sender, chunk: seq<byte>, t: Sender)
    requires Took(Appended(s, chunk), t, [])
    ensures Took(s, t, [])
  {
  }

  /** A chunk goes in and takes room, or nothing changes because there is none. */
  lemma AddDataTakes(s: Sender, chunk: seq<byte>)
    requires Settled(s)
    ensures var (t, taken) := AddData(s, chunk);
      && Took(s, t, [])
      && 0 <= s.base < |s.cuts| && 0 <= t.base < |t.cuts|
      && (if taken then t.added == s.added + chunk && Held(t) == Held(s) + |chunk|
          else t == s && Held(s) + |chunk| > CAP)
  {
    AddDataSettles(s, chunk);
    if |chunk| <= CAP - Held(s) {
      var a := Appended(s, chunk);
      assert Shaped(a) && Covered(a) <= Reach(a) && Release(a) == a;
      hide Extend, Release, Shaped, Settled, AddData;
      ExtendShaped(a);
      CheckWindowTakes(a);
      AppendTakes(s, chunk, CheckWindow(a));
    } else {
      TookNone(s);
    }
  }

  /** Chunks are offered; one that waits afterwards does not fit. */
  ghost predicate Offered(s: Sender, t: Sender, temp: seq<byte>, waits: bool) {
    && Took(s, t, []) && s.added <= t.added
    && 0 <= s.base < |s.cuts| && 0 <= t.base < |t.cuts|
    && Held(t) == Held(s) + |t.added| - |s.added|
    && (waits ==> Held(t) + |temp| > CAP)
  }

  lemma OfferedNone(s: Sender, temp: seq<byte>)
    requires Settled(s)
    ensures Offered(s, s, temp, false)
  {
    TookNone(s);
  }

  lemma OfferedOne(s: Sender, temp: seq<byte>)
    requires Settled(s)
    ensures var (t, taken) := AddData(s, temp); Offered(s, t, temp, !taken)
  {
    AddDataTakes(s, temp);
    hide Settled, Shaped, AddData, Took;
  }

  lemma OfferedBoth(s: Sender, t: Sender, u: Sender, a: seq<byte>, b: seq<byte>, waits: bool)
    requires Offered(s, t, a, false) && Offered(t, u, b, waits)
    ensures Offered(s, u, b, waits)
  {
    TookBoth(s, t, u, [], []);
    hide Took;
  }

  /** So it is still in terms of what was held at first, when more is released later. */
  ghost predicate NoRoom(s: Sender, v: Sender, temp: seq<byte>, waits: bool) {
    && s.added <= v.added && 0 <= s.base < |s.cuts|
    && (waits ==> Held(s) + |v.added| - |s.added| + |temp| > CAP)
  }

  // ----- expiries

  /** From t to u the given packets, if outstanding, are put back to be sent. */
  ghost predicate PutBack(t: Sender, u: Sender, expiries: seq<int>) {
    && u.added == t.added && u.cuts == t.cuts && u.base == t.base && |u.acks| == |t.acks|
    && forall m | Outstanding(t, m) :: AckOf(u, m) == if m in expiries then 0 else AckOf(t, m)
  }

  lemma ExpirePutsBack(t: Sender, u: Sender, expiries: seq<int>, n: int)
    requires PutBack(t, u, expiries)
    ensures PutBack(t, TimerExpire(u, n), expiries + [n])
  {
    ExpireTakesOne(u, n);
    hide TimerExpire;
  }

  // ----- the whole pass

  /** What is to be sent goes out, each packet once and in order. */
  ghost predicate SentAll(u: Sender, v: Sender, sent: seq<Datagram>) {
    && v.cuts == u.cuts && v.base == u.base && |v.acks| == |u.acks|
    && (forall m | Outstanding(u, m) :: AckOf(v, m) == if AckOf(u, m) == 0 then 1 else AckOf(u, m))
    && SentOnce(u, 0, sent)
  }

  lemma SendSendsAll(u: Sender)
    requires Settled(u) && SendWindow(u).Some?
    ensures SentAll(u, SendWindow(u).value.0, SendWindow(u).value.1)
  {
    SendFromSettles(u, 0);
    SentExactly(u, 0);
    hide SendFrom, SentOnce;
  }

  /** A whole pass: of the packets that stay in the window, those acknowledged are so, those
      expired and those never sent are sent, and the others are as they were. */
  ghost predicate Passed(s: Sender, v: Sender, acks: seq<int>, expiries: seq<int>, sent: seq<Datagram>) {
    && (forall m | m !in acks && Waiting(s, m) :: Outstanding(v, m))
    && (forall m | Outstanding(v, m) && m in expiries :: AckOf(v, m) == 1 && HasNumber(sent, m))
    && (forall m | Outstanding(v, m) && m !in expiries && m in acks && m < |s.cuts| ::
          AckOf(v, m) == 2 && !HasNumber(sent, m))
    && (forall m | Outstanding(v, m) && m !in expiries && m !in acks ::
          if Outstanding(s, m) && AckOf(s, m) > 0 then AckOf(v, m) == AckOf(s, m) && !HasNumber(sent, m)
          else AckOf(v, m) == 1 && HasNumber(sent, m))
    && (forall k, l | 0 <= k < l < |sent| :: sent[k].packnum < sent[l].packnum)
  }

  lemma SentHas(u: Sender, sent: seq<Datagram>, m: int)
    requires SentOnce(u, 0, sent) && Outstanding(u, m)
    ensures HasNumber(sent, m) <==> ToBeSent(u, m)
  {
  }

  lemma PassedTogether(s: Sender, t: Sender, u: Sender, v: Sender, acks: seq<int>, expiries: seq<int>, sent: seq<Datagram>)
    requires Shaped(s) && Took(s, t, acks) && PutBack(t, u, expiries) && Shaped(u) && SentAll(u, v, sent)
    ensures Passed(s, v, acks, expiries, sent)
  {
    forall m | Outstanding(v, m)
      ensures Outstanding(u, m) && Outstanding(t, m)
      ensures HasNumber(sent, m) <==> AckOf(u, m) == 0
    {
      SentHas(u, sent, m);
    }
    assert forall m | Outstanding(s, m) :: 0 <= AckOf(s, m) <= 2;
    hide HasNumber, Shaped, ToBeSent;
  }
}
