/** cbuffer.c: the sender's ring, its list of packets and its table of send times. */
module WindowBuffer {
  import opened Parameters
  import opened Rings
  import opened Wrappers
  import opened Window
  import opened WindowNodes
  import Crc32

  class PackNode {
    var seqnum: int
    var data: int
    var size: int
    var ack: int
    var next: PackNode?

    constructor (data: int, size: int, seqnum: int)
      ensures View() == Node(seqnum, data, size, 0) && next == null
    {
      this.seqnum, this.data, this.size, ack, next := seqnum, data, size, 0, null;
    }

    ghost function View(): Node
      reads this
    {
      Node(seqnum, data, size, ack)
    }
  }

  ghost function Nth(nodes: seq<PackNode>, k: int): PackNode? {
    if 0 <= k < |nodes| then nodes[k] else null
  }

  /** The next fields run through the nodes in order. */
  ghost predicate Chained(nodes: seq<PackNode>)
    reads nodes
  {
    && (forall i, j | 0 <= i < j < |nodes| :: nodes[i] != nodes[j])
    && (forall i {:trigger nodes[i].next} | 0 <= i < |nodes| :: nodes[i].next == Nth(nodes, i + 1))
  }

  ghost predicate Shows(nodes: seq<PackNode>, views: seq<Node>)
    reads nodes
  {
    |nodes| == |views| && forall i | 0 <= i < |nodes| :: nodes[i].View() == views[i]
  }

  /** The list behind the sentinel `head`. */
  ghost predicate Listed(head: PackNode, nodes: seq<PackNode>, views: seq<Node>)
    reads head, nodes
  {
    head !in nodes && head.next == Nth(nodes, 0) && Chained(nodes) && Shows(nodes, views)
  }

  class Buffer {
    const cirbuffer: array<byte>
    const packtimes: array<Slot>
    const head: PackNode
    var dstart: int
    var dend: int
    var windowend: int
    var packseq: int
    var isEmpty: bool
    ghost var nodes: seq<PackNode>
    ghost var views: seq<Node>
    ghost var st: Sender

    /** Everything but that the window is settled. */
    ghost predicate Sound()
      reads this, head, nodes, cirbuffer, packtimes
    {
      && Listed(head, nodes, views)
      && Describes(views, st)
      && 0 <= st.base < |st.cuts|
      && Kept(cirbuffer[..], st)
      && Indexed(dstart, dend, isEmpty, packseq, st)
      && packtimes[..] == st.slots
      && Covered(st) <= Reach(st)
    }

    ghost predicate Valid()
      reads this, head, nodes, cirbuffer, packtimes
    {
      Sound() && Settled(st)
    }

    constructor ()
      ensures Valid() && st == INITIAL && nodes == []
      ensures fresh(cirbuffer) && fresh(packtimes) && fresh(head)
    {
      head := new PackNode(0, 0, 0);
      cirbuffer := new byte[CAP];
      packtimes := new Slot[SLOTS](_ => Slot(0, false));
      dstart, dend, windowend, packseq, isEmpty := 0, 0, 0, 1, true;
      nodes, views, st := [], [], INITIAL;
    }

    /** cbuffer.c:212-232. */
    method SpaceLeft() returns (space: int)
      requires Indexed(dstart, dend, isEmpty, packseq, st)
      modifies this`isEmpty
      ensures Indexed(dstart, dend, isEmpty, packseq, st)
      ensures space == CAP - Held(st)
    {
      IndexDistance(st);
      hide Shaped, At;
      if dend < dstart {
        isEmpty := false;
        return dstart - dend;
      } else if dstart < dend {
        isEmpty := false;
        return CAP - (dend - dstart);
      }
      if isEmpty {
        return CAP;
      } else {
        return 0;
      }
    }

    /** cbuffer.c:235-242. */
    method IsFull() returns (full: bool)
      requires Indexed(dstart, dend, isEmpty, packseq, st)
      modifies this`isEmpty
      ensures Indexed(dstart, dend, isEmpty, packseq, st)
      ensures full <==> Held(st) == CAP
    {
      var space := SpaceLeft();
      return space == 0;
    }

    /** cbuffer.c:276-303: acknowledged packets at the front are released. */
    method ReleaseFront()
      requires Sound()
      modifies this, head
      ensures Sound() && st == Release(old(st))
      ensures |nodes| <= |old(nodes)| && nodes == old(nodes)[|old(nodes)| - |nodes|..]
    {
      hide Describes, Kept, Indexed, Shaped, Listed, Covered, Reach;
      var current := head.next;
      while current != null
        invariant Sound() && Release(st) == Release(old(st))
        invariant |nodes| <= |old(nodes)| && nodes == old(nodes)[|old(nodes)| - |nodes|..]
        invariant current == head.next
        decreases |nodes|
      {
        Front(current);
        if current.ack == 2 {
          ReleaseNode(current);
          current := head.next;
        } else {
          break;
        }
      }
      if current == null { NoNodes(); }
    }

    lemma NoNodes()
      requires Listed(head, nodes, views) && Describes(views, st) && head.next == null
      ensures nodes == [] && st.acks == []
    {
    }

    lemma Front(current: PackNode)
      requires Listed(head, nodes, views) && Describes(views, st) && current == head.next
      ensures |nodes| == |views| == |st.acks| > 0 && current == nodes[0] && current.View() == views[0]
      ensures current.ack == 2 <==> Releasable(st)
      ensures current.next == null <==> |nodes| == 1
    {
    }

    /** cbuffer.c:279-298, for the first node. */
    method ReleaseNode(current: PackNode)
      requires Sound() && current == head.next && current.ack == 2
      modifies this, head
      ensures Sound() && |old(st).acks| > 0 && st == ReleaseOne(old(st))
      ensures |old(nodes)| > 0 && nodes == old(nodes)[1..]
    {
      hide Describes, Kept, Indexed, Shaped, Chained, Shows, Covered, Reach, Held;
      Front(current);
      DropFirst(nodes, views);
      ReleaseView(views, st);
      ReleaseRing(cirbuffer[..], st);
      ReleaseIndices(st, dstart, dend, isEmpty, packseq, current.size);
      dstart := (dstart + current.size) % CAP;
      if current.next == null {
        head.next := null;
        isEmpty := true;
      } else {
        head.next := current.next;
      }
      nodes, views, st := nodes[1..], views[1..], ReleaseOne(st);
    }

    /** cbuffer.c:307-314. */
    method SetWindowEnd()
      requires Indexed(dstart, dend, isEmpty, packseq, st)
      modifies this`isEmpty, this`windowend
      ensures Indexed(dstart, dend, isEmpty, packseq, st) && windowend == At(dstart + Reach(st))
    {
      hide Shaped, Held, Indexed, Reach;
      IndexRange(st, dstart, dend, isEmpty, packseq);
      var space := SpaceLeft();
      if CAP - space >= WIN {
        windowend := (dstart + WIN) % CAP;
      } else {
        space := SpaceLeft();
        windowend := (CAP - space + dstart) % CAP;
      }
    }

    /** cbuffer.c:307-324: how far the window reaches from its start. */
    method Distance() returns (distance: int)
      requires Sound()
      modifies this`isEmpty, this`windowend
      ensures Sound() && distance == Reach(st)
      ensures windowend == At(dstart + distance)
    {
      hide Listed, Describes, Kept, Shaped, Held, Covered, Indexed, Reach;
      SetWindowEnd();
      IndexRange(st, dstart, dend, isEmpty, packseq);
      IsShaped(views, st);
      WindowDistance(dstart, Reach(st));
      distance := 0;
      if dstart < windowend {
        distance := windowend - dstart;
      } else if windowend < dstart {
        distance := CAP - dstart + windowend;
      }
    }

    ghost function Last(): PackNode
      reads this
    {
      if nodes == [] then head else nodes[|nodes| - 1]
    }

    /** A new node goes behind the last one (cbuffer.c:329-332, 348-351). */
    method Attach(prev: PackNode, data: int, size: int) returns (node: PackNode)
      requires Sound() && prev == Last()
      requires Covered(st) < Reach(st)
      requires data == At(st.cuts[|st.cuts| - 1]) && size == Min(PKT, Reach(st) - Covered(st))
      modifies this, prev`next
      ensures Sound() && st == ExtendOne(old(st)) && Reach(st) == old(Reach(st))
      ensures Covered(st) == old(Covered(st)) + size
      ensures nodes == old(nodes) + [node] && fresh(node)
      ensures node.data == data && node.size == size
      ensures (data + size) % CAP == At(st.cuts[|st.cuts| - 1])
    {
      hide Describes, Kept, Shaped, Listed, Indexed, Reach, Covered;
      Extends(views, cirbuffer[..], st, dstart, dend, isEmpty, packseq);
      node := new PackNode(data, size, packseq);
      packseq := packseq + 1;
      LinkLast(head, nodes, views, prev, node);
      nodes, views, st := nodes + [node], views + [node.View()], ExtendOne(st);
    }

    /** cbuffer.c:336-342: the last node, and what is left of the distance behind it. */
    method LastNode(distance: int) returns (current: PackNode, left: int)
      requires Sound() && nodes != []
      ensures current == Last() && left == distance - Covered(st)
      ensures (current.data + current.size) % CAP == At(st.cuts[|st.cuts| - 1])
    {
      hide Kept, Indexed, Describes, Listed, Shaped;
      ghost var i := 0;
      IsListed();
      NodeFacts(0);
      current := head.next;
      left := distance;
      while current.next != null
        invariant 0 <= i < |nodes| == |st.acks| && 0 <= st.base && |st.cuts| == st.base + |st.acks| + 1
        invariant current == nodes[i]
        invariant left == distance - (st.cuts[st.base + i] - st.cuts[st.base])
        decreases |nodes| - i
      {
        NodeFacts(i);
        left := left - current.size;
        current := current.next;
        i := i + 1;
      }
      NodeFacts(i);
      left := left - current.size;
    }

    lemma NodeFacts(i: int)
      requires Sound() && 0 <= i < |nodes|
      ensures |nodes| == |st.acks| && 0 <= st.base && |st.cuts| == st.base + |st.acks| + 1
      ensures head.next == nodes[0]
      ensures nodes[i].View() == NodeAt(st, i)
      ensures nodes[i].next == Nth(nodes, i + 1)
      ensures (nodes[i].data + nodes[i].size) % CAP == At(st.cuts[st.base + i + 1])
    {
      AtAdd(st.cuts[st.base + i], st.cuts[st.base + i + 1] - st.cuts[st.base + i]);
      assert nodes[i].View() == views[i];
    }

    /** cbuffer.c:325-353. */
    method ExtendWindow(distance: int)
      requires Sound() && distance == Reach(st)
      modifies this, head, nodes
      ensures Sound() && st == Extend(old(st))
      ensures forall k | 0 <= k < |nodes| :: nodes[k] in old(nodes) || fresh(nodes[k])
    {
      hide Kept, Indexed, Describes, Listed, Shaped, Covered, Reach, Extend;
      if distance > 0 {
        var current, left;
        if head.next == null {
          NoNodes();
          NothingCovered(st, dstart, dend, isEmpty, packseq);
          ExtendStep(st);
          current := Attach(head, dstart, Min(PKT, distance));
          left := distance - Min(PKT, distance);
        } else {
          SomeNodes();
          current, left := LastNode(distance);
        }
        while left > 0
          invariant Sound() && Extend(st) == Extend(old(st)) && Reach(st) == distance
          invariant nodes != [] && current == Last() && left == distance - Covered(st)
          invariant forall k | 0 <= k < |nodes| :: nodes[k] in old(nodes) || fresh(nodes[k])
          invariant |st.cuts| > 0 && (current.data + current.size) % CAP == At(st.cuts[|st.cuts| - 1])
          decreases left
        {
          var size := Min(PKT, left);
          ExtendStep(st);
          current := Attach(current, (current.data + current.size) % CAP, size);
          left := left - size;
        }
        ExtendStep(st);
      } else {
        IsShaped(views, st);
        NothingHeld(st);
      }
    }

    lemma IsListed()
      requires Sound()
      ensures |nodes| == |views| == |st.acks|
    {
    }

    lemma SomeNodes()
      requires Sound() && head.next != null
      ensures nodes != [] && |st.cuts| > 0
    {
    }

    /** cbuffer.c:274-364. */
    method CheckWindow()
      requires Sound()
      modifies this, head, nodes
      ensures Valid() && st == Window.CheckWindow(old(st))
      ensures forall k | 0 <= k < |nodes| :: nodes[k] in old(nodes) || fresh(nodes[k])
    {
      hide Kept, Indexed, Describes, Listed, Shaped, Covered, Reach, Extend, Release;
      IsShaped(views, st);
      CheckWindowSettles(st);
      ReleaseFront();
      var distance := Distance();
      ExtendWindow(distance);
    }

    /** memcpy(cirbuffer + at, bytes, |bytes|) */
    method Copy(at: int, bytes: seq<byte>)
      requires 0 <= at && at + |bytes| <= cirbuffer.Length
      modifies cirbuffer
      ensures cirbuffer[..] == old(cirbuffer[..at]) + bytes + old(cirbuffer[at + |bytes|..])
    {
      forall j | 0 <= j < |bytes| {
        cirbuffer[at + j] := bytes[j];
      }
    }

    /** cbuffer.c:250-260, with `dend` reduced at :253 when the chunk ends the ring. */
    method Write(data: seq<byte>, size: int)
      requires cirbuffer.Length == CAP && 0 <= dend < CAP && size == |data| <= CAP
      modifies this`dend, cirbuffer
      ensures cirbuffer[..] == Written(old(cirbuffer[..]), old(dend), data)
      ensures dend == At(old(dend) + size)
    {
      if CAP - dend >= size {
        Copy(dend, data);
        dend := (dend + size) % CAP;
      } else {
        ghost var ring := cirbuffer[..];
        Copy(dend, data[..CAP - dend]);
        ghost var between := cirbuffer[..];
        Copy(0, data[CAP - dend..]);
        WrittenAround(ring, dend, data, between, cirbuffer[..]);
        dend := size - (CAP - dend);
      }
    }

    /** cbuffer.c:245-270. */
    method AddData(data: seq<byte>, size: int) returns (taken: bool)
      requires Valid() && 1 <= size == |data|
      modifies this, head, nodes, cirbuffer
      ensures Valid()
      ensures st == Window.AddData(old(st), data).0 && taken == Window.AddData(old(st), data).1
      ensures forall k | 0 <= k < |nodes| :: nodes[k] in old(nodes) || fresh(nodes[k])
    {
      hide Kept, Indexed, Describes, Listed, Shaped, Covered, Reach, Held, Written;
      IsShaped(views, st);
      var space := SpaceLeft();
      if space >= size {
        Appends(views, cirbuffer[..], st, data, dstart, dend, isEmpty, packseq);
        Write(data, size);
        isEmpty := false;
        st := Appended(st, data);
        taken := true;
      } else {
        taken := false;
      }
      CheckWindow();
    }

    /** `ack` of one node changes. */
    method Mark(current: PackNode, ghost i: int, ack: int)
      requires Sound() && 0 <= i < |nodes| && current == nodes[i] && 0 <= ack <= 2
      modifies this`views, this`st, current`ack
      ensures Sound() && nodes == old(nodes)
      ensures |old(st).acks| == |nodes| && st == old(st).(acks := old(st).acks[i := ack])
    {
      hide Kept, Indexed, Describes, Shaped, Covered, Reach;
      IsListed();
      Marks(views, cirbuffer[..], st, dstart, dend, isEmpty, packseq, i, ack);
      current.ack := ack;
      assert forall k | 0 <= k < |nodes| && k != i :: nodes[k] != current && nodes[k].View() == old(nodes[k].View());
      views, st := views[i := views[i].(ack := ack)], st.(acks := st.acks[i := ack]);
    }

    /** The node with the given number, if it is in the list: the loops at
        cbuffer.c:425-434, 440-458, 504-516, 522-530. */
    method Find(num: int) returns (current: PackNode?, ghost i: int)
      requires Sound()
      ensures current != null <==> Outstanding(st, num)
      ensures current != null ==> i == num - 1 - st.base && 0 <= i < |nodes| && current == nodes[i]
    {
      hide Kept, Indexed, Describes, Listed, Shaped, Covered, Reach;
      IsListed();
      StartsAt();
      current, i := head.next, 0;
      while current != null
        invariant 0 <= i <= |nodes| && current == Nth(nodes, i)
        invariant st.base + i < num || num <= st.base
        decreases |nodes| - i
      {
        NodeFacts(i);
        if current.seqnum == num {
          return;
        }
        current, i := current.next, i + 1;
      }
    }

    lemma StartsAt()
      requires Sound()
      ensures head.next == Nth(nodes, 0)
    {
    }

    /** cbuffer.c:423-436: as a side effect the packet counts as sent. */
    method RequestSize(num: int) returns (size: int)
      requires Sound()
      modifies this`views, this`st, nodes
      ensures Sound() && nodes == old(nodes) && st == SetAck(old(st), num, 1)
      ensures Outstanding(old(st), num) ==> Shaped(old(st)) && size == |Packet(old(st), num)|
      ensures !Outstanding(old(st), num) ==> size == 0
    {
      hide Kept, Indexed, Describes, Listed, Shaped, Covered, Reach;
      IsShaped(views, st);
      IsListed();
      var current, i := Find(num);
      if current != null {
        NodeFacts(i);
        PacketLength(st, num);
        Mark(current, i, 1);
        return current.size;
      }
      return 0;
    }

    /** cbuffer.c:439-461: the bytes of a packet, wherever they lie in the ring. */
    method RequestData(num: int) returns (d: seq<byte>)
      requires Sound()
      modifies this`views, this`st, nodes
      ensures Sound() && nodes == old(nodes) && st == SetAck(old(st), num, 1)
      ensures Outstanding(old(st), num) ==> Shaped(old(st)) && d == Packet(old(st), num)
      ensures !Outstanding(old(st), num) ==> d == []
    {
      hide Kept, Indexed, Describes, Listed, Shaped, Covered, Reach;
      IsShaped(views, st);
      IsListed();
      var current, i := Find(num);
      if current != null {
        NodeFacts(i);
        SliceIsPacket(cirbuffer[..], st, i);
        assert |cirbuffer[..]| == CAP;
        Mark(current, i, 1);
        d := CopyOut(current.data, current.size);
      } else {
        d := [];
      }
    }

    method CopyOut(data: int, size: int) returns (d: seq<byte>)
      requires cirbuffer.Length == CAP && 0 <= data < CAP && 0 <= size <= CAP
      ensures d == RingSlice(cirbuffer[..], data, size)
    {
      if size + data > CAP {
        d := cirbuffer[data..] + cirbuffer[..size - (CAP - data)];
      } else {
        d := cirbuffer[data..data + size];
      }
    }

    /** cbuffer.c:398-402, bounded by the table. */
    method ScanFree() returns (i: int)
      requires packtimes.Length == SLOTS
      ensures i == FirstFree(packtimes[..], 0)
    {
      i := 0;
      while i < SLOTS && packtimes[i].on
        invariant 0 <= i <= SLOTS && FirstFree(packtimes[..], 0) == FirstFree(packtimes[..], i)
      {
        i := i + 1;
      }
    }

    /** cbuffer.c:491-492, bounded by the table. */
    method ScanFor(num: int) returns (i: int)
      requires packtimes.Length == SLOTS
      ensures i == FirstWith(packtimes[..], num, 0)
    {
      i := 0;
      while i < SLOTS && packtimes[i].bsn != num
        invariant 0 <= i <= SLOTS && FirstWith(packtimes[..], num, 0) == FirstWith(packtimes[..], num, i)
      {
        i := i + 1;
      }
    }

    lemma TableSize()
      requires Sound()
      ensures packtimes.Length == SLOTS == |st.slots|
    {
      assert |packtimes[..]| == SLOTS;
    }

    /** Only the table changes. */
    method SetSlot(i: int, slot: Slot)
      requires Sound() && 0 <= i < packtimes.Length == |st.slots| == SLOTS
      modifies this`st, packtimes
      ensures Sound() && st == old(st).(slots := old(st).slots[i := slot])
    {
      hide Indexed;
      Slots(views, cirbuffer[..], st, dstart, dend, isEmpty, packseq, st.slots[i := slot]);
      hide Kept, Describes, Listed, Shaped, Covered, Reach;
      packtimes[i] := slot;
      st := st.(slots := st.slots[i := slot]);
    }

    /** cbuffer.c:378-393: the packet to send; asking for it marks it as sent. */
    method Prepare(current: PackNode, ghost i: int) returns (packet: Datagram)
      requires Sound() && 0 <= i < |nodes| == |st.acks| && current == nodes[i] && current.ack == 0
      modifies this`views, this`st, nodes
      ensures Sound() && nodes == old(nodes) && |nodes| == |st.acks|
      ensures st == old(st).(acks := old(st).acks[i := 1])
      ensures Shaped(old(st)) && packet == Stamped(old(st).base + 1 + i, Packet(old(st), old(st).base + 1 + i))
    {
      hide Kept, Indexed, Describes, Listed, Shaped, Covered, Reach, Packet;
      IsShaped(views, st);
      NodeFacts(i);
      var bsn := current.seqnum;
      var size := RequestSize(bsn);
      IsShaped(views, st);
      var data := RequestData(bsn);
      SamePacket(old(st), old(st).(acks := old(st).acks[i := 1]), bsn);
      var crc := Crc32.Crc32(Crc32.CRC_POLY, data);
      packet := Datagram(crc, bsn, data);
    }

    /** cbuffer.c:378-417: one packet goes out, unless no slot is free. */
    method SendNode(current: PackNode, ghost i: int) returns (ok: bool, packet: Datagram)
      requires Sound() && 0 <= i < |nodes| == |st.acks| && current == nodes[i] && current.ack == 0
      modifies this`views, this`st, nodes, packtimes
      ensures |old(st).slots| == SLOTS && (ok <==> FirstFree(old(st).slots, 0) < SLOTS)
      ensures ok ==> Sound() && nodes == old(nodes) && st == SendOne(old(st), i)
      ensures ok ==> Shaped(old(st)) && packet == Stamped(old(st).base + 1 + i, Packet(old(st), old(st).base + 1 + i))
    {
      hide Kept, Indexed, Describes, Listed, Shaped, Covered, Reach, Packet;
      TableSize();
      packet := Prepare(current, i);
      var slot := ScanFree();
      if slot == SLOTS {
        return false, packet;
      }
      SetSlot(slot, Slot(packet.packnum, true));
      Mark(current, i, 1);
      ok := true;
    }

    /** One turn of the loop at cbuffer.c:372-419. */
    method SendTurn(current: PackNode, ghost i: int, sent: seq<Datagram>, ghost whole: Option<(Sender, seq<Datagram>)>)
      returns (ok: bool, after: seq<Datagram>)
      requires Sound() && 0 <= i < |nodes| == |st.acks| && current == nodes[i]
      requires Shaped(st) && Continues(whole, sent, SendFrom(st, i))
      modifies this`views, this`st, nodes, packtimes
      ensures !ok ==> whole == None
      ensures ok ==> Sound() && nodes == old(nodes) && |nodes| == |st.acks| && Shaped(st)
      ensures ok ==> SameButSent(old(st), st) && Continues(whole, after, SendFrom(st, i + 1))
    {
      hide Kept, Indexed, Describes, Listed, Shaped, Covered, Reach, Packet, SendFrom;
      SendStep(st, i);
      AckRange(st, i);
      if current.ack > 0 {
        NodeFacts(i);
        return true, sent;
      }
      NodeFacts(i);
      ghost var before := st;
      var packet;
      ok, packet := SendNode(current, i);
      if ok {
        SendOneShaped(before, i);
        ContinuesOne(whole, sent, SendFrom(before, i), packet, SendFrom(st, i + 1));
      }
      after := sent + [packet];
    }

    /** cbuffer.c:368-420. `ok` is false when a packet finds no free slot; the original
        then reads and writes past its table, and nothing is claimed. */
    method SendWindow() returns (ok: bool, sent: seq<Datagram>)
      requires Valid()
      modifies this`views, this`st, nodes, packtimes
      ensures Shaped(old(st)) && (ok <==> Window.SendWindow(old(st)).Some?)
      ensures ok ==> Valid() && nodes == old(nodes) && (st, sent) == Window.SendWindow(old(st)).value
    {
      hide Kept, Indexed, Describes, Listed, Shaped, Covered, Reach, SendFrom, SameButSent;
      IsShaped(views, st);
      IsListed();
      StartsAt();
      var current := head.next;
      ghost var i, whole := 0, SendFrom(st, 0);
      ok, sent := true, [];
      ContinuesStart(whole);
      SameStart(st);
      while current != null
        invariant Sound() && nodes == old(nodes) && Shaped(st)
        invariant 0 <= i <= |nodes| == |st.acks| && current == Nth(nodes, i)
        invariant SameButSent(old(st), st)
        invariant Continues(whole, sent, SendFrom(st, i))
        decreases |nodes| - i
      {
        ghost var before := st;
        ok, sent := SendTurn(current, i, sent, whole);
        if !ok {
          return;
        }
        SameTrans(old(st), before, st);
        NodeFacts(i);
        current, i := current.next, i + 1;
      }
      SendStep(st, i);
      ContinuesEnd(whole, sent, st);
      SentSettles(old(st), st);
    }

    /** cbuffer.c:485-518. A number in no slot leaves the table alone; the original then
        reads past it. */
    method RecvAck(num: int) returns (found: bool)
      requires Valid()
      modifies this, head, nodes, packtimes
      ensures Valid()
      ensures Shaped(old(st)) && (st, found) == Window.RecvAck(old(st), num)
      ensures forall k | 0 <= k < |nodes| :: nodes[k] in old(nodes) || fresh(nodes[k])
    {
      hide Kept, Indexed, Describes, Listed, Shaped, Covered, Reach, Window.CheckWindow;
      IsShaped(views, st);
      TableSize();
      FreeSlotSettled(st, num);
      var slot := ScanFor(num);
      if slot < SLOTS {
        SetSlot(slot, Off(packtimes[slot]));
      }
      var current, i := Find(num);
      if current != null {
        IsListed();
        Mark(current, i, 2);
        CheckWindow();
        return true;
      }
      return false;
    }

    /** cbuffer.c:533-539. */
    method ExpireSlots(bsn: int)
      requires Sound()
      modifies this`st, packtimes
      ensures Sound() && st == old(st).(slots := AllOff(old(st).slots, bsn))
    {
      hide Kept, Indexed, Describes, Listed, Shaped, Covered, Reach, AllOff;
      TableSize();
      ghost var before := st;
      AllOffEnds(before.slots, bsn);
      var q := 0;
      while q < SLOTS
        invariant 0 <= q <= SLOTS == packtimes.Length == |st.slots| == |before.slots|
        invariant Sound()
        invariant st == before.(slots := AllOff(before.slots[..q], bsn) + before.slots[q..])
      {
        AllOffNext(before.slots, bsn, q);
        assert packtimes[..][q] == st.slots[q] == before.slots[q];
        if packtimes[q].bsn == bsn {
          SetSlot(q, Off(packtimes[q]));
        }
        q := q + 1;
      }
    }

    /** cbuffer.c:520-541. */
    method TimerExpire(bsn: int)
      requires Valid()
      modifies this`views, this`st, nodes, packtimes
      ensures Valid() && nodes == old(nodes) && st == Window.TimerExpire(old(st), bsn)
    {
      hide Kept, Indexed, Describes, Listed, Shaped, Covered, Reach, AllOff;
      TimerExpireSettles(st, bsn);
      IsListed();
      var current, i := Find(bsn);
      if current != null {
        Mark(current, i, 0);
      }
      ExpireSlots(bsn);
    }
  }

  method LinkLast(head: PackNode, ghost nodes: seq<PackNode>, ghost views: seq<Node>, prev: PackNode, node: PackNode)
    requires Listed(head, nodes, views)
    requires prev == if nodes == [] then head else nodes[|nodes| - 1]
    requires node !in nodes && node != head && node.next == null
    modifies prev`next
    ensures Listed(head, nodes + [node], views + [node.View()])
    ensures node.View() == old(node.View())
  {
    prev.next := node;
    AddLast(nodes, views, node);
    assert forall i | 0 <= i < |nodes| :: nodes[i].View() == old(nodes[i].View());
  }

  lemma AddLast(nodes: seq<PackNode>, views: seq<Node>, node: PackNode)
    requires node !in nodes && node.next == null
    requires |nodes| == |views| && forall i | 0 <= i < |nodes| :: nodes[i].View() == views[i]
    requires forall i, j | 0 <= i < j < |nodes| :: nodes[i] != nodes[j]
    requires forall i {:trigger nodes[i].next} | 0 <= i < |nodes| :: nodes[i].next == if i + 1 < |nodes| then nodes[i + 1] else node
    ensures Chained(nodes + [node]) && Shows(nodes + [node], views + [node.View()])
  {
  }

  lemma DropFirst(nodes: seq<PackNode>, views: seq<Node>)
    requires Chained(nodes) && Shows(nodes, views) && |nodes| > 0
    ensures Chained(nodes[1..]) && Shows(nodes[1..], views[1..])
    ensures nodes[0].next == Nth(nodes[1..], 0)
  {
    forall i | 0 <= i < |nodes[1..]|
      ensures nodes[1..][i].next == Nth(nodes[1..], i + 1)
    {
      assert nodes[i + 1].next == Nth(nodes, i + 2);
    }
  }
}
