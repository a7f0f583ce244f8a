/** sbuffer.c: the receiver's circular list of filled nodes and holes over a ring. */
module ReassemblyBuffer {
  import opened Lists
  import opened Parameters
  import opened Reassembly
  import opened ReassemblyCells
  import opened Rings

  class CirNode {
    var next: CirNode?
    var firstSeq: int
    var lastSeq: int
    var data: int
    var size: int
    var filled: bool

    constructor ()
      ensures next == null && data == 0 && size == 0 && !filled
    {
      next, firstSeq, lastSeq, data, size, filled := null, 0, 0, 0, 0, false;
    }

    constructor Make(firstSeq: int, lastSeq: int, data: int, size: int, filled: bool)
      ensures View() == Cell(firstSeq, lastSeq, data, size, filled)
    {
      this.next, this.firstSeq, this.lastSeq, this.data, this.size, this.filled := null, firstSeq, lastSeq, data, size, filled;
    }

    ghost function View(): Cell
      reads this
    {
      Cell(firstSeq, lastSeq, data, size, filled)
    }
  }

  class Buffer {
    const buffer: array<byte>
    var head: CirNode
    var dstart: int
    var dend: int
    ghost var nodes: seq<CirNode>
    ghost var cells: seq<Cell>
    ghost var off: nat
    ghost var store: map<int, seq<byte>>

    /** `nodes` is the circular list from `head` on, and `cells` is what it says. */
    ghost predicate Linked()
      reads this, nodes
    {
      && 0 < |nodes| == |cells|
      && head == nodes[0]
      && (forall i, j | 0 <= i < j < |nodes| :: nodes[i] != nodes[j])
      && (forall i | 0 <= i < |nodes| :: nodes[i].View() == cells[i])
      && (forall i {:trigger nodes[i].next} | 0 <= i < |nodes| :: nodes[i].next == nodes[Succ(i, |nodes|)])
    }

    ghost predicate Consistent(trailing: bool)
      reads this
    {
      && 1 <= dstart <= MAXSEQ
      && ListOk(cells, dstart, off, trailing)
      && Holds(Body(cells, trailing), store.Keys)
      && InWindow(store.Keys, dstart)
    }

    ghost predicate Valid()
      reads this, nodes, buffer
    {
      && Linked()
      && Consistent(false)
      && Alternating(cells, |cells|)
      && buffer.Length == CAP
      && Stored(buffer[..], store)
    }

    ghost function State(): Receiver
      reads this
    {
      Receiver(dstart, off, store)
    }

    constructor ()
      ensures Valid() && fresh(buffer) && (forall x | x in nodes :: fresh(x))
      ensures State() == INITIAL
    {
      var node := new CirNode();
      node.next, node.size := node, CAP;
      node.firstSeq, node.lastSeq := 1, MAXSEQ;
      buffer := new byte[CAP];
      head, dstart, dend := node, 1, 1;
      nodes, cells := [node], [Cell(1, MAXSEQ, 0, CAP, false)];
      off, store := 0, map[];
    }

    /** A node swallows its successor (sbuffer.c:110-112, 118-120). */
    method Absorb(current: CirNode, ghost i: int, lastSeq: int)
      requires Linked()
      requires 0 <= i && i + 1 < |nodes| && current == nodes[i]
      modifies this`nodes, this`cells, current
      ensures Linked()
      ensures nodes == Without(old(nodes), i + 1)
      ensures cells == MergeAt(old(cells), i, lastSeq)
    {
      var next := current.next;
      assert next == nodes[i + 1] && next.View() == cells[i + 1] && current.View() == cells[i];
      current.lastSeq := lastSeq;
      current.size := current.size + next.size;
      current.next := next.next;
      cells := MergeAt(cells, i, lastSeq);
      nodes := Without(nodes, i + 1);
      hide MergeAt, Without;
      AbsorbedViews(old(nodes), old(cells), i, lastSeq);
      AbsorbedLinks(old(nodes), i);
      DistinctWithout(old(nodes), i + 1);
    }

    lemma AbsorbedViews(was: seq<CirNode>, before: seq<Cell>, i: int, lastSeq: int)
      requires |was| == |before| && 0 <= i && i + 1 < |was| && was[i].View() == Merged(before[i], before[i + 1], lastSeq)
      requires forall k | 0 <= k < |was| && k != i :: was[k].View() == before[k]
      ensures |Without(was, i + 1)| == |MergeAt(before, i, lastSeq)| == |was| - 1
      ensures forall k | 0 <= k < |was| - 1 :: Without(was, i + 1)[k].View() == MergeAt(before, i, lastSeq)[k]
    {
    }

    lemma AbsorbedLinks(was: seq<CirNode>, i: int)
      requires 0 <= i && i + 1 < |was| && was[i].next == was[Succ(i + 1, |was|)]
      requires forall k {:trigger was[k].next} | 0 <= k < |was| && k != i :: was[k].next == was[Succ(k, |was|)]
      ensures var t, n := Without(was, i + 1), |was| - 1;
        && |t| == n
        && t[0] == was[0]
        && forall k {:trigger t[k].next} | 0 <= k < n :: t[k].next == t[Succ(k, n)]
    {
    }

    /** Two neighbours of one kind become one cell (sbuffer.c:106-113). */
    method AbsorbNeighbour(current: CirNode, ghost i: int, ghost t: bool)
      requires Linked() && Consistent(t)
      requires 0 <= i < |nodes| && current == nodes[i] && (t ==> i + 1 < |nodes|)
      requires NeighboursMerge(cells[i], cells[Succ(i, |cells|)])
      requires Alternating(cells, i)
      modifies this`nodes, this`cells, nodes
      ensures Linked() && Consistent(t) && Alternating(cells, i)
      ensures forall k | 0 <= k < |nodes| :: nodes[k] in old(nodes)
      ensures |nodes| == old(|nodes|) - 1
      ensures i < |nodes| && nodes[i] == current && (t ==> i + 1 < |nodes|)
    {
      hide ListOk, Tiles, Holds, Alternating, InWindow, MergeAt;
      assert current.next == nodes[Succ(i, |nodes|)];
      assert current.next.View() == cells[Succ(i, |cells|)];
      MergeNeighbours(cells, dstart, off, store.Keys, t, i);
      Absorb(current, i, current.next.lastSeq);
    }

    /** The open hole takes back the room of the served cell behind it (sbuffer.c:114-121). */
    method AbsorbTrailing(current: CirNode, ghost i: int, ghost t: bool)
      requires Linked() && Consistent(t)
      requires 0 <= i < |nodes| && current == nodes[i] && t && i + 2 == |nodes|
      requires Alternating(cells, i)
      modifies this`nodes, this`cells, nodes
      ensures Linked() && Consistent(false) && Alternating(cells, i)
      ensures forall k | 0 <= k < |nodes| :: nodes[k] in old(nodes)
      ensures |nodes| == old(|nodes|) - 1
      ensures i + 1 == |nodes| && nodes[i] == current
    {
      hide ListOk, Tiles, Holds, Alternating, InWindow, MergeAt;
      MergeTrailing(cells, dstart, off);
      MergeTrailingHolds(cells, dstart, off, store.Keys);
      Absorb(current, i, MAXSEQ);
    }

    /** sbuffer.c:103-124, with the repaired guard at :115. */
    method MergeList(ghost trailing: bool)
      requires Linked() && Consistent(trailing)
      modifies this`nodes, this`cells, nodes
      ensures Linked() && Consistent(false) && Alternating(cells, |cells|)
      ensures forall k | 0 <= k < |nodes| :: nodes[k] in old(nodes)
    {
      assert trailing ==> 1 < |nodes|;
      assert Alternating(cells, 0);
      hide ListOk, Tiles, Holds, Alternating, InWindow;
      var current := head;
      ghost var i, t := 0, trailing;
      while current.next != head
        invariant Linked() && Consistent(t)
        invariant forall k | 0 <= k < |nodes| :: nodes[k] in old(nodes)
        invariant 0 <= i < |nodes| && current == nodes[i]
        invariant t ==> i + 1 < |nodes|
        invariant Alternating(cells, i)
        decreases |nodes|, |nodes| - i
      {
        assert current.next == nodes[Succ(i, |nodes|)];
        current, i, t := MergeFrom(current, i, t);
      }
      assert current.next == nodes[Succ(i, |nodes|)];
      AlternatingAll(cells);
    }

    /** One round of the outer loop: all that can join `current` does, then move on. */
    method MergeFrom(current: CirNode, ghost i: int, ghost trailing: bool)
      returns (after: CirNode, ghost k: int, ghost t: bool)
      requires Linked() && Consistent(trailing)
      requires 0 <= i && i + 1 < |nodes| && current == nodes[i]
      requires Alternating(cells, i)
      modifies this`nodes, this`cells, nodes
      ensures Linked() && Consistent(t) && Alternating(cells, k)
      ensures forall k | 0 <= k < |nodes| :: nodes[k] in old(nodes)
      ensures 0 <= k < |nodes| && after == nodes[k] && (t ==> k + 1 < |nodes|)
      ensures |nodes| < old(|nodes|) || (|nodes| == old(|nodes|) && k == i + 1)
    {
      hide ListOk, Tiles, Holds, Alternating, InWindow;
      MergeRun(current, i, trailing);
      t := MergeHoles(current, i, trailing);
      AlternatingNext(cells, i);
      assert current.next == nodes[Succ(i, |nodes|)];
      after, k := current.next, Succ(i, |nodes|);
    }

    /** sbuffer.c:106-113. */
    method MergeRun(current: CirNode, ghost i: int, ghost t: bool)
      requires Linked() && Consistent(t)
      requires 0 <= i && i + 1 < |nodes| && current == nodes[i]
      requires Alternating(cells, i)
      modifies this`nodes, this`cells, nodes
      ensures Linked() && Consistent(t) && Alternating(cells, i)
      ensures forall k | 0 <= k < |nodes| :: nodes[k] in old(nodes)
      ensures i < |nodes| <= old(|nodes|) && current == nodes[i] && (t ==> i + 1 < |nodes|)
      ensures i + 1 < |nodes| ==> cells[i].filled != cells[i + 1].filled || (t && i + 2 == |nodes|)
    {
      hide ListOk, Tiles, Holds, Alternating, InWindow;
      while current.lastSeq == current.next.firstSeq - 1 && current.filled == current.next.filled
        invariant Linked() && Consistent(t) && Alternating(cells, i)
        invariant forall k | 0 <= k < |nodes| :: nodes[k] in old(nodes)
        invariant i < |nodes| <= old(|nodes|) && current == nodes[i] && (t ==> i + 1 < |nodes|)
        decreases |nodes|
      {
        assert current.next == nodes[Succ(i, |nodes|)];
        AbsorbNeighbour(current, i, t);
      }
      assert current.next == nodes[Succ(i, |nodes|)];
      NoNeighbourLeft(cells, dstart, off, t, i);
    }

    /** sbuffer.c:114-121, with the repaired guard. */
    method MergeHoles(current: CirNode, ghost i: int, ghost trailing: bool) returns (ghost t: bool)
      requires Linked() && Consistent(trailing)
      requires 0 <= i < |nodes| && current == nodes[i] && (trailing ==> i + 1 < |nodes|)
      requires i + 1 < |nodes| ==> cells[i].filled != cells[i + 1].filled || (trailing && i + 2 == |nodes|)
      requires Alternating(cells, i)
      modifies this`nodes, this`cells, nodes
      ensures Linked() && Consistent(t) && Alternating(cells, i)
      ensures forall k | 0 <= k < |nodes| :: nodes[k] in old(nodes)
      ensures i < |nodes| <= old(|nodes|) && current == nodes[i] && (t ==> i + 2 < |nodes|)
      ensures i + 1 < |nodes| ==> cells[i].filled != cells[i + 1].filled
    {
      hide ListOk, Tiles, Holds, Alternating, InWindow;
      t := trailing;
      while !current.filled && !current.next.filled && dstart != current.next.firstSeq
        invariant Linked() && Consistent(t) && Alternating(cells, i)
        invariant forall k | 0 <= k < |nodes| :: nodes[k] in old(nodes)
        invariant i < |nodes| <= old(|nodes|) && current == nodes[i] && (t ==> i + 1 < |nodes|)
        invariant i + 1 < |nodes| ==> cells[i].filled != cells[i + 1].filled || (t && i + 2 == |nodes|)
        decreases |nodes|
      {
        assert current.next == nodes[Succ(i, |nodes|)];
        OnlyTrailingLeft(cells, dstart, off, t, i);
        AbsorbTrailing(current, i, t);
        t := false;
      }
      assert current.next == nodes[Succ(i, |nodes|)];
      TrailingTaken(cells, dstart, off, t, i);
    }

    /** `node` is linked in behind `current`. */
    method LinkAfter(current: CirNode, ghost i: int, node: CirNode)
      requires Linked()
      requires 0 <= i < |nodes| && current == nodes[i] && node !in nodes
      modifies this`nodes, this`cells, current`next, node`next
      ensures Linked()
      ensures nodes == old(nodes)[..i + 1] + [node] + old(nodes)[i + 1..]
      ensures cells == old(cells)[..i + 1] + [old(node.View())] + old(cells)[i + 1..]
    {
      ghost var was := nodes;
      assert current.next == was[Succ(i, |was|)];
      node.next := current.next;
      current.next := node;
      nodes := With(was, i + 1, node);
      cells := With(cells, i + 1, node.View());
      WithShows(was, old(cells), i + 1, node);
      WithLinks(was, i, node);
    }

    lemma WithShows(was: seq<CirNode>, before: seq<Cell>, j: int, node: CirNode)
      requires |was| == |before| && 0 <= j <= |was|
      requires forall k | 0 <= k < |was| :: was[k].View() == before[k]
      ensures var t, c := With(was, j, node), With(before, j, node.View());
        |t| == |c| && forall k | 0 <= k < |t| :: t[k].View() == c[k]
    {
    }

    lemma WithLinks(was: seq<CirNode>, i: int, node: CirNode)
      requires 0 <= i < |was| && was[i].next == node && node.next == was[Succ(i, |was|)]
      requires forall k {:trigger was[k].next} | 0 <= k < |was| && k != i :: was[k].next == was[Succ(k, |was|)]
      ensures var t, n := With(was, i + 1, node), |was| + 1;
        && |t| == n
        && t[0] == was[0]
        && forall k {:trigger t[k].next} | 0 <= k < n :: t[k].next == t[Succ(k, n)]
    {
    }

    lemma FieldsOf(current: CirNode, i: int)
      requires Linked() && 0 <= i < |nodes| && current == nodes[i]
      ensures |nodes| == |cells| && current.View() == cells[i]
    {
    }

    lemma HeadIsFirst()
      requires Linked()
      ensures 0 < |nodes| == |cells| && head == nodes[0]
    {
    }

    lemma NextOf(current: CirNode, i: int)
      requires Linked() && 0 <= i < |nodes| && current == nodes[i]
      ensures current.next == nodes[Succ(i, |nodes|)]
      ensures current.next == head <==> i + 1 == |nodes|
    {
    }

    twostate lemma NotLinked(new node: CirNode)
      requires old(Linked()) && fresh(node) && nodes == old(nodes)
      ensures node !in nodes
    {
    }

    /** What is left of a hole, or a hole turned into a filled node. */
    method Shrink(current: CirNode, ghost i: int, lastSeq: int, size: int, filled: bool)
      requires Linked()
      requires 0 <= i < |nodes| && current == nodes[i]
      modifies this`cells, current`lastSeq, current`size, current`filled
      ensures Linked()
      ensures cells == old(cells)[i := old(cells[i]).(lastSeq := lastSeq, size := size, filled := filled)]
    {
      assert current.View() == cells[i];
      current.lastSeq, current.size, current.filled := lastSeq, size, filled;
      cells := cells[i := current.View()];
      assert forall k | 0 <= k < |nodes| && k != i :: nodes[k] != current && nodes[k].View() == old(nodes[k].View());
    }

    /** The packet starts the hole: sbuffer.c:162-186, with the ring offset reduced at
        :168 and an open hole always kept, if need be with no room (:164, :181). */
    method FillFront(current: CirNode, ghost i: int, seqnum: int, size: int)
      requires Linked()
      requires 0 <= i < |nodes| && current == nodes[i] && Fits(cells[i], seqnum, dstart)
      requires current.firstSeq == seqnum && size == PKT
      modifies this`nodes, this`cells, current
      ensures Linked()
      ensures cells == Splice(old(cells), i, Pieces(old(cells[i]), seqnum))
      ensures forall k | 0 <= k < |nodes| :: nodes[k] in old(nodes) || fresh(nodes[k])
      ensures i < |nodes| && current == nodes[i] && current.View() == Packet(seqnum, current.data) == cells[i]
    {
      FieldsOf(current, i);
      ghost var hole, was := cells[i], cells;
      assert hole.lastSeq == MAXSEQ || size <= hole.size;
      hide Linked, Fits;
      if size < current.size || current.lastSeq == MAXSEQ {
        var node := new CirNode.Make(seqnum + 1, current.lastSeq, (current.data + size) % CAP, current.size - size, false);
        NotLinked(node);
        ghost var rest := node.View();
        Shrink(current, i, seqnum, size, true);
        LinkAfter(current, i, node);
        assert Pieces(hole, seqnum) == [Packet(seqnum, hole.data), rest];
        hide Pieces;
        SpliceTwo(was, i, Packet(seqnum, hole.data), rest);
        FieldsOf(current, i);
      } else if size == current.size {
        Shrink(current, i, seqnum, size, true);
        assert Pieces(hole, seqnum) == [Packet(seqnum, hole.data)];
        assert cells == Splice(was, i, [Packet(seqnum, hole.data)]);
      }
    }

    /** The packet ends the hole: sbuffer.c:235-260. */
    method FillBack(current: CirNode, ghost i: int, seqnum: int, size: int) returns (node: CirNode)
      requires Linked()
      requires 0 <= i < |nodes| && current == nodes[i] && Fits(cells[i], seqnum, dstart)
      requires current.firstSeq < seqnum == current.lastSeq && size == PKT
      modifies this`nodes, this`cells, current
      ensures Linked()
      ensures cells == Splice(old(cells), i, Pieces(old(cells[i]), seqnum))
      ensures forall k | 0 <= k < |nodes| :: nodes[k] in old(nodes) || fresh(nodes[k])
      ensures i + 1 < |nodes| && node == nodes[i + 1] && node.View() == Packet(seqnum, node.data) == cells[i + 1]
    {
      FieldsOf(current, i);
      ghost var hole, was := cells[i], cells;
      hide Linked, Fits;
      var data;
      if current.data + current.size - size > CAP {
        data := current.data + current.size - size - CAP;
      } else {
        data := current.data + current.size - size;
      }
      ghost var rest := hole.(lastSeq := seqnum - 1, size := hole.size - size);
      assert Pieces(hole, seqnum) == [rest, Packet(seqnum, data)];
      hide Pieces, Wrapped;
      node := new CirNode.Make(seqnum, seqnum, data, size, true);
      NotLinked(node);
      assert node.View() == Packet(seqnum, data);
      Shrink(current, i, seqnum - 1, current.size - size, false);
      LinkAfter(current, i, node);
      SpliceTwo(was, i, rest, Packet(seqnum, data));
      FieldsOf(node, i + 1);
    }

    /** The packet lies inside the hole: sbuffer.c:188-232. */
    method FillMiddle(current: CirNode, ghost i: int, seqnum: int, size: int) returns (nodeA: CirNode)
      requires Linked()
      requires 0 <= i < |nodes| && current == nodes[i] && Fits(cells[i], seqnum, dstart)
      requires current.firstSeq < seqnum < current.lastSeq && size == PKT
      modifies this`nodes, this`cells, current
      ensures Linked()
      ensures cells == Splice(old(cells), i, Pieces(old(cells[i]), seqnum))
      ensures forall k | 0 <= k < |nodes| :: nodes[k] in old(nodes) || fresh(nodes[k])
      ensures i + 1 < |nodes| && nodeA == nodes[i + 1] && nodeA.View() == Packet(seqnum, nodeA.data) == cells[i + 1]
    {
      FieldsOf(current, i);
      ghost var hole, was := cells[i], cells;
      hide Linked, Fits;
      var room := (seqnum - 1 - current.firstSeq + 1) * PKT;
      var dataA, dataB;
      if current.data + room > CAP {
        dataA := current.data + room - CAP;
      } else {
        dataA := current.data + room;
      }
      if dataA + size > CAP {
        dataB := dataA + size - CAP;
      } else {
        dataB := dataA + size;
      }
      ghost var before := hole.(lastSeq := seqnum - 1, size := room);
      ghost var after := Cell(seqnum + 1, hole.lastSeq, dataB, hole.size - (room + size), false);
      assert Pieces(hole, seqnum) == [before, Packet(seqnum, dataA), after];
      hide *;
      var nodeB := new CirNode.Make(seqnum + 1, current.lastSeq, dataB, current.size - (room + size), false);
      nodeA := new CirNode.Make(seqnum, seqnum, dataA, size, true);
      NotLinked(nodeA);
      NotLinked(nodeB);
      LinkTwo(current, i, seqnum - 1, room, nodeA, nodeB);
      FieldsOf(nodeA, i + 1);
    }

    /** `current` keeps the front of its hole; nodes A and B follow it. */
    method LinkTwo(current: CirNode, ghost i: int, lastSeq: int, size: int, nodeA: CirNode, nodeB: CirNode)
      requires Linked()
      requires 0 <= i < |nodes| == |cells| && current == nodes[i]
      requires nodeA !in nodes && nodeB !in nodes && nodeA != nodeB
      modifies this`nodes, this`cells, current, nodeA`next, nodeB`next
      ensures Linked()
      ensures cells == Splice(old(cells), i,
                              [old(cells[i]).(lastSeq := lastSeq, size := size, filled := false), old(nodeA.View()), old(nodeB.View())])
      ensures nodes == old(nodes)[..i + 1] + [nodeA, nodeB] + old(nodes)[i + 1..]
    {
      ghost var was, before := cells, cells[i].(lastSeq := lastSeq, size := size, filled := false);
      ghost var a, b := nodeA.View(), nodeB.View();
      hide Linked;
      Shrink(current, i, lastSeq, size, false);
      LinkAfter(current, i, nodeB);
      LinkAfter(current, i, nodeA);
      SpliceThree(was, i, before, a, b);
    }

    /** sbuffer.c:160-260: the packet goes into the hole if the hole covers it. */
    method FillHole(current: CirNode, ghost i: int, seqnum: int, size: int) returns (node: CirNode, ghost k: int)
      requires Linked() && Consistent(false)
      requires 0 <= i < |nodes| && current == nodes[i] && !current.filled
      requires size == PKT && seqnum < MAXSEQ && seqnum < dstart + BLOCKS
      modifies this`nodes, this`cells, current
      ensures forall k | 0 <= k < |nodes| :: nodes[k] in old(nodes) || fresh(nodes[k])
      ensures node.filled <==> Covers(old(cells[i]), seqnum)
      ensures !node.filled ==>
        node == current && nodes == old(nodes) && cells == old(cells) && unchanged(current)
      ensures node.filled ==>
        && Linked()
        && Tiles(cells, dstart, off, 0)
        && Holds(cells, store.Keys + {seqnum})
        && 0 <= k < |nodes| && node == nodes[k] && cells[k] == Packet(seqnum, node.data) == node.View()
        && PlacedAt(node.data, seqnum)
    {
      FieldsOf(current, i);
      ghost var hole, was := cells[i], cells;
      HoleFits(cells, dstart, off, i, seqnum);
      hide Linked, Tiles, Holds, Open, Closed, Fits, Pieces, Placed;
      if current.firstSeq == seqnum {
        FillFront(current, i, seqnum, size);
        node, k := current, i;
      } else if current.firstSeq < seqnum && current.lastSeq > seqnum {
        node := FillMiddle(current, i, seqnum, size);
        k := i + 1;
      } else if current.firstSeq < seqnum && current.lastSeq == seqnum {
        node := FillBack(current, i, seqnum, size);
        k := i + 1;
      } else {
        node, k := current, i;
      }
      if node.filled {
        FillTiles(was, dstart, off, store.Keys, i, seqnum);
        PacketPlaced(cells, dstart, off, k, i, seqnum);
      }
    }

    /** memcpy(buffer + at, bytes, |bytes|) */
    method Copy(at: int, bytes: seq<byte>)
      requires 0 <= at && at + |bytes| <= buffer.Length
      modifies buffer
      ensures buffer[..] == old(buffer[..at]) + bytes + old(buffer[at + |bytes|..])
    {
      forall j | 0 <= j < |bytes| {
        buffer[at + j] := bytes[j];
      }
    }

    /** sbuffer.c:264-271. */
    method Write(data: int, size: int, bytes: seq<byte>, ghost s: int)
      requires buffer.Length == CAP && size == |bytes| == PKT && PlacedAt(data, s)
      modifies buffer
      ensures buffer[..] == old(buffer[..Slot(s)]) + bytes + old(buffer[Slot(s) + PKT..])
    {
      PlacedAtSlot(data, s);
      hide Slot, PlacedAt;
      if data + size > CAP {
        assert bytes[..CAP - data] == [] && bytes[CAP - data..] == bytes;
        Copy(data, bytes[..CAP - data]);
        Copy(0, bytes[CAP - data..]);
      } else {
        Copy(data, bytes);
      }
    }

    /** sbuffer.c:262-283: the packet's bytes go into the ring, then the list is merged. */
    method Accept(node: CirNode, ghost k: int, seqnum: int, data: seq<byte>)
      requires Linked() && 1 <= dstart <= MAXSEQ
      requires Tiles(cells, dstart, off, 0) && Holds(cells, store.Keys + {seqnum}) && InWindow(store.Keys, dstart)
      requires buffer.Length == CAP && Stored(buffer[..], store)
      requires 0 <= k < |nodes| && node == nodes[k] && cells[k] == Packet(seqnum, node.data) == node.View()
      requires PlacedAt(node.data, seqnum) && |data| == PKT
      requires dstart <= seqnum < dstart + BLOCKS && seqnum < MAXSEQ
      modifies this, nodes, buffer
      ensures Valid()
      ensures forall k | 0 <= k < |nodes| :: nodes[k] in old(nodes)
      ensures dstart == old(dstart) && off == old(off) && store == old(store)[seqnum := data]
    {
      hide Linked, Tiles, Holds, Stored, PlacedAt, Slot;
      PlacedAtSlot(node.data, seqnum);
      ghost var before := buffer[..];
      assert |before| == CAP;
      Write(node.data, node.size, data, seqnum);
      assert before[..Slot(seqnum)] == old(buffer[..Slot(seqnum)]);
      assert before[Slot(seqnum) + PKT..] == old(buffer[Slot(seqnum) + PKT..]);
      WriteKeeps(before, buffer[..], store, dstart, seqnum, data);
      assert store[seqnum := data].Keys == store.Keys + {seqnum};
      store := store[seqnum := data];
      if seqnum > dend {
        dend := seqnum;
      }
      StillLinked();
      MergeList(false);
    }

    /** Linked depends on neither the ring nor the abstract store. */
    twostate lemma StillLinked()
      requires old(Linked())
      requires nodes == old(nodes) && cells == old(cells) && head == old(head)
      requires forall k | 0 <= k < |nodes| :: unchanged(nodes[k])
      ensures Linked()
    {
    }

    /** One empty node is offered the packet: sbuffer.c:160-284. */
    method Offer(current: CirNode, ghost i: int, seqnum: int, size: int, data: seq<byte>) returns (taken: bool)
      requires Valid()
      requires 0 <= i < |nodes| && current == nodes[i] && !current.filled
      requires size == |data| == PKT && seqnum < MAXSEQ && seqnum < dstart + BLOCKS
      modifies this, nodes, buffer
      ensures Valid()
      ensures forall k | 0 <= k < |nodes| :: nodes[k] in old(nodes) || fresh(nodes[k])
      ensures taken ==> Acceptable(old(State()), seqnum)
      ensures taken ==> State() == old(State()).(store := old(store)[seqnum := data])
      ensures !taken ==> State() == old(State()) && nodes == old(nodes) && cells == old(cells) && head == old(head)
      ensures !taken ==> !Covers(old(cells[i]), seqnum) && current.next == old(current.next)
    {
      FieldsOf(current, i);
      HoleOffered(cells, dstart, off, store.Keys, i, seqnum);
      hide Linked, Tiles, Holds, Alternating, Stored, PlacedAt, Covers;
      var node, k := FillHole(current, i, seqnum, size);
      taken := node.filled;
      if taken {
        Accept(node, k, seqnum, data);
      } else {
        StillLinked();
      }
    }

    /** sbuffer.c:135-296. */
    method AddData(seqnum: int, size: int, data: seq<byte>) returns (result: int)
      requires Valid()
      requires size == |data| == PKT && seqnum < MAXSEQ
      modifies this, nodes, buffer
      ensures Valid()
      ensures forall k | 0 <= k < |nodes| :: nodes[k] in old(nodes) || fresh(nodes[k])
      ensures State() == Insert(old(State()), seqnum, data).0
      ensures result == if Insert(old(State()), seqnum, data).1 then 1 else 0
    {
      hide Linked, Tiles, Holds, Alternating, Stored, InWindow, PassedBy;
      MergeList(false);
      HeadIsFirst();
      NonePassed(cells, seqnum);
      var current := head;
      ghost var i := 0;
      while true
        invariant Valid() && State() == old(State())
        invariant forall k | 0 <= k < |nodes| :: nodes[k] in old(nodes)
        invariant 0 <= i < |nodes| && current == nodes[i]
        invariant PassedBy(cells, i, seqnum)
        decreases |nodes| - i
      {
        FieldsOf(current, i);
        if current.firstSeq == seqnum && current.filled {
          FirstIsRecognised(cells, dstart, off, store.Keys, i);
          return 1;
        } else if seqnum > dstart + 63 {
          BeyondWindow(store.Keys, dstart, seqnum);
          break;
        }
        if !current.filled {
          var taken := Offer(current, i, seqnum, size, data);
          if taken {
            return 1;
          }
        }
        NextOf(current, i);
        OnePassed(cells, i, seqnum);
        current := current.next;
        if current == head {
          NowhereToPut(cells, dstart, off, store.Keys, seqnum);
          break;
        }
        i := i + 1;
      }
      return 0;
    }

    lemma StateValid()
      requires Valid()
      ensures Reassembly.Valid(State())
      ensures head.filled <==> dstart in store
      ensures head.filled ==> head.firstSeq == dstart && head.lastSeq + 1 == BlockEnd(State())
      ensures |Available(State())| == if head.filled then head.size else 0
    {
      FieldsOf(head, 0);
      HeadIsBlock(cells, dstart, off, store.Keys);
      HeadSize(cells, dstart, off);
    }

    /** sbuffer.c:298-304. */
    method GetSize() returns (size: int)
      requires Valid()
      ensures Reassembly.Valid(State()) && size == |Available(State())|
    {
      StateValid();
      if !head.filled {
        return 0;
      }
      return head.size;
    }

    /** The two memcpy calls of sbuffer.c:316-325 and, with the repaired test on the
        requested size, of :341-350. */
    method CopyOut(data: int, n: int) returns (d: seq<byte>)
      requires buffer.Length == CAP && 0 <= data <= CAP && 0 <= n <= CAP
      ensures d == RingSlice(buffer[..], data, n)
    {
      if n + data > CAP {
        d := buffer[data..] + buffer[..n - (CAP - data)];
      } else {
        d := buffer[data..data + n];
      }
    }

    /** sbuffer.c:308-362. */
    method RequestData(size: nat) returns (d: seq<byte>)
      requires Valid()
      modifies this, nodes
      ensures Valid()
      ensures forall k | 0 <= k < |nodes| :: nodes[k] in old(nodes)
      ensures Reassembly.Valid(old(State()))
      ensures State() == Read(old(State()), size).0
      ensures d == Read(old(State()), size).1
    {
      StateValid();
      HeadIsFirst();
      var current := head;
      if current.filled && current.firstSeq == dstart {
        if current.size <= size {
          d := ServeBlock(current);
        } else {
          d := ServePart(current, size);
        }
      } else {
        d := [];
      }
    }

    /** sbuffer.c:327-332, with the whole of the node's room given back at :328. */
    method RetireHead(current: CirNode)
      requires Linked() && current == head
      modifies this`head, this`dstart, this`nodes, this`cells, current
      ensures Linked()
      ensures cells == Retire(old(cells)) && dstart == old(cells[0]).lastSeq + 1
      ensures nodes == old(nodes)[1..] + [old(nodes)[0]]
    {
      ghost var was := nodes;
      FieldsOf(current, 0);
      assert current.next == was[Succ(0, |was|)];
      current.filled := false;
      current.size := (current.lastSeq - current.firstSeq + 1) * PKT;
      dstart := current.lastSeq + 1;
      head := current.next;
      nodes, cells := was[1..] + [was[0]], Retire(cells);
      RetiredShows(was, old(cells));
      RetiredLinks(was);
    }

    lemma RetiredShows(was: seq<CirNode>, before: seq<Cell>)
      requires |was| == |before| > 0
      requires was[0].View() == Retire(before)[|was| - 1]
      requires forall k | 0 < k < |was| :: was[k].View() == before[k]
      ensures forall k | 0 <= k < |was| :: (was[1..] + [was[0]])[k].View() == Retire(before)[k]
    {
    }

    lemma RetiredLinks(was: seq<CirNode>)
      requires |was| > 0
      requires forall k {:trigger was[k].next} | 0 <= k < |was| :: was[k].next == was[Succ(k, |was|)]
      ensures var t, n := was[1..] + [was[0]], |was|;
        && was[0].next == t[0]
        && forall k {:trigger t[k].next} | 0 <= k < n :: t[k].next == t[Succ(k, n)]
    {
    }

    method CopyFront(current: CirNode, n: nat) returns (d: seq<byte>)
      requires Valid() && current == head && current.filled && n <= current.size
      requires Reassembly.Valid(State())
      ensures n <= |Available(State())| && d == Available(State())[..n]
      ensures n == current.size ==> d == Available(State())
    {
      hide Linked, Tiles, Holds, Alternating, RingSlice, Joined, Available, BlockEnd, Reassembly.Valid;
      StateValid();
      HeadIsFirst();
      FieldsOf(current, 0);
      HeadSize(cells, dstart, off);
      d := CopyOut(current.data, n);
      FrontBytes(buffer[..], State(), current.data, n);
    }

    /** The front block is forgotten; its room still trails behind the open hole. */
    method DropBlock(current: CirNode)
      requires Valid() && current == head && current.filled
      modifies this, nodes
      ensures Linked() && Consistent(true) && Stored(buffer[..], store)
      ensures forall k | 0 <= k < |nodes| :: nodes[k] in old(nodes)
      ensures State() == var r := old(State()); Receiver(BlockEnd(r), 0, DropBelow(r.store, BlockEnd(r)))
    {
      hide Linked, Tiles, Holds, ListOk, Alternating, Stored, Retire, BlockEnd, DropBelow, InWindow;
      assert ListOk(cells, dstart, off, false) ==> Tiles(cells, dstart, off, 0) by {
        ListIsTiled(cells, dstart, off);
      }
      HeadIsFirst();
      FieldsOf(current, 0);
      BlockServed(cells, State());
      KeepStored(buffer[..], store, current.lastSeq + 1);
      ghost var e := current.lastSeq + 1;
      RetireHead(current);
      label Retired:
      store, off := DropBelow(store, e), 0;
      StillLinked@Retired();
    }

    /** The reader wants at least all of the front node (sbuffer.c:312-336). */
    method ServeBlock(current: CirNode) returns (d: seq<byte>)
      requires Valid() && current == head && current.filled
      requires Reassembly.Valid(State())
      modifies this, nodes
      ensures Valid()
      ensures forall k | 0 <= k < |nodes| :: nodes[k] in old(nodes)
      ensures d == old(Available(State()))
      ensures State() == var r := old(State()); Receiver(BlockEnd(r), 0, DropBelow(r.store, BlockEnd(r)))
    {
      StateValid();
      hide Linked, Tiles, Holds, ListOk, Alternating, Stored, Available, BlockEnd, DropBelow, InWindow, Reassembly.Valid;
      d := CopyFront(current, current.size);
      DropBlock(current);
      MergeList(true);
    }

    method Advance(current: CirNode, n: nat)
      requires Linked() && current == head
      modifies this`cells, current`data, current`size
      ensures Linked() && |old(cells)| > 0 && cells == Nibble(old(cells), n)
    {
      FieldsOf(current, 0);
      current.data := (current.data + n) % CAP;
      current.size := current.size - n;
      cells := Nibble(cells, n);
      assert forall k | 0 < k < |nodes| :: nodes[k] != current && nodes[k].View() == old(nodes[k].View());
    }

    /** The reader wants less than the front node has (sbuffer.c:339-357, with the offset
        reduced at :353). */
    method ServePart(current: CirNode, size: nat) returns (d: seq<byte>)
      requires Valid() && current == head && current.filled && size < current.size
      requires Reassembly.Valid(State())
      modifies this, nodes
      ensures Valid() && nodes == old(nodes)
      ensures size < |old(Available(State()))| && d == old(Available(State()))[..size]
      ensures State() == old(State()).(off := old(off) + size)
    {
      hide Linked, Tiles, Holds, Alternating, Stored, Available, Nibble;
      StateValid();
      HeadIsFirst();
      FieldsOf(current, 0);
      NibbleOk(cells, dstart, off, store.Keys, size);
      d := CopyFront(current, size);
      assert d == Available(State())[..size];
      Advance(current, size);
      NibbleLength(old(cells), size);
      label Advanced:
      off := off + size;
      StillLinked@Advanced();
    }
  }
}
