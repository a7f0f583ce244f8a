/** The list of sbuffer.c as values: filled runs and holes, in order from `head`. */
module ReassemblyCells {
  import opened Parameters
  import opened Reassembly
  import opened Rings

  datatype Cell = Cell(firstSeq: int, lastSeq: int, data: int, size: int, filled: bool)

  predicate Covers(c: Cell, s: int) {
    c.firstSeq <= s <= c.lastSeq
  }

  /** Packet s lives at (s-1)*PKT in the ring; `o` bytes of the cell are already served. */
  predicate Placed(c: Cell, o: int) {
    0 <= c.data <= CAP && c.data % CAP == ((c.firstSeq - 1) * PKT + o) % CAP
  }

  predicate Closed(c: Cell, o: int, dstart: int) {
    && c.firstSeq <= c.lastSeq < dstart + BLOCKS
    && c.lastSeq < MAXSEQ
    && c.size == (c.lastSeq - c.firstSeq + 1) * PKT - o
    && Placed(c, o)
  }

  /** The last cell: a hole without end. `owed` bytes of its room are still with a
      cell that has been served but not merged away. */
  predicate Open(c: Cell, dstart: int, owed: int) {
    && !c.filled
    && c.lastSeq == MAXSEQ
    && c.firstSeq <= MAXSEQ
    && c.firstSeq <= dstart + BLOCKS
    && c.size == CAP - (c.firstSeq - dstart) * PKT - owed
    && Placed(c, 0)
  }

  function Served(i: int, off: int): int {
    if i == 0 then off else 0
  }

  /** From the front, the cells tile the numbers from dstart on without a gap. */
  ghost predicate Tiles(cells: seq<Cell>, dstart: int, off: int, owed: int) {
    var n := |cells| - 1;
    && n >= 0
    && cells[0].firstSeq == dstart
    && (forall i | 0 <= i < n :: Closed(cells[i], Served(i, off), dstart))
    && (forall i | 0 <= i < n :: cells[i + 1].firstSeq == cells[i].lastSeq + 1)
    && Open(cells[n], dstart, owed)
    && 0 <= off
    && (off > 0 ==> n > 0 && cells[0].filled && cells[0].size > 0)
  }

  /** The filled cells hold exactly the given numbers. */
  ghost predicate Holds(cells: seq<Cell>, keys: set<int>) {
    forall i, s | 0 <= i < |cells| && Covers(cells[i], s) :: s in keys <==> cells[i].filled
  }

  ghost predicate Alternating(cells: seq<Cell>, upto: int) {
    forall j | 0 <= j < upto && j + 1 < |cells| :: cells[j].filled != cells[j + 1].filled
  }

  // ----- order

  lemma {:induction false} FirstsAscend(cells: seq<Cell>, dstart: int, off: int, owed: int, i: int, j: int)
    requires Tiles(cells, dstart, off, owed)
    requires 0 <= i < j < |cells|
    ensures cells[i].lastSeq < cells[j].firstSeq
    decreases j
  {
    assert cells[j].firstSeq == cells[j - 1].lastSeq + 1;
    if j - 1 <= i {
    } else {
      FirstsAscend(cells, dstart, off, owed, i, j - 1);
      assert Closed(cells[j - 1], Served(j - 1, off), dstart);
    }
  }

  // ----- merging

  function Merged(c: Cell, d: Cell, lastSeq: int): Cell {
    Cell(c.firstSeq, lastSeq, c.data, c.size + d.size, c.filled)
  }

  function MergeAt(cells: seq<Cell>, i: int, lastSeq: int): seq<Cell>
    requires 0 <= i && i + 1 < |cells|
  {
    cells[..i] + [Merged(cells[i], cells[i + 1], lastSeq)] + cells[i + 2..]
  }

  lemma MergeAtIndex(cells: seq<Cell>, i: int, lastSeq: int, k: int)
    requires 0 <= i && i + 1 < |cells| && 0 <= k < |cells| - 1
    ensures |MergeAt(cells, i, lastSeq)| == |cells| - 1
    ensures MergeAt(cells, i, lastSeq)[k]
         == if k < i then cells[k] else if k == i then Merged(cells[i], cells[i + 1], lastSeq) else cells[k + 1]
  {
  }

  lemma MergeTiles(cells: seq<Cell>, dstart: int, off: int, owed: int, i: int)
    requires Tiles(cells, dstart, off, owed)
    requires 0 <= i && i + 1 < |cells|
    requires cells[i].filled == cells[i + 1].filled
    ensures Tiles(MergeAt(cells, i, cells[i + 1].lastSeq), dstart, off, owed)
  {
    var last := cells[i + 1].lastSeq;
    var after := MergeAt(cells, i, last);
    var n := |cells| - 2;
    MergeAtIndex(cells, i, last, 0);
    MergeAtIndex(cells, i, last, n);
    hide MergeAt, Closed, Open;
    MergedCell(cells, dstart, off, owed, i);
    forall j | 0 <= j < n
      ensures Closed(after[j], Served(j, off), dstart)
      ensures after[j + 1].firstSeq == after[j].lastSeq + 1
    {
      MergedPrefix(cells, dstart, off, owed, i, j);
    }
  }

  lemma MergedPrefix(cells: seq<Cell>, dstart: int, off: int, owed: int, i: int, j: int)
    requires Tiles(cells, dstart, off, owed)
    requires 0 <= i && i + 1 < |cells| && cells[i].filled == cells[i + 1].filled && 0 <= j < |cells| - 2
    ensures var after := MergeAt(cells, i, cells[i + 1].lastSeq);
      && |after| == |cells| - 1
      && Closed(after[j], Served(j, off), dstart)
      && after[j + 1].firstSeq == after[j].lastSeq + 1
  {
    hide MergeAt, Closed, Open;
    MergedCell(cells, dstart, off, owed, i);
    MergeAtIndex(cells, i, cells[i + 1].lastSeq, j);
    MergeAtIndex(cells, i, cells[i + 1].lastSeq, j + 1);
    assert Closed(cells[j], Served(j, off), dstart) && Closed(cells[j + 1], Served(j + 1, off), dstart);
    assert cells[j + 1].firstSeq == cells[j].lastSeq + 1;
    assert cells[j + 2].firstSeq == cells[j + 1].lastSeq + 1;
    assert Served(j + 1, off) == 0;
    assert j > 0 ==> Served(j, off) == 0;
  }

  /** The merged cell is as good as the two it is made of. */
  lemma MergedCell(cells: seq<Cell>, dstart: int, off: int, owed: int, i: int)
    requires Tiles(cells, dstart, off, owed)
    requires 0 <= i && i + 1 < |cells|
    requires cells[i].filled == cells[i + 1].filled
    ensures var c := Merged(cells[i], cells[i + 1], cells[i + 1].lastSeq);
      if i + 2 == |cells| then Open(c, dstart, owed) else Closed(c, Served(i, off), dstart)
    ensures i == 0 && off > 0 ==> i + 2 < |cells| && Merged(cells[i], cells[i + 1], cells[i + 1].lastSeq).size > 0
  {
    assert Closed(cells[i], Served(i, off), dstart);
    assert i + 2 < |cells| ==> Closed(cells[i + 1], Served(i + 1, off), dstart);
    assert i + 2 == |cells| ==> Open(cells[i + 1], dstart, owed);
  }

  lemma MergeHolds(cells: seq<Cell>, keys: set<int>, i: int)
    requires Holds(cells, keys)
    requires 0 <= i && i + 1 < |cells|
    requires cells[i].filled == cells[i + 1].filled
    requires cells[i + 1].firstSeq == cells[i].lastSeq + 1
    ensures Holds(MergeAt(cells, i, cells[i + 1].lastSeq), keys)
  {
    var after := MergeAt(cells, i, cells[i + 1].lastSeq);
    forall j, s | 0 <= j < |after| && Covers(after[j], s)
      ensures s in keys <==> after[j].filled
    {
      if j == i {
        assert Covers(cells[i], s) || Covers(cells[i + 1], s);
      } else if j > i {
        assert after[j] == cells[j + 1];
        assert Covers(cells[j + 1], s);
      }
    }
  }

  /** The list between calls, or just after a read: then one served cell still
      trails behind the open hole and is owed to it. */
  ghost predicate ListOk(cells: seq<Cell>, dstart: int, off: int, trailing: bool) {
    if trailing then
      var m := |cells| - 1;
      && m >= 1
      && !cells[m].filled
      && cells[m].firstSeq < dstart
      && Tiles(cells[..m], dstart, off, cells[m].size)
    else
      Tiles(cells, dstart, off, 0)
  }

  lemma ListIsTiled(cells: seq<Cell>, dstart: int, off: int)
    ensures ListOk(cells, dstart, off, false) <==> Tiles(cells, dstart, off, 0)
  {
  }

  lemma MergeTrailing(cells: seq<Cell>, dstart: int, off: int)
    requires ListOk(cells, dstart, off, true)
    ensures ListOk(MergeAt(cells, |cells| - 2, MAXSEQ), dstart, off, false)
    ensures Alternating(cells, |cells| - 2) ==> Alternating(MergeAt(cells, |cells| - 2, MAXSEQ), |cells| - 2)
  {
    var m := |cells| - 1;
    var body, after := cells[..m], MergeAt(cells, m - 1, MAXSEQ);
    assert after == body[m - 1 := Merged(cells[m - 1], cells[m], MAXSEQ)];
    assert Open(body[m - 1], dstart, cells[m].size);
  }

  lemma MergeTrailingHolds(cells: seq<Cell>, dstart: int, off: int, keys: set<int>)
    requires ListOk(cells, dstart, off, true)
    requires Holds(cells[..|cells| - 1], keys)
    ensures Holds(MergeAt(cells, |cells| - 2, MAXSEQ), keys)
  {
    var m := |cells| - 1;
    var body, after := cells[..m], MergeAt(cells, m - 1, MAXSEQ);
    assert Open(body[m - 1], dstart, cells[m].size);
    forall j, s | 0 <= j < |after| && Covers(after[j], s)
      ensures s in keys <==> after[j].filled
    {
      assert Covers(body[j], s);
    }
  }

  // ----- the guards of the merge pass

  function Succ(i: int, n: int): int {
    if i + 1 == n then 0 else i + 1
  }

  /** The guard at sbuffer.c:106-107. */
  predicate NeighboursMerge(c: Cell, d: Cell) {
    c.lastSeq == d.firstSeq - 1 && c.filled == d.filled
  }

  /** The repaired guard at sbuffer.c:114-115. */
  predicate HolesMerge(c: Cell, d: Cell, dstart: int) {
    !c.filled && !d.filled && dstart != d.firstSeq
  }

  function Body(cells: seq<Cell>, trailing: bool): seq<Cell>
    requires trailing ==> |cells| > 0
  {
    if trailing then cells[..|cells| - 1] else cells
  }

  lemma NeighboursInside(cells: seq<Cell>, dstart: int, off: int, trailing: bool, i: int)
    requires ListOk(cells, dstart, off, trailing) && dstart <= MAXSEQ
    requires 0 <= i < |cells| && (trailing ==> i + 1 < |cells|)
    requires NeighboursMerge(cells[i], cells[Succ(i, |cells|)])
    ensures i + 1 < |Body(cells, trailing)|
  {
    var body := Body(cells, trailing);
    assert Open(body[|body| - 1], dstart, if trailing then cells[|cells| - 1].size else 0);
  }

  lemma MergeBody(cells: seq<Cell>, trailing: bool, i: int, lastSeq: int)
    requires |cells| > 0 && 0 <= i && i + 1 < |Body(cells, trailing)|
    ensures |MergeAt(cells, i, lastSeq)| == |cells| - 1
    ensures Body(MergeAt(cells, i, lastSeq), trailing) == MergeAt(Body(cells, trailing), i, lastSeq)
    ensures trailing ==> MergeAt(cells, i, lastSeq)[|cells| - 2] == cells[|cells| - 1]
    ensures Alternating(cells, i) && cells[i].filled == cells[i + 1].filled ==> Alternating(MergeAt(cells, i, lastSeq), i)
  {
  }

  /** Neighbours that merge lie in front of the open hole, and merging keeps the list. */
  lemma MergeNeighbours(cells: seq<Cell>, dstart: int, off: int, keys: set<int>, trailing: bool, i: int)
    requires ListOk(cells, dstart, off, trailing) && Holds(Body(cells, trailing), keys) && dstart <= MAXSEQ
    requires 0 <= i < |cells| && (trailing ==> i + 1 < |cells|)
    requires NeighboursMerge(cells[i], cells[Succ(i, |cells|)])
    requires Alternating(cells, i)
    ensures i + 1 < |cells| && (trailing ==> i + 2 < |cells|)
    ensures var after := MergeAt(cells, i, cells[i + 1].lastSeq);
      && ListOk(after, dstart, off, trailing)
      && Holds(Body(after, trailing), keys)
      && Alternating(after, i)
  {
    hide Tiles, Holds, Alternating, MergeAt;
    NeighboursInside(cells, dstart, off, trailing, i);
    var body, last := Body(cells, trailing), cells[i + 1].lastSeq;
    var owed := if trailing then cells[|cells| - 1].size else 0;
    MergeBody(cells, trailing, i, last);
    MergeTiles(body, dstart, off, owed, i);
    MergeHolds(body, keys, i);
  }

  lemma NoNeighbourLeft(cells: seq<Cell>, dstart: int, off: int, trailing: bool, i: int)
    requires ListOk(cells, dstart, off, trailing)
    requires 0 <= i < |cells| && !NeighboursMerge(cells[i], cells[Succ(i, |cells|)])
    ensures i + 1 < |cells| ==> cells[i].filled != cells[i + 1].filled || (trailing && i + 2 == |cells|)
  {
    var body := Body(cells, trailing);
    assert i + 1 < |body| ==> body[i + 1].firstSeq == body[i].lastSeq + 1;
  }

  lemma OnlyTrailingLeft(cells: seq<Cell>, dstart: int, off: int, trailing: bool, i: int)
    requires ListOk(cells, dstart, off, trailing)
    requires 0 <= i < |cells| && HolesMerge(cells[i], cells[Succ(i, |cells|)], dstart)
    requires i + 1 < |cells| ==> cells[i].filled != cells[i + 1].filled || (trailing && i + 2 == |cells|)
    requires trailing ==> i + 1 < |cells|
    ensures trailing && i + 2 == |cells|
  {
  }

  lemma TrailingTaken(cells: seq<Cell>, dstart: int, off: int, trailing: bool, i: int)
    requires ListOk(cells, dstart, off, trailing)
    requires 0 <= i < |cells| && !HolesMerge(cells[i], cells[Succ(i, |cells|)], dstart)
    ensures trailing ==> i + 2 != |cells|
  {
    if trailing {
      var body := Body(cells, trailing);
      assert Open(body[|body| - 1], dstart, cells[|body|].size);
    }
  }

  lemma AlternatingNext(cells: seq<Cell>, i: int)
    requires 0 <= i < |cells| && Alternating(cells, i)
    requires i + 1 < |cells| ==> cells[i].filled != cells[i + 1].filled
    ensures Alternating(cells, Succ(i, |cells|))
  {
  }

  lemma AlternatingAll(cells: seq<Cell>)
    ensures Alternating(cells, |cells| - 1) ==> Alternating(cells, |cells|)
  {
  }

  // ----- inserting

  function Splice<T>(s: seq<T>, i: int, pieces: seq<T>): seq<T>
    requires 0 <= i < |s|
  {
    s[..i] + pieces + s[i + 1..]
  }

  lemma SpliceTwo<T>(s: seq<T>, i: int, a: T, b: T)
    requires 0 <= i < |s|
    ensures s[i := a][..i + 1] + [b] + s[i := a][i + 1..] == Splice(s, i, [a, b])
  {
  }

  lemma SpliceThree<T>(s: seq<T>, i: int, a: T, b: T, c: T)
    requires 0 <= i < |s|
    ensures var two := s[i := a][..i + 1] + [c] + s[i := a][i + 1..];
      two[..i + 1] + [b] + two[i + 1..] == Splice(s, i, [a, b, c])
  {
  }

  /** The pieces tile the hole they replace. */
  ghost predicate Replaces(pieces: seq<Cell>, hole: Cell, dstart: int) {
    var n := |pieces| - 1;
    && n >= 0
    && pieces[0].firstSeq == hole.firstSeq
    && (forall k | 0 <= k < n :: Closed(pieces[k], 0, dstart))
    && (forall k | 0 <= k < n :: pieces[k + 1].firstSeq == pieces[k].lastSeq + 1)
    && (if hole.lastSeq == MAXSEQ then Open(pieces[n], dstart, 0)
        else Closed(pieces[n], 0, dstart) && pieces[n].lastSeq == hole.lastSeq)
  }

  lemma SpliceTiles(cells: seq<Cell>, dstart: int, off: int, i: int, pieces: seq<Cell>)
    requires Tiles(cells, dstart, off, 0)
    requires 0 <= i < |cells| && !cells[i].filled
    requires Replaces(pieces, cells[i], dstart)
    ensures Tiles(Splice(cells, i, pieces), dstart, off, 0)
  {
    var after, p := Splice(cells, i, pieces), |pieces|;
    var n := |after| - 1;
    SpliceAt(cells, i, pieces);
    PiecesServed(cells, dstart, off, i, pieces);
    hide Closed, Open, Splice;
    forall j | 0 <= j < n
      ensures Closed(after[j], Served(j, off), dstart)
      ensures after[j + 1].firstSeq == after[j].lastSeq + 1
    {
      SplicedCell(cells, dstart, off, i, pieces, j);
    }
  }

  lemma SplicedCell(cells: seq<Cell>, dstart: int, off: int, i: int, pieces: seq<Cell>, j: int)
    requires Tiles(cells, dstart, off, 0)
    requires 0 <= i < |cells| && !cells[i].filled && Replaces(pieces, cells[i], dstart)
    requires |Splice(cells, i, pieces)| == |cells| + |pieces| - 1 && 0 <= j < |cells| + |pieces| - 2
    ensures Closed(Splice(cells, i, pieces)[j], Served(j, off), dstart)
    ensures Splice(cells, i, pieces)[j + 1].firstSeq == Splice(cells, i, pieces)[j].lastSeq + 1
  {
    var p := |pieces|;
    SpliceAt(cells, i, pieces);
    PiecesServed(cells, dstart, off, i, pieces);
    hide Closed, Open, Splice;
    if j < i {
      assert Closed(cells[j], Served(j, off), dstart);
      assert cells[j + 1].firstSeq == cells[j].lastSeq + 1;
    } else if j < i + p - 1 {
      assert Closed(pieces[j - i], 0, dstart);
      assert pieces[j - i + 1].firstSeq == pieces[j - i].lastSeq + 1;
    } else if j >= i + p {
      var k := j - p + 1;
      assert Closed(cells[k], Served(k, off), dstart);
      assert cells[k + 1].firstSeq == cells[k].lastSeq + 1;
    }
  }

  lemma SpliceAt<T>(s: seq<T>, i: int, pieces: seq<T>)
    requires 0 <= i < |s|
    ensures var after, p := Splice(s, i, pieces), |pieces|;
      && |after| == |s| + p - 1
      && forall k | 0 <= k < |after| :: after[k] == if k < i then s[k] else if k < i + p then pieces[k - i] else s[k - p + 1]
  {
  }

  /** Nothing of a hole has been served, and its last piece joins on as the hole did. */
  lemma PiecesServed(cells: seq<Cell>, dstart: int, off: int, i: int, pieces: seq<Cell>)
    requires Tiles(cells, dstart, off, 0)
    requires 0 <= i < |cells| && !cells[i].filled
    requires Replaces(pieces, cells[i], dstart)
    ensures i == 0 ==> off == 0
    ensures var p := |pieces|;
      if i + 1 < |cells| then Closed(pieces[p - 1], 0, dstart) && cells[i + 1].firstSeq == pieces[p - 1].lastSeq + 1
      else Open(pieces[p - 1], dstart, 0)
  {
    assert i < |cells| - 1 ==> Closed(cells[i], Served(i, off), dstart);
  }

  /** Only packet s is new. */
  ghost predicate FillsOnly(pieces: seq<Cell>, hole: Cell, s: int) {
    forall k, t | 0 <= k < |pieces| && Covers(pieces[k], t) :: Covers(hole, t) && (pieces[k].filled <==> t == s)
  }

  lemma SpliceHolds(cells: seq<Cell>, dstart: int, off: int, keys: set<int>, i: int, pieces: seq<Cell>, s: int)
    requires Tiles(cells, dstart, off, 0) && Holds(cells, keys)
    requires 0 <= i < |cells| && !cells[i].filled && Covers(cells[i], s)
    requires FillsOnly(pieces, cells[i], s)
    ensures Holds(Splice(cells, i, pieces), keys + {s})
  {
    var after, p := Splice(cells, i, pieces), |pieces|;
    forall j, t | 0 <= j < |after| && Covers(after[j], t)
      ensures t in keys + {s} <==> after[j].filled
    {
      if j < i {
        assert Covers(cells[j], t);
        FirstsAscend(cells, dstart, off, 0, j, i);
      } else if j < i + p {
        assert after[j] == pieces[j - i];
        assert Covers(pieces[j - i], t);
      } else {
        assert after[j] == cells[j - p + 1];
        assert Covers(cells[j - p + 1], t);
        FirstsAscend(cells, dstart, off, 0, i, j - p + 1);
      }
    }
  }

  /** `x` reduced as sbuffer.c:213-225 does: only when it is beyond the ring's end. */
  function Wrapped(x: int): int {
    if x > CAP then x - CAP else x
  }

  function Packet(s: int, data: int): Cell {
    Cell(s, s, data, PKT, true)
  }

  /** The four ways a packet goes into a hole that covers it (sbuffer.c:162-260). */
  function Pieces(hole: Cell, s: int): seq<Cell> {
    if hole.firstSeq == s then
      if hole.lastSeq == MAXSEQ || PKT < hole.size then
        [Packet(s, hole.data), Cell(s + 1, hole.lastSeq, (hole.data + PKT) % CAP, hole.size - PKT, false)]
      else
        [Packet(s, hole.data)]
    else
      var room := (s - hole.firstSeq) * PKT;
      if hole.lastSeq == s then
        var at := Wrapped(hole.data + hole.size - PKT);
        [Cell(hole.firstSeq, s - 1, hole.data, hole.size - PKT, false), Packet(s, at)]
      else
        var at := Wrapped(hole.data + room);
        [Cell(hole.firstSeq, s - 1, hole.data, room, false), Packet(s, at),
         Cell(s + 1, hole.lastSeq, Wrapped(at + PKT), hole.size - (room + PKT), false)]
  }

  predicate PlacedAt(data: int, s: int) {
    0 <= data <= CAP && data % CAP == ((s - 1) * PKT) % CAP
  }

  lemma ModAdd(x: int, y: int, z: int)
    requires x % CAP == y % CAP
    ensures (x + z) % CAP == (y + z) % CAP
  {
  }

  lemma WrappedPlaced(data: int, s: int, t: int)
    requires PlacedAt(data, s) && s <= t <= s + BLOCKS
    ensures PlacedAt(Wrapped(data + (t - s) * PKT), t)
    ensures PlacedAt((data + (t - s) * PKT) % CAP, t)
  {
    ModAdd(data, (s - 1) * PKT, (t - s) * PKT);
  }

  ghost predicate Fits(hole: Cell, s: int, dstart: int) {
    && !hole.filled && Covers(hole, s) && s < MAXSEQ
    && dstart <= hole.firstSeq && s < dstart + BLOCKS
    && if hole.lastSeq == MAXSEQ then Open(hole, dstart, 0) else Closed(hole, 0, dstart)
  }

  lemma FrontReplaces(hole: Cell, s: int, dstart: int)
    requires Fits(hole, s, dstart) && hole.firstSeq == s
    ensures Replaces(Pieces(hole, s), hole, dstart)
  {
    assert PlacedAt(hole.data, s);
    WrappedPlaced(hole.data, s, s + 1);
  }

  lemma BackReplaces(hole: Cell, s: int, dstart: int)
    requires Fits(hole, s, dstart) && hole.firstSeq < s == hole.lastSeq
    ensures Replaces(Pieces(hole, s), hole, dstart)
  {
    assert PlacedAt(hole.data, hole.firstSeq);
    WrappedPlaced(hole.data, hole.firstSeq, s);
    hide Wrapped;
    assert hole.data + hole.size - PKT == hole.data + (s - hole.firstSeq) * PKT;
  }

  lemma MiddleReplaces(hole: Cell, s: int, dstart: int)
    requires Fits(hole, s, dstart) && hole.firstSeq < s < hole.lastSeq
    ensures Replaces(Pieces(hole, s), hole, dstart)
  {
    assert PlacedAt(hole.data, hole.firstSeq);
    WrappedPlaced(hole.data, hole.firstSeq, s);
    var at := Wrapped(hole.data + (s - hole.firstSeq) * PKT);
    WrappedPlaced(at, s, s + 1);
    hide Wrapped;
  }

  lemma PiecesFill(hole: Cell, s: int, dstart: int)
    requires Fits(hole, s, dstart)
    ensures FillsOnly(Pieces(hole, s), hole, s)
  {
    var single := hole.lastSeq != MAXSEQ && hole.size <= PKT;
    assert single ==> hole.firstSeq == hole.lastSeq;
    hide Wrapped, Closed, Open;
    var pieces := Pieces(hole, s);
    forall k, t | 0 <= k < |pieces| && Covers(pieces[k], t)
      ensures Covers(hole, t) && (pieces[k].filled <==> t == s)
    {
      if k == 0 {
      } else if k == 1 {
      } else {
        assert k == 2;
      }
    }
  }

  lemma PiecesReplace(hole: Cell, s: int, dstart: int)
    requires Fits(hole, s, dstart)
    ensures Replaces(Pieces(hole, s), hole, dstart)
    ensures FillsOnly(Pieces(hole, s), hole, s)
  {
    hide Replaces, Pieces, FillsOnly;
    PiecesFill(hole, s, dstart);
    if hole.firstSeq == s {
      FrontReplaces(hole, s, dstart);
    } else if hole.lastSeq == s {
      BackReplaces(hole, s, dstart);
    } else {
      MiddleReplaces(hole, s, dstart);
    }
  }

  /** Every hole is one a packet may be put into. */
  lemma HoleFits(cells: seq<Cell>, dstart: int, off: int, i: int, s: int)
    requires Tiles(cells, dstart, off, 0)
    requires 0 <= i < |cells| && !cells[i].filled
    requires s < MAXSEQ && s < dstart + BLOCKS
    ensures Covers(cells[i], s) ==> Fits(cells[i], s, dstart)
  {
    if i > 0 {
      FirstsAscend(cells, dstart, off, 0, 0, i);
      assert Closed(cells[0], Served(0, off), dstart);
    }
    assert i < |cells| - 1 ==> Closed(cells[i], Served(i, off), dstart);
  }

  lemma FillTiles(cells: seq<Cell>, dstart: int, off: int, keys: set<int>, i: int, s: int)
    requires Tiles(cells, dstart, off, 0) && Holds(cells, keys)
    requires 0 <= i < |cells| && !cells[i].filled && Fits(cells[i], s, dstart)
    ensures Tiles(Splice(cells, i, Pieces(cells[i], s)), dstart, off, 0)
    ensures Holds(Splice(cells, i, Pieces(cells[i], s)), keys + {s})
  {
    assert Covers(cells[i], s);
    hide *;
    PiecesReplace(cells[i], s, dstart);
    SpliceTiles(cells, dstart, off, i, Pieces(cells[i], s));
    SpliceHolds(cells, dstart, off, keys, i, Pieces(cells[i], s), s);
  }

  /** A freshly filled cell is where its packet belongs. */
  lemma PacketPlaced(cells: seq<Cell>, dstart: int, off: int, k: int, i: int, s: int)
    requires Tiles(cells, dstart, off, 0)
    requires 0 <= i <= k < |cells| && cells[k].filled && cells[k].firstSeq == s
    requires k == 0 ==> cells[0].size == PKT && cells[0].lastSeq == s
    ensures PlacedAt(cells[k].data, s)
  {
    assert k < |cells| - 1 by {
      assert Open(cells[|cells| - 1], dstart, 0);
    }
    assert Closed(cells[k], Served(k, off), dstart);
  }

  // ----- the list and the abstract state

  ghost predicate InWindow(keys: set<int>, dstart: int) {
    forall s | s in keys :: dstart <= s < dstart + BLOCKS && s < MAXSEQ
  }

  ghost predicate Front(cells: seq<Cell>, dstart: int, off: int, keys: set<int>) {
    && Tiles(cells, dstart, off, 0)
    && Holds(cells, keys)
    && Alternating(cells, |cells|)
    && InWindow(keys, dstart)
  }

  /** The head cell is the block that can be served. */
  lemma HeadIsBlock(cells: seq<Cell>, dstart: int, off: int, keys: set<int>)
    requires Front(cells, dstart, off, keys)
    ensures FirstMissing(keys, dstart, dstart + BLOCKS)
         == if cells[0].filled then cells[0].lastSeq + 1 else dstart
    ensures cells[0].filled <==> dstart in keys
  {
    var e := FirstMissing(keys, dstart, dstart + BLOCKS);
    if |cells| == 1 {
      assert Open(cells[0], dstart, 0);
      assert Covers(cells[0], dstart);
    } else {
      assert Closed(cells[0], Served(0, off), dstart);
      assert Covers(cells[0], dstart);
      if cells[0].filled {
        var last := cells[0].lastSeq;
        assert forall k | dstart <= k <= last :: Covers(cells[0], k);
        assert cells[1].firstSeq == last + 1;
        assert !cells[1].filled;
        assert |cells| > 2 ==> Closed(cells[1], Served(1, off), dstart);
        assert Covers(cells[1], last + 1);
        assert last + 1 !in keys;
        assert e <= last ==> e !in keys && Covers(cells[0], e);
      }
    }
  }

  lemma HeadSize(cells: seq<Cell>, dstart: int, off: int)
    requires Tiles(cells, dstart, off, 0)
    ensures cells[0].firstSeq == dstart
    ensures cells[0].filled ==>
      && |cells| > 1
      && cells[0].lastSeq < dstart + BLOCKS && cells[0].lastSeq < MAXSEQ
      && cells[0].size == (cells[0].lastSeq + 1 - dstart) * PKT - off
      && cells[0].size > 0
      && 0 <= cells[0].data <= CAP && cells[0].data % CAP == ((dstart - 1) * PKT + off) % CAP
    ensures !cells[0].filled ==> off == 0
  {
    if |cells| > 1 {
      assert Closed(cells[0], Served(0, off), dstart);
    } else {
      assert Open(cells[0], dstart, 0);
    }
  }

  /** Part of the front cell is served: it shrinks from the front. */
  function Nibble(cells: seq<Cell>, n: int): seq<Cell>
    requires |cells| > 0
  {
    cells[0 := cells[0].(data := (cells[0].data + n) % CAP, size := cells[0].size - n)]
  }

  lemma NibbleOk(cells: seq<Cell>, dstart: int, off: int, keys: set<int>, n: int)
    requires Front(cells, dstart, off, keys) && cells[0].filled
    requires 0 <= n < cells[0].size && 0 <= off
    ensures Front(Nibble(cells, n), dstart, off + n, keys)
  {
    var after := Nibble(cells, n);
    HeadSize(cells, dstart, off);
    assert Closed(cells[0], Served(0, off), dstart);
    ModAdd(cells[0].data, (dstart - 1) * PKT + off, n);
    assert Closed(after[0], Served(0, off + n), dstart);
    forall i | 0 <= i < |cells| - 1
      ensures Closed(after[i], Served(i, off + n), dstart)
      ensures after[i + 1].firstSeq == after[i].lastSeq + 1
    {
      assert Closed(cells[i], Served(i, off), dstart);
      assert cells[i + 1].firstSeq == cells[i].lastSeq + 1;
    }
    assert Open(after[|cells| - 1], dstart, 0);
    forall i, s | 0 <= i < |after| && Covers(after[i], s)
      ensures s in keys <==> after[i].filled
    {
      assert Covers(cells[i], s);
    }
  }

  lemma NibbleLength(cells: seq<Cell>, n: int)
    requires |cells| > 0
    ensures |Nibble(cells, n)| == |cells|
  {
  }

  /** Only the first number of a filled cell is recognised as a duplicate. */
  lemma FirstsAreRecognised(cells: seq<Cell>, dstart: int, off: int, keys: set<int>, i: int, s: int)
    requires Front(cells, dstart, off, keys)
    requires 0 <= i < |cells| && Covers(cells[i], s)
    ensures s in keys && s - 1 !in keys <==> cells[i].filled && cells[i].firstSeq == s
  {
    if cells[i].firstSeq < s {
      assert Covers(cells[i], s - 1);
    } else if i > 0 {
      assert Closed(cells[i - 1], Served(i - 1, off), dstart);
      assert cells[i].firstSeq == cells[i - 1].lastSeq + 1;
      assert Covers(cells[i - 1], s - 1);
      assert cells[i - 1].filled != cells[i].filled;
    }
  }

  /** The whole front cell is served: it trails behind the open hole, owing its room. */
  function Retire(cells: seq<Cell>): seq<Cell>
    requires |cells| > 0
  {
    var c := cells[0];
    cells[1..] + [c.(filled := false, size := (c.lastSeq - c.firstSeq + 1) * PKT)]
  }

  lemma RetiredBody(cells: seq<Cell>)
    requires |cells| > 0
    ensures |Retire(cells)| == |cells| && Retire(cells)[..|cells| - 1] == cells[1..]
  {
  }

  lemma RetireOk(cells: seq<Cell>, dstart: int, off: int, keys: set<int>)
    requires Front(cells, dstart, off, keys) && cells[0].filled
    ensures |cells| > 1
    ensures ListOk(Retire(cells), cells[0].lastSeq + 1, 0, true)
    ensures Holds(cells[1..], set s | s in keys && cells[0].lastSeq + 1 <= s)
  {
    var last := cells[0].lastSeq;
    var rest := cells[1..];
    var n := |cells| - 1;
    assert Open(cells[n], dstart, 0);
    assert Closed(cells[0], Served(0, off), dstart);
    assert Retire(cells)[..n] == rest;
    forall i | 0 <= i < n - 1
      ensures Closed(rest[i], Served(i, 0), last + 1)
      ensures rest[i + 1].firstSeq == rest[i].lastSeq + 1
    {
      assert Closed(cells[i + 1], Served(i + 1, off), dstart);
      assert cells[i + 2].firstSeq == cells[i + 1].lastSeq + 1;
    }
    assert cells[1].firstSeq == last + 1;
    assert Open(rest[n - 1], last + 1, Retire(cells)[n].size);
    forall i, s | 0 <= i < |rest| && Covers(rest[i], s)
      ensures s in (set s | s in keys && last + 1 <= s) <==> rest[i].filled
    {
      assert Covers(cells[i + 1], s);
      FirstsAscend(cells, dstart, off, 0, 0, i + 1);
    }
  }

  /** The first i cells neither recognise nor take packet s. */
  ghost predicate PassedBy(cells: seq<Cell>, i: int, s: int) {
    forall j | 0 <= j < i && j < |cells| && Covers(cells[j], s) :: cells[j].filled && cells[j].firstSeq != s
  }

  lemma NonePassed(cells: seq<Cell>, s: int)
    ensures PassedBy(cells, 0, s)
  {
  }

  lemma OnePassed(cells: seq<Cell>, i: int, s: int)
    requires 0 <= i < |cells| && PassedBy(cells, i, s)
    requires if cells[i].filled then cells[i].firstSeq != s else !Covers(cells[i], s)
    ensures PassedBy(cells, i + 1, s)
  {
  }

  lemma {:induction false} CoveredSomewhere(cells: seq<Cell>, dstart: int, off: int, i: int, s: int) returns (j: int)
    requires Tiles(cells, dstart, off, 0)
    requires 0 <= i < |cells| && cells[i].firstSeq <= s <= MAXSEQ
    ensures i <= j < |cells| && Covers(cells[j], s)
    decreases |cells| - i
  {
    if i + 1 == |cells| {
      assert Open(cells[i], dstart, 0);
      j := i;
    } else if s <= cells[i].lastSeq {
      j := i;
    } else {
      assert cells[i + 1].firstSeq == cells[i].lastSeq + 1;
      j := CoveredSomewhere(cells, dstart, off, i + 1, s);
    }
  }

  /** A packet every cell passes by is neither recognised nor acceptable. */
  lemma NowhereToPut(cells: seq<Cell>, dstart: int, off: int, keys: set<int>, s: int)
    requires Front(cells, dstart, off, keys) && s < MAXSEQ
    requires PassedBy(cells, |cells|, s)
    ensures !(s in keys && s - 1 !in keys)
    ensures !(dstart <= s && s !in keys)
  {
    if dstart <= s {
      var j := CoveredSomewhere(cells, dstart, off, 0, s);
      FirstsAreRecognised(cells, dstart, off, keys, j, s);
    }
  }

  lemma FirstIsRecognised(cells: seq<Cell>, dstart: int, off: int, keys: set<int>, i: int)
    requires Front(cells, dstart, off, keys)
    requires 0 <= i < |cells| && cells[i].filled
    ensures cells[i].firstSeq in keys && cells[i].firstSeq - 1 !in keys
  {
    assert i < |cells| - 1 by {
      assert Open(cells[|cells| - 1], dstart, 0);
    }
    assert Closed(cells[i], Served(i, off), dstart);
    FirstsAreRecognised(cells, dstart, off, keys, i, cells[i].firstSeq);
  }

  lemma BeyondWindow(keys: set<int>, dstart: int, s: int)
    requires InWindow(keys, dstart) && s >= dstart + BLOCKS
    ensures s !in keys
  {
  }

  /** A number a hole covers is in the window and not held. */
  lemma HoleOffered(cells: seq<Cell>, dstart: int, off: int, keys: set<int>, i: int, s: int)
    requires Front(cells, dstart, off, keys)
    requires 0 <= i < |cells| && !cells[i].filled
    ensures Covers(cells[i], s) ==> dstart <= s && s !in keys
  {
    if i > 0 {
      FirstsAscend(cells, dstart, off, 0, 0, i);
      assert Closed(cells[0], Served(0, off), dstart);
    }
  }

  // ----- the ring

  lemma PlacedAtSlot(data: int, s: int)
    requires PlacedAt(data, s)
    ensures 0 <= Slot(s) && Slot(s) + PKT <= CAP
    ensures data == Slot(s) || (data == CAP && Slot(s) == 0)
  {
    RingIndex(s, 0, data);
  }

  /** Where packet s is kept. */
  function Slot(s: int): int {
    ((s - 1) % BLOCKS) * PKT
  }

  ghost predicate Stored(ring: seq<byte>, store: map<int, seq<byte>>) {
    && |ring| == CAP
    && FullPackets(store)
    && forall s | s in store :: ring[Slot(s)..Slot(s) + PKT] == store[s]
  }

  lemma {:induction false} JoinedAt(store: map<int, seq<byte>>, s: int, e: int, j: int)
    requires s <= e && FullPackets(store)
    requires forall k | s <= k < e :: k in store
    requires 0 <= j < (e - s) * PKT
    ensures s <= s + j / PKT < e
    ensures Joined(store, s, e)[j] == store[s + j / PKT][j % PKT]
    decreases e - s
  {
    if j < PKT {
    } else {
      JoinedAt(store, s + 1, e, j - PKT);
      assert (j - PKT) / PKT == j / PKT - 1 && (j - PKT) % PKT == j % PKT;
    }
  }

  lemma RingIndex(s: int, j: int, x: int)
    requires j >= 0 && x % CAP == ((s - 1) * PKT + j) % CAP
    ensures x % CAP == Slot(s + j / PKT) + j % PKT
  {
    var b := s - 1 + j / PKT;
    assert (s - 1) * PKT + j == b * PKT + j % PKT;
    assert b == BLOCKS * (b / BLOCKS) + b % BLOCKS;
    assert b * PKT + j % PKT == CAP * (b / BLOCKS) + ((b % BLOCKS) * PKT + j % PKT);
    ModMultiple((b % BLOCKS) * PKT + j % PKT, b / BLOCKS);
  }

  lemma ModMultiple(x: int, k: int)
    requires 0 <= x < CAP
    ensures (CAP * k + x) % CAP == x
  {
  }

  lemma RingByte(ring: seq<byte>, store: map<int, seq<byte>>, s: int, e: int, j: int, x: int)
    requires Stored(ring, store) && s <= e
    requires forall k | s <= k < e :: k in store
    requires 0 <= j < (e - s) * PKT && x % CAP == ((s - 1) * PKT + j) % CAP
    ensures ring[x % CAP] == Joined(store, s, e)[j]
  {
    JoinedAt(store, s, e, j);
    RingIndex(s, j, x);
    hide Joined;
    var t := s + j / PKT;
    assert ring[Slot(t)..Slot(t) + PKT][j % PKT] == store[t][j % PKT];
  }

  /** What the head cell's place in the ring holds is the rest of the front block. */
  lemma SliceIsJoined(ring: seq<byte>, store: map<int, seq<byte>>, s: int, e: int, off: int, data: int, n: int)
    requires Stored(ring, store) && s <= e <= s + BLOCKS
    requires forall k | s <= k < e :: k in store
    requires 0 <= off && 0 <= n && off + n <= (e - s) * PKT
    requires 0 <= data <= CAP && data % CAP == ((s - 1) * PKT + off) % CAP
    ensures RingSlice(ring, data, n) == Joined(store, s, e)[off..off + n]
  {
    var a, b := RingSlice(ring, data, n), Joined(store, s, e)[off..off + n];
    assert |a| == |b| == n && |ring| == CAP;
    hide RingSlice, Joined, Stored;
    forall j | 0 <= j < n
      ensures a[j] == b[j]
    {
      RingSliceAt(ring, data, n, j);
      ModAdd(data, (s - 1) * PKT + off, j);
      RingByte(ring, store, s, e, off + j, data + j);
      assert b[j] == Joined(store, s, e)[off + j];
    }
  }

  /** Forgetting packets leaves the others where they are. */
  lemma KeepStored(ring: seq<byte>, store: map<int, seq<byte>>, e: int)
    requires Stored(ring, store)
    ensures Stored(ring, DropBelow(store, e))
  {
  }

  lemma DroppedKeys(store: map<int, seq<byte>>, dstart: int, e: int)
    requires InWindow(store.Keys, dstart) && dstart <= e
    ensures DropBelow(store, e).Keys == set s | s in store.Keys && e <= s
    ensures InWindow(DropBelow(store, e).Keys, e)
  {
  }

  /** Within one window no two packets share a place. */
  lemma SlotsApart(s: int, t: int, dstart: int)
    requires dstart <= s < dstart + BLOCKS && dstart <= t < dstart + BLOCKS && s != t
    ensures Slot(s) + PKT <= Slot(t) || Slot(t) + PKT <= Slot(s)
  {
  }

  /** Writing packet s keeps every other packet and stores this one. */
  lemma WriteKeeps(before: seq<byte>, after: seq<byte>, store: map<int, seq<byte>>, dstart: int, s: int, packet: seq<byte>)
    requires Stored(before, store) && InWindow(store.Keys, dstart)
    requires dstart <= s < dstart + BLOCKS && |packet| == PKT
    requires after == before[..Slot(s)] + packet + before[Slot(s) + PKT..]
    ensures Stored(after, store[s := packet])
  {
    forall t | t in store[s := packet]
      ensures after[Slot(t)..Slot(t) + PKT] == store[s := packet][t]
    {
      if t != s {
        SlotsApart(s, t, dstart);
        assert after[Slot(t)..Slot(t) + PKT] == before[Slot(t)..Slot(t) + PKT];
      }
    }
  }

  lemma FrontBytes(ring: seq<byte>, r: Receiver, data: int, n: int)
    requires Reassembly.Valid(r) && Stored(ring, r.store)
    requires 0 <= n && r.off + n <= (BlockEnd(r) - r.dstart) * PKT
    requires 0 <= data <= CAP && data % CAP == ((r.dstart - 1) * PKT + r.off) % CAP
    ensures |Available(r)| == (BlockEnd(r) - r.dstart) * PKT - r.off
    ensures RingSlice(ring, data, n) == Available(r)[..n]
    ensures n == |Available(r)| ==> RingSlice(ring, data, n) == Available(r)
  {
    var all := Joined(r.store, r.dstart, BlockEnd(r));
    SliceIsJoined(ring, r.store, r.dstart, BlockEnd(r), r.off, data, n);
    hide RingSlice, Joined;
    assert all[r.off..r.off + n] == all[r.off..][..n];
  }

  /** Serving the whole front cell moves on to the end of the block. */
  lemma BlockServed(cells: seq<Cell>, r: Receiver)
    requires Front(cells, r.dstart, r.off, r.store.Keys) && cells[0].filled
    ensures var e := cells[0].lastSeq + 1;
      && BlockEnd(r) == e <= MAXSEQ
      && r.dstart < e
      && |Retire(cells)| == |cells|
      && ListOk(Retire(cells), e, 0, true)
      && Holds(Retire(cells)[..|cells| - 1], DropBelow(r.store, e).Keys)
      && InWindow(DropBelow(r.store, e).Keys, e)
  {
    var e := cells[0].lastSeq + 1;
    HeadIsBlock(cells, r.dstart, r.off, r.store.Keys);
    HeadSize(cells, r.dstart, r.off);
    RetireOk(cells, r.dstart, r.off, r.store.Keys);
    RetiredBody(cells);
    hide Tiles, Holds, ListOk, Alternating, Retire;
    assert r.dstart < e;
    DroppedKeys(r.store, r.dstart, e);
    hide DropBelow, InWindow;
  }
}
