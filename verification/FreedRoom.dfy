/** The list of sbuffer.c with the first hole (:56) and the guard at :115 each as it is
    written or repaired, and the other repairs in place. With the guard as written the room
    of packets already read can stay in the list, behind what is still to be read. */
module FreedRoom {
  import opened Parameters
  import opened ReassemblyCells
  import opened Wrappers

  /** The cells from the head on. `strict` says that the guard at :115 is as written.
      `endless` says that the last hole has no end: it had none to begin with, or the loop
      at :114-121 has merged something. */
  datatype List = List(cells: seq<Cell>, dstart: int, endless: bool, strict: bool)

  const LAST: int := 64

  /** initHead: a hole up to packet 64, or without end. */
  function First(endless: bool, strict: bool): List {
    List([Cell(1, End(endless), 0, CAP, false)], 1, endless, strict)
  }

  // ----- mergeList

  /** The loop at :106-113 at node i. None when the node swallows the head: then no node
      leads to the head any more, and the loop at :105 does not end. */
  function JoinRun(cells: seq<Cell>, i: int): (r: Option<seq<Cell>>)
    requires 0 <= i < |cells|
    ensures r.Some? ==> i < |r.value| <= |cells|
    decreases |cells|
  {
    if !NeighboursMerge(cells[i], cells[Succ(i, |cells|)]) then Some(cells)
    else if i + 1 < |cells| then JoinRun(MergeAt(cells, i, cells[i + 1].lastSeq), i)
    else None
  }

  /** The guard at :114-115. */
  predicate MayAbsorb(c: Cell, d: Cell, dstart: int, strict: bool) {
    !c.filled && !d.filled && (strict ==> dstart != c.firstSeq) && dstart != d.firstSeq
  }

  /** The loop at :114-121 at node i, and whether it merged anything. None when the node
      swallows the head, which may be itself. */
  function TakeRoom(cells: seq<Cell>, i: int, dstart: int, strict: bool): (r: Option<(seq<Cell>, bool)>)
    requires 0 <= i < |cells|
    ensures r.Some? ==> i < |r.value.0| <= |cells|
    decreases |cells|
  {
    if !MayAbsorb(cells[i], cells[Succ(i, |cells|)], dstart, strict) then Some((cells, false))
    else if i + 1 < |cells| then
      var rest := TakeRoom(MergeAt(cells, i, MAXSEQ), i, dstart, strict);
      if rest.None? then None else Some((rest.value.0, true))
    else None
  }

  /** The loop at :105-124 from node i on. */
  function Pass(cells: seq<Cell>, i: int, dstart: int, strict: bool): (r: Option<(seq<Cell>, bool)>)
    requires 0 <= i < |cells|
    ensures r.Some? ==> |r.value.0| > 0
    decreases |cells|, |cells| - i
  {
    if i + 1 == |cells| then Some((cells, false))
    else
      var joined := JoinRun(cells, i);
      if joined.None? then None
      else
        var taken := TakeRoom(joined.value, i, dstart, strict);
        if taken.None? then None
        else
          var rest := Pass(taken.value.0, Succ(i, |taken.value.0|), dstart, strict);
          if rest.None? then None else Some((rest.value.0, taken.value.1 || rest.value.1))
  }

  function Merge(l: List): (r: Option<List>)
    requires |l.cells| > 0
    ensures r.Some? ==> |r.value.cells| > 0
  {
    var r := Pass(l.cells, 0, l.dstart, l.strict);
    if r.None? then None else Some(l.(cells := r.value.0, endless := l.endless || r.value.1))
  }

  // ----- addData and requestData

  datatype Outcome = Duplicate | TooFar | Stored(cells: seq<Cell>) | Nowhere

  predicate Takes(hole: Cell, s: int) {
    hole.firstSeq < s <= hole.lastSeq || (hole.firstSeq == s && (PKT <= hole.size || hole.lastSeq == MAXSEQ))
  }

  /** The loop at :148-289 from node j on. */
  function Scan(cells: seq<Cell>, j: int, s: int, dstart: int): (o: Outcome)
    requires 0 <= j <= |cells|
    ensures o.Stored? ==> |o.cells| > 0
    decreases |cells| - j
  {
    if j == |cells| then Nowhere
    else if cells[j].firstSeq == s && cells[j].filled then Duplicate
    else if s > dstart + 63 then TooFar
    else if !cells[j].filled && Takes(cells[j], s) then Stored(Splice(cells, j, Pieces(cells[j], s)))
    else Scan(cells, j + 1, s, dstart)
  }

  /** Merge, scan, and merge again if the packet went in. */
  function AddData(l: List, s: int): (r: Option<List>)
    requires |l.cells| > 0
    ensures r.Some? ==> |r.value.cells| > 0
  {
    var ready := Merge(l);
    if ready.None? then None
    else
      match Scan(ready.value.cells, 0, s, l.dstart)
      case Stored(cells) => Merge(ready.value.(cells := cells))
      case _ => ready
  }

  function Read(l: List, n: nat): (r: Option<List>)
    requires |l.cells| > 0
    ensures r.Some? ==> |r.value.cells| > 0
  {
    var h := l.cells[0];
    if h.filled && h.firstSeq == l.dstart then
      if h.size <= n then Merge(l.(cells := Retire(l.cells), dstart := h.lastSeq + 1))
      else Some(l.(cells := Nibble(l.cells, n)))
    else Some(l)
  }

  // ----- the shape of the list

  /** How far the list reaches. */
  function End(endless: bool): int {
    if endless then MAXSEQ else LAST
  }

  predicate Sized(c: Cell) {
    !c.filled && c.lastSeq != MAXSEQ ==> c.size == (c.lastSeq - c.firstSeq + 1) * PKT
  }

  /** The cells run from lo to hi without a gap, and a bounded hole has the size its range
      asks for. */
  ghost predicate Covering(cells: seq<Cell>, lo: int, hi: int)
    decreases |cells|
  {
    if cells == [] then lo == hi + 1
    else
      && cells[0].firstSeq == lo <= cells[0].lastSeq
      && Sized(cells[0])
      && Covering(cells[1..], cells[0].lastSeq + 1, hi)
  }

  lemma {:induction false} CoveringRange(cells: seq<Cell>, lo: int, hi: int)
    requires Covering(cells, lo, hi)
    ensures lo <= hi + 1
    ensures cells != [] ==> cells[0].firstSeq == lo && cells[|cells| - 1].lastSeq == hi
    decreases |cells|
  {
    if cells == [] {
    } else {
      CoveringRange(cells[1..], cells[0].lastSeq + 1, hi);
    }
  }

  lemma {:induction false} Joins(a: seq<Cell>, b: seq<Cell>, lo: int, mid: int, hi: int)
    requires Covering(a, lo, mid - 1) && Covering(b, mid, hi)
    ensures Covering(a + b, lo, hi)
    decreases |a|
  {
    if a == [] {
      assert a + b == b;
    } else {
      assert (a + b)[1..] == a[1..] + b;
      Joins(a[1..], b, a[0].lastSeq + 1, mid, hi);
    }
  }

  lemma {:induction false} Splits(cells: seq<Cell>, lo: int, hi: int, k: int)
    requires Covering(cells, lo, hi) && 0 <= k < |cells|
    ensures Covering(cells[..k], lo, cells[k].firstSeq - 1)
    ensures Sized(cells[k]) && lo <= cells[k].firstSeq <= cells[k].lastSeq <= hi
    ensures Covering(cells[k + 1..], cells[k].lastSeq + 1, hi)
    decreases |cells|
  {
    if k == 0 {
      CoveringRange(cells[1..], cells[0].lastSeq + 1, hi);
    } else {
      Splits(cells[1..], cells[0].lastSeq + 1, hi, k - 1);
      assert cells[..k][1..] == cells[1..][..k - 1];
      assert cells[1..][k..] == cells[k + 1..];
    }
  }

  lemma Single(c: Cell)
    requires c.firstSeq <= c.lastSeq && Sized(c)
    ensures Covering([c], c.firstSeq, c.lastSeq)
  {
    assert [c][1..] == [];
  }

  /** One cell gives way to pieces. */
  lemma SpliceCovers(cells: seq<Cell>, lo: int, hi: int, j: int, pieces: seq<Cell>)
    requires Covering(cells, lo, hi) && 0 <= j < |cells|
    requires Covering(pieces, cells[j].firstSeq, cells[j].lastSeq)
    ensures Covering(Splice(cells, j, pieces), lo, hi)
  {
    hide Covering;
    Splits(cells, lo, hi, j);
    Joins(cells[..j], pieces, lo, cells[j].firstSeq, cells[j].lastSeq);
    Joins(cells[..j] + pieces, cells[j + 1..], lo, cells[j].lastSeq + 1, hi);
  }

  /** Two neighbours of one kind give way to one. */
  lemma MergeCovers(cells: seq<Cell>, lo: int, hi: int, i: int)
    requires Covering(cells, lo, hi) && hi <= MAXSEQ
    requires 0 <= i && i + 1 < |cells| && cells[i].filled == cells[i + 1].filled
    ensures cells[i + 1].firstSeq == cells[i].lastSeq + 1
    ensures Covering(MergeAt(cells, i, cells[i + 1].lastSeq), lo, hi)
  {
    var merged := Merged(cells[i], cells[i + 1], cells[i + 1].lastSeq);
    Splits(cells, lo, hi, i);
    var rest := cells[i + 1..];
    assert rest[0] == cells[i + 1] && rest[1..] == cells[i + 2..];
    Splits(rest, cells[i].lastSeq + 1, hi, 0);
    hide Covering;
    Single(merged);
    Joins(cells[..i], [merged], lo, cells[i].firstSeq, cells[i + 1].lastSeq);
    Joins(cells[..i] + [merged], cells[i + 2..], lo, cells[i + 1].lastSeq + 1, hi);
  }

  lemma PiecesCover(hole: Cell, s: int)
    requires !hole.filled && Takes(hole, s) && Sized(hole) && hole.firstSeq <= hole.lastSeq && s < MAXSEQ
    ensures Covering(Pieces(hole, s), hole.firstSeq, hole.lastSeq)
    ensures |Pieces(hole, s)| > 0
    ensures hole.lastSeq == MAXSEQ ==> !Pieces(hole, s)[|Pieces(hole, s)| - 1].filled
  {
    hide Wrapped;
    var pieces := Pieces(hole, s);
    if |pieces| == 1 {
      assert pieces[1..] == [];
    } else if |pieces| == 2 {
      Single(pieces[1]);
      assert pieces[1..] == [pieces[1]];
    } else {
      Single(pieces[2]);
      assert pieces[1..][1..] == [pieces[2]];
    }
  }

  /** The first m cells run from dstart to the end; the others are the room of packets
      already read, from lo or later up to dstart. */
  ghost predicate Shape(cells: seq<Cell>, dstart: int, endless: bool, m: int, lo: int) {
    && 0 <= m <= |cells| && cells != [] && 1 <= lo <= dstart
    && Covering(cells[..m], dstart, End(endless))
    && (m < |cells| ==> lo <= cells[m].firstSeq && Covering(cells[m..], cells[m].firstSeq, dstart - 1))
    && (endless ==> m > 0 && !cells[m - 1].filled)
  }

  /** The two parts do not join. */
  lemma SeamApart(cells: seq<Cell>, dstart: int, endless: bool, m: int, lo: int)
    requires Shape(cells, dstart, endless, m, lo) && 0 < m < |cells|
    ensures cells[m].firstSeq < dstart <= End(endless) && !NeighboursMerge(cells[m - 1], cells[m])
  {
    CoveringRange(cells[..m], dstart, End(endless));
    Splits(cells[m..], cells[m].firstSeq, dstart - 1, 0);
    Splits(cells[..m], dstart, End(endless), 0);
    assert cells[..m][m - 1] == cells[m - 1] && cells[m..][0] == cells[m];
  }

  lemma MergeAtParts(cells: seq<Cell>, i: int, last: int, m: int)
    requires 0 <= i && i + 1 < |cells| && 0 <= m <= |cells|
    ensures i + 1 < m ==>
      MergeAt(cells, i, last)[..m - 1] == MergeAt(cells[..m], i, last) && MergeAt(cells, i, last)[m - 1..] == cells[m..]
    ensures m <= i ==>
      MergeAt(cells, i, last)[..m] == cells[..m] && MergeAt(cells, i, last)[m..] == MergeAt(cells[m..], i - m, last)
  {
  }

  lemma SpliceParts(cells: seq<Cell>, j: int, pieces: seq<Cell>, m: int)
    requires 0 <= j < |cells| && 0 <= m <= |cells|
    ensures var after, k := Splice(cells, j, pieces), m + |pieces| - 1;
      && (j < m ==> after[..k] == Splice(cells[..m], j, pieces) && after[k..] == cells[m..])
      && (m <= j ==> after[..m] == cells[..m] && after[m..] == Splice(cells[m..], j - m, pieces))
  {
  }

  lemma MergedEnds(cells: seq<Cell>, i: int, last: int)
    requires 0 <= i && i + 1 < |cells|
    ensures |MergeAt(cells, i, last)| == |cells| - 1
    ensures cells[i].filled == cells[i + 1].filled ==>
      forall k | 0 <= k < |cells| - 1 ::
        && MergeAt(cells, i, last)[k].filled == cells[if k <= i then k else k + 1].filled
        && (k <= i ==> MergeAt(cells, i, last)[k].firstSeq == cells[k].firstSeq)
  {
    forall k | 0 <= k < |cells| - 1
      ensures MergeAt(cells, i, last)[k] == if k < i then cells[k] else if k == i then Merged(cells[i], cells[i + 1], last) else cells[k + 1]
    {
      MergeAtIndex(cells, i, last, k);
    }
  }

  lemma MergeInFront(cells: seq<Cell>, i: int, dstart: int, endless: bool, m: int, lo: int)
    requires Shape(cells, dstart, endless, m, lo) && dstart <= MAXSEQ
    requires 0 <= i && i + 1 < m && cells[i].filled == cells[i + 1].filled
    ensures Shape(MergeAt(cells, i, cells[i + 1].lastSeq), dstart, endless, m - 1, lo)
  {
    hide Covering, MergeAt;
    MergeAtParts(cells, i, cells[i + 1].lastSeq, m);
    MergedEnds(cells, i, cells[i + 1].lastSeq);
    MergeCovers(cells[..m], dstart, End(endless), i);
  }

  lemma MergeBehind(cells: seq<Cell>, i: int, dstart: int, endless: bool, m: int, lo: int)
    requires Shape(cells, dstart, endless, m, lo) && dstart <= MAXSEQ
    requires m <= i && i + 1 < |cells| && cells[i].filled == cells[i + 1].filled
    ensures Shape(MergeAt(cells, i, cells[i + 1].lastSeq), dstart, endless, m, lo)
  {
    hide Covering, MergeAt;
    MergeAtParts(cells, i, cells[i + 1].lastSeq, m);
    MergedEnds(cells, i, cells[i + 1].lastSeq);
    MergeCovers(cells[m..], cells[m].firstSeq, dstart - 1, i - m);
  }

  lemma MergeKeepsShape(cells: seq<Cell>, i: int, dstart: int, endless: bool, m: int, lo: int) returns (k: int)
    requires Shape(cells, dstart, endless, m, lo) && dstart <= MAXSEQ
    requires 0 <= i && i + 1 < |cells| && NeighboursMerge(cells[i], cells[i + 1])
    ensures Shape(MergeAt(cells, i, cells[i + 1].lastSeq), dstart, endless, k, lo)
  {
    assert 0 <= m;
    hide Shape, Covering, MergeAt;
    k := m;
    if i + 1 == m {
      SeamApart(cells, dstart, endless, m, lo);
    } else if i + 1 < m {
      MergeInFront(cells, i, dstart, endless, m, lo);
      k := m - 1;
    } else {
      MergeBehind(cells, i, dstart, endless, m, lo);
    }
  }

  lemma {:induction false} JoinKeepsShape(cells: seq<Cell>, i: int, dstart: int, endless: bool, m: int, lo: int) returns (k: int)
    requires Shape(cells, dstart, endless, m, lo) && dstart <= MAXSEQ
    requires 0 <= i < |cells| && JoinRun(cells, i).Some?
    ensures var r := JoinRun(cells, i).value;
      Shape(r, dstart, endless, k, lo) && !NeighboursMerge(r[i], r[Succ(i, |r|)])
    decreases |cells|
  {
    hide Shape;
    if !NeighboursMerge(cells[i], cells[Succ(i, |cells|)]) {
      k := m;
    } else {
      k := MergeKeepsShape(cells, i, dstart, endless, m, lo);
      k := JoinKeepsShape(MergeAt(cells, i, cells[i + 1].lastSeq), i, dstart, endless, k, lo);
    }
  }

  /** Two holes that do not join may only be the last before the freed room, and the room. */
  lemma AbsorbsAtSeam(cells: seq<Cell>, i: int, dstart: int, endless: bool, m: int, lo: int, strict: bool)
    requires Shape(cells, dstart, endless, m, lo) && dstart <= MAXSEQ
    requires 0 <= i && i + 1 < |cells| && MayAbsorb(cells[i], cells[i + 1], dstart, strict)
    requires !NeighboursMerge(cells[i], cells[i + 1])
    ensures i == m - 1
  {
    hide Covering;
    if i + 1 < m {
      MergeCovers(cells[..m], dstart, End(endless), i);
    } else if m <= i {
      MergeCovers(cells[m..], cells[m].firstSeq, dstart - 1, i - m);
    }
  }

  /** The last hole before the freed room swallows the first of it, and is without end. */
  lemma AbsorbKeepsShape(cells: seq<Cell>, dstart: int, endless: bool, m: int, lo: int, strict: bool)
    requires Shape(cells, dstart, endless, m, lo) && dstart <= MAXSEQ
    requires 0 < m < |cells| && MayAbsorb(cells[m - 1], cells[m], dstart, strict)
    ensures Shape(MergeAt(cells, m - 1, MAXSEQ), dstart, true, m, lo)
  {
    var after := MergeAt(cells, m - 1, MAXSEQ);
    var live, tail, c := cells[..m], cells[m..], after[m - 1];
    CoveringRange(live, dstart, End(endless));
    Splits(live, dstart, End(endless), m - 1);
    Single(c);
    Splits(tail, cells[m].firstSeq, dstart - 1, 0);
    if |tail| > 1 { CoveringRange(tail[1..], cells[m].lastSeq + 1, dstart - 1); }
    hide Covering;
    Joins(live[..m - 1], [c], dstart, c.firstSeq, MAXSEQ);
    assert after[..m] == live[..m - 1] + [c];
    assert after[m..] == tail[1..];
  }

  lemma {:induction false} TakeKeepsShape(cells: seq<Cell>, i: int, dstart: int, endless: bool, m: int, lo: int, strict: bool)
    requires Shape(cells, dstart, endless, m, lo) && dstart <= MAXSEQ
    requires 0 <= i < |cells| && TakeRoom(cells, i, dstart, strict).Some?
    requires i == m - 1 || !NeighboursMerge(cells[i], cells[Succ(i, |cells|)])
    ensures var (r, merged) := TakeRoom(cells, i, dstart, strict).value;
      Shape(r, dstart, endless || merged, m, lo)
    decreases |cells|
  {
    hide Shape;
    if !MayAbsorb(cells[i], cells[Succ(i, |cells|)], dstart, strict) {
    } else {
      if i != m - 1 {
        AbsorbsAtSeam(cells, i, dstart, endless, m, lo, strict);
      }
      AbsorbKeepsShape(cells, dstart, endless, m, lo, strict);
      TakeKeepsShape(MergeAt(cells, i, MAXSEQ), i, dstart, true, m, lo, strict);
    }
  }

  lemma {:induction false} PassKeepsShape(cells: seq<Cell>, i: int, dstart: int, endless: bool, m: int, lo: int, strict: bool) returns (k: int)
    requires Shape(cells, dstart, endless, m, lo) && dstart <= MAXSEQ
    requires 0 <= i < |cells| && Pass(cells, i, dstart, strict).Some?
    ensures var (r, merged) := Pass(cells, i, dstart, strict).value;
      Shape(r, dstart, endless || merged, k, lo)
    decreases |cells|, |cells| - i
  {
    hide Shape;
    if i + 1 == |cells| {
      k := m;
    } else {
      var joined := JoinRun(cells, i).value;
      k := JoinKeepsShape(cells, i, dstart, endless, m, lo);
      TakeKeepsShape(joined, i, dstart, endless, k, lo, strict);
      var (taken, merged) := TakeRoom(joined, i, dstart, strict).value;
      k := PassKeepsShape(taken, Succ(i, |taken|), dstart, endless || merged, k, lo, strict);
    }
  }

  // ----- arrivals and reads keep it

  lemma StoreInFront(cells: seq<Cell>, j: int, s: int, dstart: int, endless: bool, m: int, lo: int)
    requires Shape(cells, dstart, endless, m, lo) && s < MAXSEQ
    requires 0 <= j < m && !cells[j].filled && Takes(cells[j], s)
    ensures Shape(Splice(cells, j, Pieces(cells[j], s)), dstart, endless, m + |Pieces(cells[j], s)| - 1, lo)
  {
    var pieces := Pieces(cells[j], s);
    var after, k := Splice(cells, j, pieces), m + |pieces| - 1;
    Splits(cells[..m], dstart, End(endless), j);
    PiecesCover(cells[j], s);
    CoveringRange(cells[..m], dstart, End(endless));
    hide Covering, Pieces, Takes;
    SpliceParts(cells, j, pieces, m);
    assert after[k - 1] == if j == m - 1 then pieces[|pieces| - 1] else cells[m - 1];
    assert |after| == |cells| + |pieces| - 1;
    assert m < |cells| ==> after[k..][0] == after[k] == cells[m..][0] == cells[m];
    hide Splice;
    SpliceCovers(cells[..m], dstart, End(endless), j, pieces);
  }

  lemma StoreBehind(cells: seq<Cell>, j: int, s: int, dstart: int, endless: bool, m: int, lo: int)
    requires Shape(cells, dstart, endless, m, lo) && s < MAXSEQ
    requires m <= j < |cells| && !cells[j].filled && Takes(cells[j], s)
    ensures Shape(Splice(cells, j, Pieces(cells[j], s)), dstart, endless, m, lo)
  {
    var pieces := Pieces(cells[j], s);
    var after := Splice(cells, j, pieces);
    Splits(cells[m..], cells[m].firstSeq, dstart - 1, j - m);
    PiecesCover(cells[j], s);
    hide Pieces, Takes;
    SpliceParts(cells, j, pieces, m);
    assert m > 0 ==> after[m - 1] == cells[m - 1];
    assert |after| == |cells| + |pieces| - 1;
    hide Splice;
    SpliceCovers(cells[m..], cells[m].firstSeq, dstart - 1, j - m, pieces);
    assert after[m..][0] == after[m];
    CoveringRange(after[m..], cells[m].firstSeq, dstart - 1);
  }

  lemma StartBound(cells: seq<Cell>, dstart: int, endless: bool, m: int, lo: int)
    requires Shape(cells, dstart, endless, m, lo)
    ensures 1 <= dstart <= MAXSEQ
  {
    CoveringRange(cells[..m], dstart, End(endless));
    if m > 0 { Splits(cells[..m], dstart, End(endless), 0); }
  }

  lemma RetireKeepsShape(cells: seq<Cell>, dstart: int, endless: bool, m: int, lo: int)
    requires Shape(cells, dstart, endless, m, lo) && cells[0].filled && cells[0].firstSeq == dstart
    ensures m > 0 && Shape(Retire(cells), cells[0].lastSeq + 1, endless, m - 1, lo)
  {
    var live, tail, after := cells[..m], cells[m..], Retire(cells);
    if m == 0 {
      Splits(tail, cells[0].firstSeq, dstart - 1, 0);
    }
    var freed := after[|cells| - 1];
    Splits(live, dstart, End(endless), 0);
    Single(freed);
    if tail != [] { CoveringRange(tail, cells[m].firstSeq, dstart - 1); }
    assert after == cells[1..] + [freed];
    assert cells[1..][..m - 1] == live[1..] && cells[1..][m - 1..] == tail;
    assert after[..m - 1] == live[1..];
    assert after[m - 1..] == tail + [freed];
    var from := if tail == [] then dstart else cells[m].firstSeq;
    assert tail == [] ==> Covering(tail, from, dstart - 1);
    hide Covering;
    Joins(tail, [freed], from, dstart, freed.lastSeq);
  }

  lemma NibbleKeepsShape(cells: seq<Cell>, dstart: int, endless: bool, m: int, n: int, lo: int)
    requires Shape(cells, dstart, endless, m, lo) && cells[0].filled
    ensures Shape(Nibble(cells, n), dstart, endless, m, lo)
  {
    var after := Nibble(cells, n);
    if m > 0 {
      assert after[m..] == cells[m..];
      assert after[..m][1..] == cells[..m][1..];
    } else {
      assert after[m..][1..] == cells[m..][1..];
    }
  }
}
