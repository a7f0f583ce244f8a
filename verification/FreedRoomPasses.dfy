/** Which passes of mergeList come to an end. */
module FreedRoomPasses {
  import opened FreedRoom
  import opened Parameters
  import opened ReassemblyCells
  import opened Wrappers

  // ----- what the shape says cell by cell

  lemma CellAt(cells: seq<Cell>, dstart: int, endless: bool, m: int, lo: int, k: int)
    requires Shape(cells, dstart, endless, m, lo) && 0 <= k < |cells|
    ensures Sized(cells[k]) && cells[k].firstSeq <= cells[k].lastSeq
    ensures k < m ==> dstart <= cells[k].firstSeq && cells[k].lastSeq <= End(endless)
    ensures m <= k ==> lo <= cells[k].firstSeq && cells[k].lastSeq < dstart
    ensures k + 1 < |cells| && k + 1 != m ==> cells[k + 1].firstSeq == cells[k].lastSeq + 1
    ensures k == 0 < m ==> cells[0].firstSeq == dstart
    ensures k == |cells| - 1 && m <= k ==> cells[k].lastSeq == dstart - 1
    ensures k == m - 1 ==> cells[k].lastSeq == End(endless)
  {
    if k < m {
      var live := cells[..m];
      Splits(live, dstart, End(endless), k);
      CoveringRange(live, dstart, End(endless));
      CoveringRange(live[k + 1..], cells[k].lastSeq + 1, End(endless));
      assert live[k] == cells[k] && (k + 1 < m ==> live[k + 1..][0] == cells[k + 1]);
    } else {
      var tail := cells[m..];
      Splits(tail, cells[m].firstSeq, dstart - 1, k - m);
      CoveringRange(tail, cells[m].firstSeq, dstart - 1);
      CoveringRange(tail[k - m + 1..], cells[k].lastSeq + 1, dstart - 1);
      assert tail[k - m] == cells[k] && (k + 1 < |cells| ==> tail[k - m + 1..][0] == cells[k + 1]);
    }
  }

  lemma Shaped(cells: seq<Cell>, dstart: int, endless: bool, m: int, lo: int)
    requires Shape(cells, dstart, endless, m, lo)
    ensures 0 <= m <= |cells| && cells != [] && 1 <= lo <= dstart <= MAXSEQ
    ensures m == 0 ==> dstart == End(endless) + 1
    ensures 0 < m ==> dstart <= End(endless)
  {
    StartBound(cells, dstart, endless, m, lo);
    CoveringRange(cells[..m], dstart, End(endless));
    if m > 0 { CellAt(cells, dstart, endless, m, lo, 0); }
  }

  /** No two cells cover the same number. */
  lemma {:induction false} Apart(cells: seq<Cell>, dstart: int, endless: bool, m: int, lo: int, j: int, k: int)
    requires Shape(cells, dstart, endless, m, lo) && 0 <= j < k < |cells|
    ensures k < m || m <= j ==> cells[j].lastSeq < cells[k].firstSeq
    ensures j < m <= k ==> cells[k].lastSeq < cells[j].firstSeq
    decreases k - j
  {
    hide Shape;
    CellAt(cells, dstart, endless, m, lo, j);
    CellAt(cells, dstart, endless, m, lo, k);
    if j + 1 == k {
    } else {
      Apart(cells, dstart, endless, m, lo, j + 1, k);
      CellAt(cells, dstart, endless, m, lo, j + 1);
    }
  }

  // ----- lists on which a pass does nothing

  /** The pass does nothing between the two. */
  predicate Still(c: Cell, d: Cell, dstart: int, strict: bool) {
    !NeighboursMerge(c, d) && !MayAbsorb(c, d, dstart, strict)
  }

  ghost predicate StillUpTo(cells: seq<Cell>, j: int, dstart: int, strict: bool) {
    forall k | 0 <= k < j && k + 1 < |cells| :: Still(cells[k], cells[k + 1], dstart, strict)
  }

  lemma {:induction false} PassSkips(cells: seq<Cell>, i: int, j: int, dstart: int, strict: bool)
    requires 0 <= i <= j < |cells|
    requires forall k | i <= k < j :: Still(cells[k], cells[k + 1], dstart, strict)
    ensures Pass(cells, i, dstart, strict) == Pass(cells, j, dstart, strict)
    decreases j - i
  {
    if i == j {
    } else {
      hide Still, NeighboursMerge, MayAbsorb;
      StillMeans(cells[i], cells[i + 1], dstart, strict);
      assert JoinRun(cells, i) == Some(cells);
      assert TakeRoom(cells, i, dstart, strict) == Some((cells, false));
      PassSkips(cells, i + 1, j, dstart, strict);
    }
  }

  lemma StillMeans(c: Cell, d: Cell, dstart: int, strict: bool)
    requires Still(c, d, dstart, strict)
    ensures !NeighboursMerge(c, d) && !MayAbsorb(c, d, dstart, strict)
  {
  }

  lemma PassIdle(cells: seq<Cell>, dstart: int, strict: bool)
    requires cells != [] && StillUpTo(cells, |cells|, dstart, strict)
    ensures Pass(cells, 0, dstart, strict) == Some((cells, false))
  {
    PassSkips(cells, 0, |cells| - 1, dstart, strict);
  }

  /** Neighbours of different kinds. */
  predicate Differ(c: Cell, d: Cell) {
    c.filled != d.filled
  }

  lemma StillDiffers(cells: seq<Cell>, dstart: int, endless: bool, m: int, lo: int, strict: bool, k: int)
    requires Shape(cells, dstart, endless, m, lo) && 0 <= k && k + 1 < |cells| && k + 1 != m
    ensures Still(cells[k], cells[k + 1], dstart, strict) <==> Differ(cells[k], cells[k + 1])
  {
    CellAt(cells, dstart, endless, m, lo, k);
  }

  // ----- after a pass nothing is left to do

  lemma MergeStays(cells: seq<Cell>, i: int, last: int, dstart: int, strict: bool)
    requires 0 <= i && i + 1 < |cells| && StillUpTo(cells, i, dstart, strict)
    requires cells[i].filled == cells[i + 1].filled
    ensures StillUpTo(MergeAt(cells, i, last), i, dstart, strict)
    ensures |MergeAt(cells, i, last)| == |cells| - 1
    ensures MergeAt(cells, i, last)[i] == Merged(cells[i], cells[i + 1], last)
    ensures forall k | 0 <= k < i :: MergeAt(cells, i, last)[k] == cells[k]
    ensures forall k | i < k < |cells| - 1 :: MergeAt(cells, i, last)[k] == cells[k + 1]
  {
    var after := MergeAt(cells, i, last);
    forall k | 0 <= k < |cells| - 1
      ensures after[k] == if k < i then cells[k] else if k == i then Merged(cells[i], cells[i + 1], last) else cells[k + 1]
    {
      MergeAtIndex(cells, i, last, k);
    }
    forall k | 0 <= k < i && k + 1 < |after|
      ensures Still(after[k], after[k + 1], dstart, strict)
    {
      assert Still(cells[k], cells[k + 1], dstart, strict);
    }
  }

  lemma {:induction false} JoinStays(cells: seq<Cell>, i: int, dstart: int, strict: bool)
    requires 0 <= i < |cells| && StillUpTo(cells, i, dstart, strict) && JoinRun(cells, i).Some?
    ensures StillUpTo(JoinRun(cells, i).value, i, dstart, strict)
    decreases |cells|
  {
    hide StillUpTo;
    if !NeighboursMerge(cells[i], cells[Succ(i, |cells|)]) {
    } else {
      MergeStays(cells, i, cells[i + 1].lastSeq, dstart, strict);
      JoinStays(MergeAt(cells, i, cells[i + 1].lastSeq), i, dstart, strict);
    }
  }

  lemma {:induction false} TakeStays(cells: seq<Cell>, i: int, dstart: int, endless: bool, m: int, lo: int, strict: bool)
    requires Shape(cells, dstart, endless, m, lo)
    requires 0 <= i < |cells| && StillUpTo(cells, i, dstart, strict) && TakeRoom(cells, i, dstart, strict).Some?
    requires !NeighboursMerge(cells[i], cells[Succ(i, |cells|)])
    ensures var r := TakeRoom(cells, i, dstart, strict).value.0;
      StillUpTo(r, i + 1, dstart, strict)
    decreases |cells|
  {
    hide Shape;
    Shaped(cells, dstart, endless, m, lo);
    if !MayAbsorb(cells[i], cells[Succ(i, |cells|)], dstart, strict) {
    } else {
      AbsorbsAtSeam(cells, i, dstart, endless, m, lo, strict);
      AbsorbKeepsShape(cells, dstart, endless, m, lo, strict);
      var after := MergeAt(cells, i, MAXSEQ);
      hide StillUpTo;
      MergeStays(cells, i, MAXSEQ, dstart, strict);
      AbsorbedApart(after, dstart, m, lo);
      TakeStays(after, i, dstart, true, m, lo, strict);
    }
  }

  lemma AbsorbedApart(cells: seq<Cell>, dstart: int, m: int, lo: int)
    requires Shape(cells, dstart, true, m, lo) && m > 0
    ensures !NeighboursMerge(cells[m - 1], cells[Succ(m - 1, |cells|)])
  {
    hide Shape;
    Shaped(cells, dstart, true, m, lo);
    CellAt(cells, dstart, true, m, lo, m - 1);
    CellAt(cells, dstart, true, m, lo, 0);
    if m < |cells| { SeamApart(cells, dstart, true, m, lo); }
  }

  lemma {:induction false} PassStills(cells: seq<Cell>, i: int, dstart: int, endless: bool, m: int, lo: int, strict: bool)
    requires Shape(cells, dstart, endless, m, lo)
    requires 0 <= i < |cells| && StillUpTo(cells, i, dstart, strict) && Pass(cells, i, dstart, strict).Some?
    ensures var r := Pass(cells, i, dstart, strict).value.0;
      StillUpTo(r, |r|, dstart, strict)
    decreases |cells|, |cells| - i
  {
    hide Shape;
    Shaped(cells, dstart, endless, m, lo);
    if i + 1 == |cells| {
    } else {
      var joined := JoinRun(cells, i).value;
      var k := JoinKeepsShape(cells, i, dstart, endless, m, lo);
      JoinStays(cells, i, dstart, strict);
      TakeStays(joined, i, dstart, endless, k, lo, strict);
      TakeKeepsShape(joined, i, dstart, endless, k, lo, strict);
      var (taken, merged) := TakeRoom(joined, i, dstart, strict).value;
      if i + 1 == |taken| {
        AllStill(taken, i, dstart, strict);
      }
      PassStills(taken, Succ(i, |taken|), dstart, endless || merged, k, lo, strict);
    }
  }

  lemma AllStill(cells: seq<Cell>, i: int, dstart: int, strict: bool)
    requires i + 1 == |cells| && StillUpTo(cells, i + 1, dstart, strict)
    ensures StillUpTo(cells, 0, dstart, strict)
  {
  }

  // ----- passes that end because nothing in the freed room joins

  ghost predicate TailDiffers(cells: seq<Cell>, m: int) {
    forall k | 0 <= m <= k && k + 1 < |cells| :: Differ(cells[k], cells[k + 1])
  }

  /** A live node and its successor: it joins only a live one, and takes room only at the seam. */
  lemma LiveStep(cells: seq<Cell>, i: int, dstart: int, endless: bool, m: int, lo: int, strict: bool)
    requires Shape(cells, dstart, endless, m, lo) && 0 <= i < |cells| && 0 < m && TailDiffers(cells, m)
    requires i + 1 < |cells| || i < m
    ensures NeighboursMerge(cells[i], cells[Succ(i, |cells|)]) ==> i + 1 < m
    ensures MayAbsorb(cells[i], cells[Succ(i, |cells|)], dstart, strict) && !NeighboursMerge(cells[i], cells[Succ(i, |cells|)])
      ==> i == m - 1 && m < |cells|
  {
    hide Shape;
    Shaped(cells, dstart, endless, m, lo);
    CellAt(cells, dstart, endless, m, lo, i);
    CellAt(cells, dstart, endless, m, lo, 0);
    if i + 1 < |cells| {
      if i + 1 == m { SeamApart(cells, dstart, endless, m, lo); }
      if MayAbsorb(cells[i], cells[i + 1], dstart, strict) && !NeighboursMerge(cells[i], cells[i + 1]) {
        AbsorbsAtSeam(cells, i, dstart, endless, m, lo, strict);
      }
    }
  }

  lemma {:induction false} JoinEnds(cells: seq<Cell>, i: int, dstart: int, endless: bool, m: int, lo: int, strict: bool) returns (k: int)
    requires Shape(cells, dstart, endless, m, lo) && 0 <= i < |cells| && 0 < m && TailDiffers(cells, m)
    requires i + 1 < |cells| || i < m
    ensures JoinRun(cells, i).Some?
    ensures var r := JoinRun(cells, i).value;
      && Shape(r, dstart, endless, k, lo) && 0 < k && TailDiffers(r, k)
      && (i + 1 < |r| || i < k)
      && !NeighboursMerge(r[i], r[Succ(i, |r|)])
    decreases |cells|
  {
    hide Shape;
    LiveStep(cells, i, dstart, endless, m, lo, strict);
    Shaped(cells, dstart, endless, m, lo);
    if !NeighboursMerge(cells[i], cells[Succ(i, |cells|)]) {
      k := m;
    } else {
      var after := MergeAt(cells, i, cells[i + 1].lastSeq);
      MergeInLive(cells, i, dstart, endless, m, lo);
      k := JoinEnds(after, i, dstart, endless, m - 1, lo, strict);
    }
  }

  lemma MergeInLive(cells: seq<Cell>, i: int, dstart: int, endless: bool, m: int, lo: int)
    requires Shape(cells, dstart, endless, m, lo) && dstart <= MAXSEQ && TailDiffers(cells, m)
    requires 0 <= i && i + 1 < m && NeighboursMerge(cells[i], cells[i + 1])
    ensures var after := MergeAt(cells, i, cells[i + 1].lastSeq);
      |after| == |cells| - 1 && Shape(after, dstart, endless, m - 1, lo) && TailDiffers(after, m - 1)
  {
    var last := cells[i + 1].lastSeq;
    var after := MergeAt(cells, i, last);
    MergeAtParts(cells, i, last, m);
    MergedEnds(cells, i, last);
    MergeCovers(cells[..m], dstart, End(endless), i);
    forall k | m - 1 <= k && k + 1 < |after|
      ensures Differ(after[k], after[k + 1])
    {
      assert after[m - 1..][k - (m - 1)] == cells[m..][k - (m - 1)] && after[m - 1..][k - m + 2] == cells[m..][k - m + 2];
      assert Differ(cells[k + 1], cells[k + 2]);
    }
    hide Covering, MergeAt;
  }

  lemma {:induction false} TakeEnds(cells: seq<Cell>, i: int, dstart: int, endless: bool, m: int, lo: int, strict: bool)
    requires Shape(cells, dstart, endless, m, lo) && 0 <= i < |cells| && 0 < m && TailDiffers(cells, m)
    requires i + 1 < |cells| || i < m
    requires !NeighboursMerge(cells[i], cells[Succ(i, |cells|)])
    ensures TakeRoom(cells, i, dstart, strict).Some?
    ensures var (r, merged) := TakeRoom(cells, i, dstart, strict).value;
      Shape(r, dstart, endless || merged, m, lo) && TailDiffers(r, m)
    decreases |cells|
  {
    hide Shape;
    LiveStep(cells, i, dstart, endless, m, lo, strict);
    if !MayAbsorb(cells[i], cells[Succ(i, |cells|)], dstart, strict) {
    } else {
      Shaped(cells, dstart, endless, m, lo);
      AbsorbKeepsShape(cells, dstart, endless, m, lo, strict);
      var after := MergeAt(cells, i, MAXSEQ);
      MergeStaysTail(cells, m);
      AbsorbedApart(after, dstart, m, lo);
      TakeEnds(after, i, dstart, true, m, lo, strict);
    }
  }

  lemma MergeStaysTail(cells: seq<Cell>, m: int)
    requires 0 < m < |cells| && TailDiffers(cells, m)
    ensures TailDiffers(MergeAt(cells, m - 1, MAXSEQ), m)
  {
    var after := MergeAt(cells, m - 1, MAXSEQ);
    forall k | m <= k && k + 1 < |after|
      ensures Differ(after[k], after[k + 1])
    {
      MergeAtIndex(cells, m - 1, MAXSEQ, k);
      MergeAtIndex(cells, m - 1, MAXSEQ, k + 1);
      assert Differ(cells[k + 1], cells[k + 1 + 1]);
    }
  }

  /** With something still to be read, and nothing in the freed room that joins, the pass ends. */
  lemma {:induction false} PassEnds(cells: seq<Cell>, i: int, dstart: int, endless: bool, m: int, lo: int, strict: bool)
    requires Shape(cells, dstart, endless, m, lo) && 0 <= i < |cells| && 0 < m && TailDiffers(cells, m)
    ensures Pass(cells, i, dstart, strict).Some?
    decreases |cells|, |cells| - i
  {
    hide Shape, TailDiffers;
    if i + 1 == |cells| {
    } else {
      var k := JoinEnds(cells, i, dstart, endless, m, lo, strict);
      var joined := JoinRun(cells, i).value;
      TakeEnds(joined, i, dstart, endless, k, lo, strict);
      var (taken, merged) := TakeRoom(joined, i, dstart, strict).value;
      PassEnds(taken, Succ(i, |taken|), dstart, endless || merged, k, lo, strict);
    }
  }

  // ----- passes through the freed room

  /** The last two cells join. */
  predicate LastJoin(cells: seq<Cell>) {
    |cells| > 1 && NeighboursMerge(cells[|cells| - 2], cells[|cells| - 1])
  }

  /** Through the freed room the pass does not end if and only if its last cells join and
      are of the head's kind: then they go on to swallow the head. */
  lemma {:induction false} TailEndsExactly(cells: seq<Cell>, i: int, dstart: int, endless: bool, m: int, lo: int, strict: bool)
    requires Shape(cells, dstart, endless, m, lo) && 0 < m <= i < |cells| && StillUpTo(cells, i, dstart, strict)
    ensures Pass(cells, i, dstart, strict).None? <==>
      i + 1 < |cells| && LastJoin(cells) && cells[|cells| - 1].filled == cells[0].filled
    decreases |cells|, |cells| - i
  {
    hide Shape, StillUpTo;
    Shaped(cells, dstart, endless, m, lo);
    if i + 1 == |cells| {
    } else if NeighboursMerge(cells[i], cells[i + 1]) {
      TailMerges(cells, i, dstart, endless, m, lo, strict);
    } else {
      if MayAbsorb(cells[i], cells[i + 1], dstart, strict) {
        AbsorbsAtSeam(cells, i, dstart, endless, m, lo, strict);
      }
      OneMoreStill(cells, i, dstart, strict);
      assert JoinRun(cells, i) == Some(cells);
      assert TakeRoom(cells, i, dstart, strict) == Some((cells, false));
      TailEndsExactly(cells, i + 1, dstart, endless, m, lo, strict);
    }
  }

  lemma OneMoreStill(cells: seq<Cell>, i: int, dstart: int, strict: bool)
    requires 0 <= i && i + 1 < |cells| && StillUpTo(cells, i, dstart, strict)
    requires !NeighboursMerge(cells[i], cells[i + 1]) && !MayAbsorb(cells[i], cells[i + 1], dstart, strict)
    ensures StillUpTo(cells, i + 1, dstart, strict)
  {
  }

  lemma {:induction false} TailMerges(cells: seq<Cell>, i: int, dstart: int, endless: bool, m: int, lo: int, strict: bool)
    requires Shape(cells, dstart, endless, m, lo) && 0 < m <= i && i + 1 < |cells| && StillUpTo(cells, i, dstart, strict)
    requires NeighboursMerge(cells[i], cells[i + 1])
    ensures Pass(cells, i, dstart, strict).None? <==> LastJoin(cells) && cells[|cells| - 1].filled == cells[0].filled
    decreases |cells|, 0
  {
    hide Shape, StillUpTo;
    Shaped(cells, dstart, endless, m, lo);
    var last := cells[i + 1].lastSeq;
    var after := MergeAt(cells, i, last);
    MergeInTail(cells, i, dstart, endless, m, lo);
    MergeStays(cells, i, last, dstart, strict);
    assert JoinRun(cells, i) == JoinRun(after, i);
    hide MergeAt, JoinRun;
    if i + 1 < |after| {
      PassSameStart(cells, after, i, dstart, strict);
      TailEndsExactly(after, i, dstart, endless, m, lo, strict);
      assert after[|after| - 1] == cells[|cells| - 1] && after[0] == cells[0];
      assert LastJoin(after) <==> LastJoin(cells);
    } else {
      LastSwallows(after, i, dstart, endless, m, lo, strict);
      PassAtLast(cells, after, i, dstart, strict);
    }
  }

  /** The last cell of the freed room, looking on to the head. */
  lemma LastSwallows(cells: seq<Cell>, i: int, dstart: int, endless: bool, m: int, lo: int, strict: bool)
    requires Shape(cells, dstart, endless, m, lo) && 0 < m <= i == |cells| - 1 && StillUpTo(cells, i, dstart, strict)
    ensures JoinRun(cells, i) == (if cells[i].filled == cells[0].filled then None else Some(cells))
    ensures TakeRoom(cells, i, dstart, strict) == Some((cells, false))
    ensures Pass(cells, 0, dstart, strict) == Some((cells, false))
  {
    CellAt(cells, dstart, endless, m, lo, i);
    CellAt(cells, dstart, endless, m, lo, 0);
    hide Shape;
    assert Succ(i, |cells|) == 0;
    assert NeighboursMerge(cells[i], cells[0]) <==> cells[i].filled == cells[0].filled;
    WholeStill(cells, i, dstart, strict);
    PassIdle(cells, dstart, strict);
  }

  lemma PassAtLast(cells: seq<Cell>, after: seq<Cell>, i: int, dstart: int, strict: bool)
    requires 0 <= i && i + 1 == |after| && i + 1 < |cells| && JoinRun(cells, i) == JoinRun(after, i)
    requires JoinRun(after, i).Some? ==> JoinRun(after, i).value == after
    requires TakeRoom(after, i, dstart, strict) == Some((after, false)) && Pass(after, 0, dstart, strict).Some?
    ensures Pass(cells, i, dstart, strict).None? <==> JoinRun(after, i).None?
  {
  }

  lemma WholeStill(cells: seq<Cell>, i: int, dstart: int, strict: bool)
    requires i + 1 == |cells| && StillUpTo(cells, i, dstart, strict)
    ensures StillUpTo(cells, |cells|, dstart, strict)
  {
  }

  /** Passes that start with the same run go the same way. */
  lemma PassSameStart(cells: seq<Cell>, after: seq<Cell>, i: int, dstart: int, strict: bool)
    requires 0 <= i && i + 1 < |cells| && i + 1 < |after| && JoinRun(cells, i) == JoinRun(after, i)
    ensures Pass(cells, i, dstart, strict) == Pass(after, i, dstart, strict)
  {
  }

  lemma MergeInTail(cells: seq<Cell>, i: int, dstart: int, endless: bool, m: int, lo: int)
    requires Shape(cells, dstart, endless, m, lo) && dstart <= MAXSEQ
    requires m <= i && i + 1 < |cells| && NeighboursMerge(cells[i], cells[i + 1])
    ensures Shape(MergeAt(cells, i, cells[i + 1].lastSeq), dstart, endless, m, lo)
  {
    var last := cells[i + 1].lastSeq;
    hide Covering, MergeAt;
    MergeAtParts(cells, i, last, m);
    MergedEnds(cells, i, last);
    MergeCovers(cells[m..], cells[m].firstSeq, dstart - 1, i - m);
  }

  // ----- passes through freed room alone

  /** No two holes are neighbours. */
  ghost predicate NoHoles(cells: seq<Cell>) {
    forall k | 0 <= k && k + 1 < |cells| :: cells[k].filled || cells[k + 1].filled
  }

  lemma {:induction false} ZeroJoins(cells: seq<Cell>, i: int, dstart: int, endless: bool, lo: int)
    requires Shape(cells, dstart, endless, 0, lo) && 0 <= i < |cells| && NoHoles(cells)
    requires i + 1 < |cells| || cells[i].filled
    ensures JoinRun(cells, i).Some?
    ensures var r := JoinRun(cells, i).value;
      && Shape(r, dstart, endless, 0, lo) && NoHoles(r)
      && (i + 1 < |r| || r[i].filled)
    decreases |cells|
  {
    hide Shape;
    Shaped(cells, dstart, endless, 0, lo);
    CellAt(cells, dstart, endless, 0, lo, 0);
    if !NeighboursMerge(cells[i], cells[Succ(i, |cells|)]) {
    } else if i + 1 < |cells| {
      var last := cells[i + 1].lastSeq;
      MergeInTail(cells, i, dstart, endless, 0, lo);
      MergedEnds(cells, i, last);
      MergedNoHoles(cells, i, last);
      ZeroJoins(MergeAt(cells, i, last), i, dstart, endless, lo);
    } else {
      CellAt(cells, dstart, endless, 0, lo, i);
    }
  }

  lemma MergedNoHoles(cells: seq<Cell>, i: int, last: int)
    requires 0 <= i && i + 1 < |cells| && NoHoles(cells) && cells[i].filled == cells[i + 1].filled
    ensures cells[i].filled && NoHoles(MergeAt(cells, i, last))
    ensures i < |MergeAt(cells, i, last)| && MergeAt(cells, i, last)[i].filled
  {
    MergedEnds(cells, i, last);
    var after := MergeAt(cells, i, last);
    hide MergeAt;
    assert cells[i].filled;
    forall k | 0 <= k && k + 1 < |after|
      ensures after[k].filled || after[k + 1].filled
    {
      assert k + 1 <= i ==> cells[k].filled || cells[k + 1].filled;
      assert k > i ==> cells[k + 1].filled || cells[k + 1 + 1].filled;
    }
  }

  /** With nothing left to be read, and no two holes neighbours, the pass ends. */
  lemma {:induction false} ZeroEnds(cells: seq<Cell>, i: int, dstart: int, endless: bool, lo: int, strict: bool)
    requires Shape(cells, dstart, endless, 0, lo) && 0 <= i < |cells| && NoHoles(cells)
    ensures Pass(cells, i, dstart, strict).Some?
    decreases |cells|, |cells| - i
  {
    hide Shape;
    if i + 1 == |cells| {
    } else {
      ZeroJoins(cells, i, dstart, endless, lo);
      var joined := JoinRun(cells, i).value;
      assert !MayAbsorb(joined[i], joined[Succ(i, |joined|)], dstart, strict);
      assert TakeRoom(joined, i, dstart, strict) == Some((joined, false));
      ZeroEnds(joined, Succ(i, |joined|), dstart, endless, lo, strict);
    }
  }
}
