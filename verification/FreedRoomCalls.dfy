/** Which reads and arrivals come to an end. */
module FreedRoomCalls {
  import opened FreedRoom
  import opened FreedRoomPasses
  import opened Parameters
  import opened ReassemblyCells
  import opened Wrappers

  /** A list between calls: in shape, and a pass does nothing to it. */
  ghost predicate Rests(l: List, m: int, lo: int) {
    && Shape(l.cells, l.dstart, l.endless, m, lo)
    && StillUpTo(l.cells, |l.cells|, l.dstart, l.strict)
  }

  lemma RestDiffers(l: List, m: int, lo: int, k: int)
    requires Rests(l, m, lo) && 0 <= k && k + 1 < |l.cells| && k + 1 != m
    ensures Differ(l.cells[k], l.cells[k + 1])
  {
    StillDiffers(l.cells, l.dstart, l.endless, m, lo, l.strict, k);
  }

  lemma RestTail(l: List, m: int, lo: int)
    requires Rests(l, m, lo)
    ensures TailDiffers(l.cells, m)
  {
    forall k | m <= k && k + 1 < |l.cells|
      ensures Differ(l.cells[k], l.cells[k + 1])
    {
      RestDiffers(l, m, lo, k);
    }
  }

  lemma MergeRests(l: List, m: int, lo: int) returns (k: int)
    requires Shape(l.cells, l.dstart, l.endless, m, lo) && Merge(l).Some?
    ensures Rests(Merge(l).value, k, lo)
  {
    Shaped(l.cells, l.dstart, l.endless, m, lo);
    hide Shape;
    k := PassKeepsShape(l.cells, 0, l.dstart, l.endless, m, lo, l.strict);
    PassStills(l.cells, 0, l.dstart, l.endless, m, lo, l.strict);
  }

  lemma MergeIdle(l: List, m: int, lo: int)
    requires Rests(l, m, lo)
    ensures l.cells != [] && Merge(l) == Some(l)
  {
    PassIdle(l.cells, l.dstart, l.strict);
  }

  // ----- reads

  /** The freed room ends with a hole, and behind the front block there is a hole. */
  predicate RoomJoins(l: List)
    requires l.cells != []
  {
    var last := l.cells[|l.cells| - 1];
    |l.cells| > 1 && !last.filled && last.lastSeq == l.dstart - 1 && !l.cells[1].filled
  }

  /** A read takes the whole front block, and its room would join both. */
  predicate ReadHangs(l: List, n: nat)
    requires l.cells != []
  {
    l.cells[0].filled && l.cells[0].firstSeq == l.dstart && l.cells[0].size <= n && RoomJoins(l)
  }

  lemma RetireAt(cells: seq<Cell>)
    requires cells != []
    ensures var after, n := Retire(cells), |cells|;
      && |after| == n
      && (forall k | 0 <= k < n - 1 :: after[k] == cells[k + 1])
      && !after[n - 1].filled && after[n - 1].firstSeq == cells[0].firstSeq && after[n - 1].lastSeq == cells[0].lastSeq
  {
  }

  /** After the front block is retired, everything but its room is as still as before. */
  lemma RetireStill(l: List, m: int, lo: int, k: int)
    requires Rests(l, m, lo) && l.cells[0].filled && l.cells[0].firstSeq == l.dstart
    requires 0 <= k && k + 2 < |l.cells|
    ensures Still(l.cells[k + 1], l.cells[k + 2], l.cells[0].lastSeq + 1, l.strict)
  {
    hide Shape;
    CellAt(l.cells, l.dstart, l.endless, m, lo, k + 1);
    CellAt(l.cells, l.dstart, l.endless, m, lo, k + 2);
    assert Still(l.cells[k + 1], l.cells[k + 1 + 1], l.dstart, l.strict);
    if k + 2 == m {
      CellAt(l.cells, l.dstart, l.endless, m, lo, 0);
      Apart(l.cells, l.dstart, l.endless, m, lo, 0, k + 1);
    } else {
      RestDiffers(l, m, lo, k + 1);
    }
  }

  lemma RetiredTail(l: List, m: int, lo: int)
    requires Rests(l, m, lo) && l.cells[0].filled && l.cells[0].firstSeq == l.dstart && m > 0
    requires m == |l.cells| || l.cells[|l.cells| - 1].filled
    ensures TailDiffers(Retire(l.cells), m - 1)
  {
    var after, n := Retire(l.cells), |l.cells|;
    hide Retire, Shape;
    RetireAt(l.cells);
    forall k | m - 1 <= k && k + 1 < n
      ensures Differ(after[k], after[k + 1])
    {
      if k + 2 < n { RestDiffers(l, m, lo, k + 1); }
    }
  }

  lemma RetiredNoHoles(l: List, lo: int)
    requires Rests(l, 1, lo) && l.cells[|l.cells| - 1].filled
    ensures NoHoles(Retire(l.cells))
  {
    var after, n := Retire(l.cells), |l.cells|;
    hide Retire, Shape;
    RetireAt(l.cells);
    forall k | 0 <= k && k + 1 < n
      ensures after[k].filled || after[k + 1].filled
    {
      if k + 2 < n { RestDiffers(l, 1, lo, k + 1); }
    }
  }

  /** Only freed room is left, and its last two cells are holes that join. */
  lemma OnlyFreed(cells: seq<Cell>, dstart: int, endless: bool, lo: int, strict: bool)
    requires Shape(cells, dstart, endless, 0, lo) && |cells| > 1 && StillUpTo(cells, |cells| - 2, dstart, strict)
    requires !cells[|cells| - 2].filled && !cells[|cells| - 1].filled
    ensures Pass(cells, |cells| - 2, dstart, strict).None? <==> !cells[0].filled
  {
    var i := |cells| - 2;
    Shaped(cells, dstart, endless, 0, lo);
    CellAt(cells, dstart, endless, 0, lo, i);
    var last := cells[i + 1].lastSeq;
    var after := MergeAt(cells, i, last);
    MergeInTail(cells, i, dstart, endless, 0, lo);
    MergeStays(cells, i, last, dstart, strict);
    CellAt(after, dstart, endless, 0, lo, i);
    CellAt(after, dstart, endless, 0, lo, 0);
    hide Shape, MergeAt, StillUpTo;
    assert Succ(i, |after|) == 0 && after[0].filled == cells[0].filled;
    assert JoinRun(after, i) == Some(after);
    assert JoinRun(cells, i) == Some(after);
    assert MayAbsorb(after[i], after[0], dstart, strict) <==> !after[0].filled;
    if cells[0].filled {
      WholeStill(after, i, dstart, strict);
      PassIdle(after, dstart, strict);
    }
  }

  /** No freed room, or it ends with stored packets: nothing joins the block's room. */
  lemma ReadEndsApart(l: List, m: int, lo: int)
    requires Rests(l, m, lo) && l.cells[0].filled && l.cells[0].firstSeq == l.dstart
    requires m == |l.cells| || l.cells[|l.cells| - 1].filled
    ensures Pass(Retire(l.cells), 0, l.cells[0].lastSeq + 1, l.strict).Some?
  {
    var after, d := Retire(l.cells), l.cells[0].lastSeq + 1;
    RetireKeepsShape(l.cells, l.dstart, l.endless, m, lo);
    RetiredTail(l, m, lo);
    if m > 1 {
      hide Shape, Retire;
      PassEnds(after, 0, d, l.endless, m - 1, lo, l.strict);
    } else if |l.cells| > 1 {
      RetiredNoHoles(l, lo);
      hide Shape, Retire;
      ZeroEnds(after, 0, d, l.endless, lo, l.strict);
    }
  }

  /** The freed room ends with two holes, and nothing else joins. */
  lemma HolesAtEnd(cells: seq<Cell>, dstart: int, endless: bool, m: int, lo: int, strict: bool)
    requires Shape(cells, dstart, endless, m, lo) && m + 2 <= |cells| && StillUpTo(cells, |cells| - 2, dstart, strict)
    requires !cells[|cells| - 2].filled && !cells[|cells| - 1].filled
    ensures Pass(cells, 0, dstart, strict).None? <==> !cells[0].filled
  {
    var n := |cells|;
    CellAt(cells, dstart, endless, m, lo, n - 2);
    hide Shape, Pass;
    if m > 0 {
      StillLess(cells, m, n - 2, dstart, strict);
      PassSkips(cells, 0, m, dstart, strict);
      TailEndsExactly(cells, m, dstart, endless, m, lo, strict);
    } else {
      PassSkips(cells, 0, n - 2, dstart, strict);
      OnlyFreed(cells, dstart, endless, lo, strict);
    }
  }

  lemma StillLess(cells: seq<Cell>, i: int, j: int, dstart: int, strict: bool)
    requires 0 <= i <= j <= |cells| && StillUpTo(cells, j, dstart, strict)
    ensures StillUpTo(cells, i, dstart, strict)
  {
  }

  lemma ReadEndsJoined(l: List, m: int, lo: int)
    requires Rests(l, m, lo) && l.cells[0].filled && l.cells[0].firstSeq == l.dstart
    requires m < |l.cells| && !l.cells[|l.cells| - 1].filled
    ensures Pass(Retire(l.cells), 0, l.cells[0].lastSeq + 1, l.strict).None? <==> !l.cells[1].filled
  {
    var after, d, n := Retire(l.cells), l.cells[0].lastSeq + 1, |l.cells|;
    RetireKeepsShape(l.cells, l.dstart, l.endless, m, lo);
    hide Shape, Retire, Rests, Pass;
    RetireAt(l.cells);
    forall k | 0 <= k < n - 2
      ensures Still(after[k], after[k + 1], d, l.strict)
    {
      RetireStill(l, m, lo, k);
    }
    HolesAtEnd(after, d, l.endless, m - 1, lo, l.strict);
  }

  lemma ReadEnds(l: List, m: int, lo: int)
    requires Rests(l, m, lo) && l.cells[0].filled && l.cells[0].firstSeq == l.dstart
    ensures Pass(Retire(l.cells), 0, l.cells[0].lastSeq + 1, l.strict).None? <==> RoomJoins(l)
  {
    hide Pass, Retire, StillUpTo;
    Shaped(l.cells, l.dstart, l.endless, m, lo);
    CellAt(l.cells, l.dstart, l.endless, m, lo, |l.cells| - 1);
    if m == |l.cells| || l.cells[|l.cells| - 1].filled {
      ReadEndsApart(l, m, lo);
    } else {
      ReadEndsJoined(l, m, lo);
    }
  }

  /** A read does not end if and only if it takes the whole front block and the block's room
      joins a hole at the end of the freed room while a hole follows the block. */
  lemma ReadEndsExactly(l: List, m: int, lo: int, n: nat)
    requires Rests(l, m, lo)
    ensures l.cells != [] && (Read(l, n).None? <==> ReadHangs(l, n))
  {
    if l.cells[0].filled && l.cells[0].firstSeq == l.dstart {
      ReadEnds(l, m, lo);
    }
  }

  // ----- arrivals

  /** A packet already read, in front of it all a block still to be read: it fills the last
      gap of the freed room, and there is a stored packet next to it. */
  predicate AddHangs(l: List, s: int)
    requires l.cells != []
  {
    var n := |l.cells|;
    var last := l.cells[n - 1];
    && n > 1 && l.cells[0].filled && l.cells[0].firstSeq == l.dstart && last.lastSeq == l.dstart - 1
    && if last.filled then l.cells[n - 2].lastSeq == s == last.firstSeq - 1
       else last.firstSeq == s == last.lastSeq && l.cells[n - 2].lastSeq == s - 1
  }

  lemma TakesCovered(c: Cell, s: int)
    requires Sized(c) && c.firstSeq <= c.lastSeq && !c.filled
    ensures Takes(c, s) <==> Covers(c, s)
  {
  }

  lemma {:induction false} ScanNone(cells: seq<Cell>, i: int, s: int, dstart: int)
    requires 0 <= i <= |cells| && s <= dstart + 63
    requires forall k | i <= k < |cells| :: !Covers(cells[k], s) || (cells[k].filled && cells[k].firstSeq != s)
    requires forall k | i <= k < |cells| :: cells[k].firstSeq <= cells[k].lastSeq
    ensures Scan(cells, i, s, dstart) == Nowhere
    decreases |cells| - i
  {
    if i == |cells| {
    } else {
      ScanNone(cells, i + 1, s, dstart);
    }
  }

  /** What becomes of a packet that cell j covers. */
  lemma {:induction false} ScanAt(l: List, m: int, lo: int, i: int, j: int, s: int)
    requires Rests(l, m, lo) && 0 <= i <= j < |l.cells| && Covers(l.cells[j], s) && s <= l.dstart + 63
    ensures Scan(l.cells, i, s, l.dstart)
      == if !l.cells[j].filled then Stored(Splice(l.cells, j, Pieces(l.cells[j], s)))
         else if l.cells[j].firstSeq == s then Duplicate
         else Nowhere
    decreases j - i
  {
    hide Shape, StillUpTo, Pieces, Splice;
    CellAt(l.cells, l.dstart, l.endless, m, lo, i);
    if i < j {
      Apart(l.cells, l.dstart, l.endless, m, lo, i, j);
      ScanAt(l, m, lo, i + 1, j, s);
    } else if !l.cells[j].filled {
      TakesCovered(l.cells[j], s);
    } else if l.cells[j].firstSeq != s {
      forall k | i < k < |l.cells|
        ensures !Covers(l.cells[k], s) && l.cells[k].firstSeq <= l.cells[k].lastSeq
      {
        CellAt(l.cells, l.dstart, l.endless, m, lo, k);
        Apart(l.cells, l.dstart, l.endless, m, lo, j, k);
      }
      ScanNone(l.cells, i + 1, s, l.dstart);
    }
  }

  lemma {:induction false} StoredAt(cells: seq<Cell>, j: int, s: int, dstart: int) returns (k: int)
    requires 0 <= j <= |cells| && Scan(cells, j, s, dstart).Stored?
    ensures j <= k < |cells| && !cells[k].filled && Takes(cells[k], s)
    ensures Scan(cells, j, s, dstart) == Stored(Splice(cells, k, Pieces(cells[k], s)))
    decreases |cells| - j
  {
    if !cells[j].filled && Takes(cells[j], s) {
      k := j;
    } else {
      k := StoredAt(cells, j + 1, s, dstart);
    }
  }

  /** The pieces alternate, and where the packet is at an end of the hole the piece is it. */
  lemma PiecesKinds(hole: Cell, s: int)
    requires !hole.filled && Covers(hole, s) && Sized(hole) && s < MAXSEQ
    ensures var pieces, p := Pieces(hole, s), |Pieces(hole, s)|;
      && p > 0
      && (forall k | 0 <= k && k + 1 < p :: Differ(pieces[k], pieces[k + 1]))
      && pieces[0].firstSeq == hole.firstSeq && pieces[p - 1].lastSeq == hole.lastSeq
      && (pieces[0].filled <==> hole.firstSeq == s)
      && (pieces[p - 1].filled <==> hole.lastSeq == s)
      && (p == 1 <==> hole.firstSeq == s == hole.lastSeq)
  {
    hide Wrapped;
  }

  /** What is behind the pieces goes on alternating. */
  lemma TailGoesOn(cells: seq<Cell>, j: int, pieces: seq<Cell>, m: int)
    requires 0 <= j < m && j < |cells| && pieces != [] && TailDiffers(cells, m)
    ensures TailDiffers(Splice(cells, j, pieces), m + |pieces| - 1)
  {
    var after, p := Splice(cells, j, pieces), |pieces|;
    SpliceAt(cells, j, pieces);
    hide Splice;
    forall k | m + p - 1 <= k && k + 1 < |after|
      ensures Differ(after[k], after[k + 1])
    {
      var i := k - p + 1;
      assert Differ(cells[i], cells[i + 1]);
      assert after[k] == cells[i] && after[k + 1] == cells[i + 1];
    }
  }

  lemma AddEndsFront(l: List, m: int, lo: int, j: int, s: int)
    requires Rests(l, m, lo) && s < MAXSEQ && 0 <= j < m && !l.cells[j].filled && Takes(l.cells[j], s)
    ensures Splice(l.cells, j, Pieces(l.cells[j], s)) != []
    ensures Pass(Splice(l.cells, j, Pieces(l.cells[j], s)), 0, l.dstart, l.strict).Some?
  {
    assert j < |l.cells|;
    hide Pieces, Shape, StillUpTo, Splice, Takes, TailDiffers, Pass;
    var pieces := Pieces(l.cells[j], s);
    StoreInFront(l.cells, j, s, l.dstart, l.endless, m, lo);
    CellAt(l.cells, l.dstart, l.endless, m, lo, j);
    TakesCovered(l.cells[j], s);
    PiecesKinds(l.cells[j], s);
    RestTail(l, m, lo);
    TailGoesOn(l.cells, j, pieces, m);
    SpliceAt(l.cells, j, pieces);
    PassEnds(Splice(l.cells, j, pieces), 0, l.dstart, l.endless, m + |pieces| - 1, lo, l.strict);
  }

  /** Kinds go on alternating in freed room around the pieces, but for the packet and its
      neighbours. */
  lemma AddEndsZero(l: List, lo: int, j: int, s: int)
    requires Rests(l, 0, lo) && s < MAXSEQ && 0 <= j < |l.cells| && !l.cells[j].filled && Takes(l.cells[j], s)
    ensures Splice(l.cells, j, Pieces(l.cells[j], s)) != []
    ensures Pass(Splice(l.cells, j, Pieces(l.cells[j], s)), 0, l.dstart, l.strict).Some?
  {
    var pieces := Pieces(l.cells[j], s);
    var after, p := Splice(l.cells, j, pieces), |pieces|;
    StoreBehind(l.cells, j, s, l.dstart, l.endless, 0, lo);
    CellAt(l.cells, l.dstart, l.endless, 0, lo, j);
    PiecesKinds(l.cells[j], s);
    RestTail(l, 0, lo);
    hide Pieces, Shape, StillUpTo, Splice;
    SpliceAt(l.cells, j, pieces);
    forall k | 0 <= k && k + 1 < |after|
      ensures after[k].filled || after[k + 1].filled
    {
      if k + 1 <= j {
        assert Differ(l.cells[k], l.cells[k + 1]);
      } else if k < j + p - 1 {
        assert Differ(pieces[k - j], pieces[k - j + 1]);
      } else {
        assert Differ(l.cells[k - p + 1], l.cells[k - p + 1 + 1]);
      }
    }
    ZeroEnds(after, 0, l.dstart, l.endless, lo, l.strict);
  }

  lemma BehindStill(l: List, m: int, lo: int, j: int, s: int)
    requires Rests(l, m, lo) && s < MAXSEQ && 0 < m <= j < |l.cells| && !l.cells[j].filled && Takes(l.cells[j], s)
    ensures StillUpTo(Splice(l.cells, j, Pieces(l.cells[j], s)), m, l.dstart, l.strict)
  {
    var pieces := Pieces(l.cells[j], s);
    var after := Splice(l.cells, j, pieces);
    CellAt(l.cells, l.dstart, l.endless, m, lo, j);
    PiecesKinds(l.cells[j], s);
    hide Pieces, Shape, Splice;
    SpliceAt(l.cells, j, pieces);
    forall k | 0 <= k < m && k + 1 < |after|
      ensures Still(after[k], after[k + 1], l.dstart, l.strict)
    {
      assert Still(l.cells[k], l.cells[k + 1], l.dstart, l.strict);
      if k + 1 == j {
        CellAt(l.cells, l.dstart, l.endless, m, lo, k);
        SeamApart(l.cells, l.dstart, l.endless, m, lo);
      }
    }
  }

  /** After freed room gives way to pieces the last two cells join, and are of the head's kind. */
  ghost predicate EndJoins(l: List, m: int, j: int, pieces: seq<Cell>)
    requires 0 < m <= j < |l.cells| && pieces != []
  {
    var after := Splice(l.cells, j, pieces);
    m + 1 < |after| && LastJoin(after) && after[|after| - 1].filled == l.cells[0].filled
  }

  lemma LastFills(l: List, m: int, lo: int, s: int)
    requires Rests(l, m, lo) && s < MAXSEQ && 0 < m < |l.cells|
    requires var hole := l.cells[|l.cells| - 1]; !hole.filled && Takes(hole, s)
    ensures Pieces(l.cells[|l.cells| - 1], s) != []
    ensures EndJoins(l, m, |l.cells| - 1, Pieces(l.cells[|l.cells| - 1], s)) <==> AddHangs(l, s)
  {
    var n, hole, pieces := |l.cells|, l.cells[|l.cells| - 1], Pieces(l.cells[|l.cells| - 1], s);
    var p := |pieces|;
    CellAt(l.cells, l.dstart, l.endless, m, lo, n - 1);
    CellAt(l.cells, l.dstart, l.endless, m, lo, 0);
    Shaped(l.cells, l.dstart, l.endless, m, lo);
    TakesCovered(hole, s);
    PiecesKinds(hole, s);
    hide Pieces, Shape, Takes, StillUpTo;
    SpliceAt(l.cells, n - 1, pieces);
    hide Splice;
    if p == 1 {
      BehindAlone(l, m, lo, s);
    } else {
      assert Differ(pieces[p - 2], pieces[p - 2 + 1]);
    }
  }

  lemma NextFills(l: List, m: int, lo: int, s: int)
    requires Rests(l, m, lo) && s < MAXSEQ && 0 < m && m + 1 < |l.cells|
    requires var hole := l.cells[|l.cells| - 2]; !hole.filled && Takes(hole, s)
    ensures Pieces(l.cells[|l.cells| - 2], s) != []
    ensures EndJoins(l, m, |l.cells| - 2, Pieces(l.cells[|l.cells| - 2], s)) <==> AddHangs(l, s)
  {
    var n, hole, pieces := |l.cells|, l.cells[|l.cells| - 2], Pieces(l.cells[|l.cells| - 2], s);
    CellAt(l.cells, l.dstart, l.endless, m, lo, n - 2);
    CellAt(l.cells, l.dstart, l.endless, m, lo, n - 1);
    CellAt(l.cells, l.dstart, l.endless, m, lo, 0);
    Shaped(l.cells, l.dstart, l.endless, m, lo);
    TakesCovered(hole, s);
    PiecesKinds(hole, s);
    RestDiffers(l, m, lo, n - 2);
    hide Pieces, Shape, Takes, StillUpTo;
    SpliceAt(l.cells, n - 2, pieces);
    hide Splice;
  }

  /** Behind the pieces the last two cells are as before. */
  lemma FarEnd(l: List, m: int, j: int, pieces: seq<Cell>)
    requires 0 < m <= j && j + 2 < |l.cells| && pieces != []
    requires Differ(l.cells[|l.cells| - 2], l.cells[|l.cells| - 1])
    ensures !EndJoins(l, m, j, pieces)
  {
    SpliceAt(l.cells, j, pieces);
    hide Splice;
  }

  lemma FarFromEnd(l: List, m: int, lo: int, j: int, s: int)
    requires Rests(l, m, lo) && 0 < m <= j && j + 2 < |l.cells| && Covers(l.cells[j], s)
    ensures !AddHangs(l, s)
  {
    var n := |l.cells|;
    hide Shape, StillUpTo;
    CellAt(l.cells, l.dstart, l.endless, m, lo, n - 2);
    CellAt(l.cells, l.dstart, l.endless, m, lo, n - 1);
    Apart(l.cells, l.dstart, l.endless, m, lo, j, n - 2);
    Apart(l.cells, l.dstart, l.endless, m, lo, j, n - 1);
  }

  lemma FarFills(l: List, m: int, lo: int, j: int, s: int)
    requires Rests(l, m, lo) && s < MAXSEQ && 0 < m <= j && j + 2 < |l.cells| && !l.cells[j].filled && Takes(l.cells[j], s)
    ensures Pieces(l.cells[j], s) != []
    ensures !EndJoins(l, m, j, Pieces(l.cells[j], s)) && !AddHangs(l, s)
  {
    hide Pieces, Shape, Takes, StillUpTo, EndJoins, AddHangs;
    CellAt(l.cells, l.dstart, l.endless, m, lo, j);
    TakesCovered(l.cells[j], s);
    PiecesKinds(l.cells[j], s);
    RestDiffers(l, m, lo, |l.cells| - 2);
    FarEnd(l, m, j, Pieces(l.cells[j], s));
    FarFromEnd(l, m, lo, j, s);
  }

  lemma BehindJoins(l: List, m: int, lo: int, j: int, s: int)
    requires Rests(l, m, lo) && s < MAXSEQ && 0 < m <= j < |l.cells| && !l.cells[j].filled && Takes(l.cells[j], s)
    ensures var pieces := Pieces(l.cells[j], s);
      && pieces != [] && Splice(l.cells, j, pieces) != [] && Splice(l.cells, j, pieces)[0] == l.cells[0]
      && (EndJoins(l, m, j, pieces) <==> AddHangs(l, s))
  {
    hide Shape, StillUpTo, EndJoins, AddHangs;
    if j == |l.cells| - 1 {
      LastFills(l, m, lo, s);
    } else if j == |l.cells| - 2 {
      NextFills(l, m, lo, s);
    } else {
      FarFills(l, m, lo, j, s);
    }
  }

  /** The last cell is a hole for this packet alone. */
  lemma BehindAlone(l: List, m: int, lo: int, s: int)
    requires Rests(l, m, lo) && 0 < m < |l.cells|
    requires var last := l.cells[|l.cells| - 1]; !last.filled && last.firstSeq == s == last.lastSeq == l.dstart - 1
    ensures m + 1 < |l.cells| ==> l.cells[|l.cells| - 2].filled && l.cells[|l.cells| - 2].lastSeq == s - 1
    ensures m + 1 == |l.cells| ==> l.cells[|l.cells| - 2].lastSeq != s - 1
  {
    hide Shape;
    CellAt(l.cells, l.dstart, l.endless, m, lo, |l.cells| - 2);
    if m + 1 < |l.cells| {
      RestDiffers(l, m, lo, |l.cells| - 2);
    }
  }

  /** An arrival does not end if and only if it is a packet already read that closes the
      last gap of the freed room next to a stored one, with a block in front to be read. */
  lemma AddEndsExactly(l: List, m: int, lo: int, s: int)
    requires Rests(l, m, lo) && s < MAXSEQ
    ensures l.cells != [] && (AddData(l, s).None? <==> AddHangs(l, s))
  {
    MergeIdle(l, m, lo);
    if Scan(l.cells, 0, s, l.dstart).Stored? {
      var j := StoredAt(l.cells, 0, s, l.dstart);
      StoredEnds(l, m, lo, j, s);
    } else if AddHangs(l, s) {
      HangsStores(l, m, lo, s);
    }
  }

  lemma HangsStores(l: List, m: int, lo: int, s: int)
    requires Rests(l, m, lo) && l.cells != [] && AddHangs(l, s)
    ensures Scan(l.cells, 0, s, l.dstart).Stored?
  {
    var n := |l.cells|;
    CellAt(l.cells, l.dstart, l.endless, m, lo, n - 1);
    CellAt(l.cells, l.dstart, l.endless, m, lo, n - 2);
    Shaped(l.cells, l.dstart, l.endless, m, lo);
    hide Shape, StillUpTo, Scan, Splice, Pieces;
    if l.cells[n - 1].filled {
      RestDiffers(l, m, lo, n - 2);
      ScanAt(l, m, lo, 0, n - 2, s);
    } else {
      ScanAt(l, m, lo, 0, n - 1, s);
    }
  }

  lemma StoredEnds(l: List, m: int, lo: int, j: int, s: int)
    requires Rests(l, m, lo) && s < MAXSEQ && 0 <= j < |l.cells| && !l.cells[j].filled && Takes(l.cells[j], s)
    ensures Splice(l.cells, j, Pieces(l.cells[j], s)) != []
    ensures Pass(Splice(l.cells, j, Pieces(l.cells[j], s)), 0, l.dstart, l.strict).None? <==> AddHangs(l, s)
  {
    Shaped(l.cells, l.dstart, l.endless, m, lo);
    SpliceAt(l.cells, j, Pieces(l.cells[j], s));
    hide Pieces, Pass, Splice, Shape, StillUpTo;
    if j < m {
      AddEndsFront(l, m, lo, j, s);
      NotAhead(l, m, lo, j, s);
    } else if m == 0 {
      AddEndsZero(l, lo, j, s);
      CellAt(l.cells, l.dstart, l.endless, m, lo, 0);
    } else {
      StoreBehind(l.cells, j, s, l.dstart, l.endless, m, lo);
      hide Takes, AddHangs;
      BehindStill(l, m, lo, j, s);
      BehindJoins(l, m, lo, j, s);
      PassTail(Splice(l.cells, j, Pieces(l.cells[j], s)), l.dstart, l.endless, m, lo, l.strict);
    }
  }

  lemma NotAhead(l: List, m: int, lo: int, j: int, s: int)
    requires Rests(l, m, lo) && 0 <= j < m && !l.cells[j].filled && Takes(l.cells[j], s)
    ensures l.cells != [] && !AddHangs(l, s)
  {
    CellAt(l.cells, l.dstart, l.endless, m, lo, j);
    CellAt(l.cells, l.dstart, l.endless, m, lo, |l.cells| - 1);
    TakesCovered(l.cells[j], s);
    hide Shape, StillUpTo, Takes;
  }

  lemma PassTail(cells: seq<Cell>, dstart: int, endless: bool, m: int, lo: int, strict: bool)
    requires Shape(cells, dstart, endless, m, lo) && 0 < m < |cells| && StillUpTo(cells, m, dstart, strict)
    ensures Pass(cells, 0, dstart, strict).None? <==>
      m + 1 < |cells| && LastJoin(cells) && cells[|cells| - 1].filled == cells[0].filled
  {
    hide Shape, Pass, LastJoin;
    PassSkips(cells, 0, m, dstart, strict);
    TailEndsExactly(cells, m, dstart, endless, m, lo, strict);
  }
}
