/** Lines of the two buffers that are modelled repaired, as they are written: inputs on which
    they go wrong, and exactly when they do not. */
module AsWritten {
  import opened Parameters
  import opened ReassemblyCells
  import FreedRoom

  // ----- the sender's indices (cbuffer.c:212-270, 283-292)

  datatype Indices = Indices(dstart: int, dend: int, isEmpty: bool)

  /** cbuffer.c:212-232. */
  function SpaceLeft(ix: Indices): int {
    if ix.dend < ix.dstart then ix.dstart - ix.dend
    else if ix.dstart < ix.dend then CAP - (ix.dend - ix.dstart)
    else if ix.isEmpty then CAP
    else 0
  }

  /** What spaceLeft leaves in the indices (cbuffer.c:214-223). */
  function Looked(ix: Indices): Indices {
    if ix.dend == ix.dstart then ix else ix.(isEmpty := false)
  }

  /** cbuffer.c:250-262, without the reduction at :253. */
  function Add(ix: Indices, size: int): Indices {
    ix.(dend := if CAP - ix.dend >= size then ix.dend + size else size - (CAP - ix.dend), isEmpty := false)
  }

  /** cbuffer.c:283-292. */
  function Release(ix: Indices, size: int, last: bool): Indices {
    ix.(dstart := (ix.dstart + size) % CAP, isEmpty := last || ix.isEmpty)
  }

  /** What the indices stand for; `dend` may be CAP, which stands for 0. */
  ghost predicate Stands(ix: Indices, released: int, added: int) {
    && 0 <= released <= added <= released + CAP
    && ix.dstart == released % CAP
    && 0 <= ix.dend <= CAP && ix.dend % CAP == added % CAP
    && (ix.dend == ix.dstart ==> (ix.isEmpty <==> added == released))
  }

  lemma AddStands(ix: Indices, released: int, added: int, size: int)
    requires Stands(ix, released, added) && 1 <= size <= CAP - (added - released)
    ensures Stands(Add(ix, size), released, added + size)
    ensures Add(ix, size).dend == CAP <==> ix.dend + size == CAP || (ix.dend == CAP && size == CAP)
  {
    ModAdd(ix.dend, added, size);
    ModAdd(ix.dend + size - CAP, ix.dend + size, 0);
  }

  lemma SameIndex(low: int, high: int)
    requires low <= high < low + CAP
    ensures low % CAP == high % CAP <==> low == high
  {
  }

  lemma ReleaseStands(ix: Indices, released: int, added: int, size: int, last: bool)
    requires Stands(ix, released, added) && 1 <= size <= added - released
    requires released + size == added ==> last
    ensures Stands(Release(ix, size, last), released + size, added)
  {
    ModAdd(ix.dstart, released, size);
    SameIndex(released + size, added);
  }

  /** The free space is right except when everything is released with `dend` left at the
      ring's end by an exact fit. */
  lemma SpaceLawExactly(ix: Indices, released: int, added: int)
    requires Stands(ix, released, added)
    ensures SpaceLeft(ix) == CAP - (added - released) <==> !(ix.dend == CAP && added == released)
    ensures ix.dend == CAP && added == released ==> SpaceLeft(ix) == 0
  {
    var held := added - released;
    assert added % CAP == (released % CAP + held) % CAP;
  }

  /** The indices with the bytes ever released and ever added. */
  datatype Ring = Ring(ix: Indices, released: int, added: int)

  /** A chunk is offered, or the front packet is released; `last` when no node is behind it,
      which is so at least when nothing more is held. */
  datatype Turn = Offered(size: int) | Released(size: int, last: bool)

  predicate Allowed(r: Ring, t: Turn) {
    match t
    case Offered(size) => 1 <= size
    case Released(size, last) => 1 <= size <= r.added - r.released && (r.released + size == r.added ==> last)
  }

  function Turned(r: Ring, t: Turn): Ring {
    match t
    case Offered(size) =>
      if size <= SpaceLeft(r.ix) then Ring(Add(Looked(r.ix), size), r.released, r.added + size) else r.(ix := Looked(r.ix))
    case Released(size, last) => Ring(Looked(Release(r.ix, size, last)), r.released + size, r.added)
  }

  function After(turns: seq<Turn>): Ring
    decreases |turns|
  {
    if turns == [] then Ring(Indices(0, 0, true), 0, 0)
    else Turned(After(turns[..|turns| - 1]), turns[|turns| - 1])
  }

  ghost predicate AllAllowed(turns: seq<Turn>) {
    forall k | 0 <= k < |turns| :: Allowed(After(turns[..k]), turns[k])
  }

  lemma TurnStands(r: Ring, t: Turn)
    requires Stands(r.ix, r.released, r.added) && Allowed(r, t)
    ensures var u := Turned(r, t);
      Stands(u.ix, u.released, u.added)
  {
    match t
    case Offered(size) =>
      SpaceLawExactly(r.ix, r.released, r.added);
      assert Stands(Looked(r.ix), r.released, r.added);
      hide Stands, SpaceLeft, Add;
      if size <= SpaceLeft(r.ix) {
        AddStands(Looked(r.ix), r.released, r.added, size);
      }
    case Released(size, last) =>
      ReleaseStands(r.ix, r.released, r.added, size, last);
      hide Release;
  }

  /** After any offers and releases the indices stand for what is held, and the free space is
      wrong exactly when all of it is released and the last chunk taken ended the ring. */
  lemma {:induction false} SpaceAfterExactly(turns: seq<Turn>)
    requires AllAllowed(turns)
    ensures var r := After(turns);
      && Stands(r.ix, r.released, r.added)
      && (SpaceLeft(r.ix) == CAP - (r.added - r.released) <==> !(r.ix.dend == CAP && r.added == r.released))
    decreases |turns|
  {
    if turns == [] {
    } else {
      var before := turns[..|turns| - 1];
      forall k | 0 <= k < |before|
        ensures Allowed(After(before[..k]), before[k])
      {
        assert before[..k] == turns[..k];
      }
      SpaceAfterExactly(before);
      hide Stands, Allowed, Turned, SpaceLeft;
      assert turns[..|turns| - 1] == before && Allowed(After(before), turns[|turns| - 1]);
      TurnStands(After(before), turns[|turns| - 1]);
      SpaceLawExactly(After(turns).ix, After(turns).released, After(turns).added);
    }
  }

  /** Chunks of a full packet, each released before the next is offered. */
  function Rounds(k: nat): seq<Turn> {
    if k == 0 then [] else Rounds(k - 1) + [Offered(PKT), Released(PKT, true)]
  }

  /** What k rounds lead to. */
  function Led(k: nat): Ring {
    Ring(Indices(k * PKT % CAP, k * PKT, k < BLOCKS), k * PKT, k * PKT)
  }

  lemma RoundLeads(k: nat)
    requires 1 <= k <= BLOCKS
    ensures Allowed(Led(k - 1), Offered(PKT)) && Allowed(Turned(Led(k - 1), Offered(PKT)), Released(PKT, true))
    ensures Turned(Turned(Led(k - 1), Offered(PKT)), Released(PKT, true)) == Led(k)
  {
    var d := (k - 1) * PKT;
    assert d % CAP == d;
    assert Turned(Led(k - 1), Offered(PKT)) == Ring(Indices(d, d + PKT, false), d, d + PKT);
  }

  lemma AllowedOn(turns: seq<Turn>, t: Turn)
    requires AllAllowed(turns) && Allowed(After(turns), t)
    ensures AllAllowed(turns + [t]) && After(turns + [t]) == Turned(After(turns), t)
  {
    hide Allowed, Turned;
    assert (turns + [t])[..|turns|] == turns;
    forall k | 0 <= k < |turns + [t]|
      ensures Allowed(After((turns + [t])[..k]), (turns + [t])[k])
    {
      if k < |turns| {
        assert (turns + [t])[..k] == turns[..k];
      }
    }
  }

  lemma {:induction false} RoundsLead(k: nat)
    requires k <= BLOCKS
    ensures AllAllowed(Rounds(k)) && After(Rounds(k)) == Led(k)
    decreases k
  {
    hide AllAllowed, Allowed, Turned, After, Led;
    if k == 0 {
      NoRounds();
    } else {
      RoundsLead(k - 1);
      RoundLeads(k);
      AllowedOn(Rounds(k - 1), Offered(PKT));
      AllowedOn(Rounds(k - 1) + [Offered(PKT)], Released(PKT, true));
      assert Rounds(k - 1) + [Offered(PKT)] + [Released(PKT, true)] == Rounds(k);
    }
  }

  lemma NoRounds()
    ensures AllAllowed([]) && After([]) == Led(0)
  {
  }

  lemma LedSpace(k: nat)
    requires k <= BLOCKS
    ensures Led(k).added == Led(k).released == k * PKT
    ensures SpaceLeft(Led(k).ix) == if k < BLOCKS then CAP else 0
  {
    if k < BLOCKS {
      assert k * PKT < CAP;
      assert k * PKT % CAP == k * PKT;
    }
  }

  /** The first sixty-three rounds leave all the room; after the sixty-fourth the empty ring
      reads as full, and the window is laid over bytes that were released long ago. */
  lemma EmptyReadsAsFull(k: nat)
    requires k <= BLOCKS
    ensures AllAllowed(Rounds(k)) && After(Rounds(k)).added == After(Rounds(k)).released == k * PKT
    ensures SpaceLeft(After(Rounds(k)).ix) == if k < BLOCKS then CAP else 0
  {
    LedSpace(k);
    hide AllAllowed, After, Rounds, Led, SpaceLeft;
    RoundsLead(k);
  }

  /** An empty chunk marks an empty ring as full (cbuffer.c:262), and does no harm
      otherwise. */
  lemma EmptyChunkExactly(ix: Indices, released: int, added: int)
    requires Stands(ix, released, added)
    ensures SpaceLeft(Add(ix, 0)) == CAP - (added - released) <==> added != released
  {
    SpaceLawExactly(ix, released, added);
  }

  /** An empty chunk into an empty ring: it reads as full. */
  lemma EmptyChunkFills()
    ensures Stands(Indices(0, 0, true), 0, 0)
    ensures Add(Indices(0, 0, true), 0) == Indices(0, 0, false)
    ensures SpaceLeft(Indices(0, 0, false)) == 0
  {
  }

  // ----- the receiver's holes

  /** sbuffer.c:162-186: the hole is kept only if bytes are left, and its offset is not
      reduced. */
  function FrontPieces(hole: Cell, s: int): seq<Cell> {
    if PKT < hole.size then
      [Packet(s, hole.data), Cell(s + 1, hole.lastSeq, hole.data + PKT, hole.size - PKT, false)]
    else
      [Packet(s, hole.data)]
  }

  /** A packet at the front of a hole leaves a proper list unless it takes the last room
      of the open hole, which then is gone, or the rest would start beyond the ring. */
  lemma FrontPiecesExactly(hole: Cell, s: int, dstart: int)
    requires Fits(hole, s, dstart) && hole.firstSeq == s
    ensures Replaces(FrontPieces(hole, s), hole, dstart) <==>
      (if PKT < hole.size then hole.data + PKT <= CAP else hole.lastSeq != MAXSEQ)
  {
    var pieces := FrontPieces(hole, s);
    var rest := hole.data + PKT;
    assert PlacedAt(hole.data, s);
    WrappedPlaced(hole.data, s, s + 1);
    assert rest <= CAP ==> Wrapped(rest) == rest;
    if PKT < hole.size {
      assert Closed(pieces[0], 0, dstart);
      assert pieces[1].data == rest;
      assert Replaces(pieces, hole, dstart) ==> Placed(pieces[1], 0);
    } else {
      assert |pieces| == 1 && pieces[0].filled;
    }
  }

  /** The whole ring filled in order: the last packet closes the open hole for good. */
  lemma ExactFitLosesTheHole()
    ensures var hole := Cell(64, MAXSEQ, 63000, 1000, false);
      && Fits(hole, 64, 1)
      && FrontPieces(hole, 64) == [Packet(64, 63000)]
      && !Replaces(FrontPieces(hole, 64), hole, 1)
  {
    var hole := Cell(64, MAXSEQ, 63000, 1000, false);
    FrontPiecesExactly(hole, 64, 1);
  }

  /** Packets 64, then 65, at the front of the open hole while others are read: the rest
      starts a packet beyond the ring, and the copy of packet 66 has a negative length. */
  lemma OffsetLeavesTheRing()
    ensures var hole := Cell(65, MAXSEQ, 64000, 60000, false);
      && Fits(hole, 65, 61)
      && FrontPieces(hole, 65)[1].data == 65000
      && CAP - FrontPieces(hole, 65)[1].data < 0
  {
  }

  /** In the pass right after a read the open hole takes the freed room back exactly when
      something is still in front of it. With the open hole at the head the room is left
      until an arrival puts something there. */
  lemma AbsorbsExactly(cells: seq<Cell>, dstart: int, off: int)
    requires ListOk(cells, dstart, off, true)
    ensures FreedRoom.MayAbsorb(cells[|cells| - 2], cells[|cells| - 1], dstart, true) <==> |cells| > 2
  {
    var m := |cells| - 1;
    var body := cells[..m];
    assert Open(body[m - 1], dstart, cells[m].size);
    if m > 1 {
      FirstsAscend(body, dstart, off, cells[m].size, 0, m - 1);
      assert Closed(body[0], Served(0, off), dstart);
    }
  }

  // ----- the receiver's reads

  /** The lengths of the two copies at sbuffer.c:341-350, which test the node's size and
      not the requested one. */
  function PartCopies(data: int, nodeSize: int, size: int): (int, int) {
    if nodeSize + data > CAP then (CAP - data, size - (CAP - data)) else (size, 0)
  }

  /** The lengths of the two copies at sbuffer.c:316-325. */
  function WholeCopies(data: int, nodeSize: int): (int, int) {
    if nodeSize + data > CAP then (CAP - data, nodeSize - (CAP - data)) else (nodeSize, 0)
  }

  predicate Lengths(copies: (int, int)) {
    copies.0 >= 0 && copies.1 >= 0
  }

  /** A partial read copies what was asked for unless the node wraps and the bytes asked
      for do not reach the ring's end, or an earlier read has left the ring. */
  lemma PartCopiesExactly(data: int, nodeSize: int, size: int)
    requires 0 <= size < nodeSize
    ensures Lengths(PartCopies(data, nodeSize, size)) <==> (nodeSize + data <= CAP || CAP - size <= data <= CAP)
    ensures PartCopies(data, nodeSize, size).0 + PartCopies(data, nodeSize, size).1 == size
  {
  }

  /** A whole read copies the node unless an earlier read has left the ring. */
  lemma WholeCopiesExactly(data: int, nodeSize: int)
    requires 0 <= nodeSize
    ensures Lengths(WholeCopies(data, nodeSize)) <==> data <= CAP
    ensures WholeCopies(data, nodeSize).0 + WholeCopies(data, nodeSize).1 == nodeSize
  {
  }

  /** What happens to the front block before it is read to its end: a part is read, or
      packets arrive that continue it. */
  datatype Change = Part(size: int) | Grown(size: int)

  /** With `data` moved on as at sbuffer.c:353: whether every copy has a length, that of the
      rest included. */
  predicate ReadsRight(data: int, nodeSize: int, changes: seq<Change>)
    decreases |changes|
  {
    if changes == [] then Lengths(WholeCopies(data, nodeSize))
    else
      match changes[0]
      case Part(n) => Lengths(PartCopies(data, nodeSize, n)) && ReadsRight(data + n, nodeSize - n, changes[1..])
      case Grown(n) => ReadsRight(data, nodeSize + n, changes[1..])
  }

  function TotalRead(changes: seq<Change>): int
    decreases |changes|
  {
    if changes == [] then 0 else (if changes[0].Part? then changes[0].size else 0) + TotalRead(changes[1..])
  }

  function TotalGrown(changes: seq<Change>): int
    decreases |changes|
  {
    if changes == [] then 0 else (if changes[0].Grown? then changes[0].size else 0) + TotalGrown(changes[1..])
  }

  /** Every part is shorter than the block then is. */
  predicate PartsOnly(nodeSize: int, changes: seq<Change>)
    decreases |changes|
  {
    changes == [] ||
    match changes[0]
    case Part(n) => 0 < n < nodeSize && PartsOnly(nodeSize - n, changes[1..])
    case Grown(n) => 0 < n && PartsOnly(nodeSize + n, changes[1..])
  }

  /** A part taken while the block wraps ends where the ring does. */
  ghost predicate MeetsTheEnd(data: int, nodeSize: int, changes: seq<Change>, k: int)
    requires 0 <= k < |changes|
  {
    changes[k].Part? && data + nodeSize + TotalGrown(changes[..k]) > CAP ==> data + TotalRead(changes[..k]) + changes[k].size == CAP
  }

  /** Once beyond the ring's end no block is read right to its end. */
  lemma {:induction false} OutsideNeverRight(data: int, nodeSize: int, changes: seq<Change>)
    requires data > CAP && nodeSize > 0 && PartsOnly(nodeSize, changes)
    ensures !ReadsRight(data, nodeSize, changes)
    decreases |changes|
  {
    if changes == [] {
    } else {
      match changes[0]
      case Part(n) =>
      case Grown(n) => OutsideNeverRight(data, nodeSize + n, changes[1..]);
    }
  }

  lemma MeetsLater(data: int, nodeSize: int, changes: seq<Change>, k: int)
    requires 0 < k < |changes|
    ensures var n := changes[0].size;
      MeetsTheEnd(data, nodeSize, changes, k) <==>
        if changes[0].Part? then MeetsTheEnd(data + n, nodeSize - n, changes[1..], k - 1)
        else MeetsTheEnd(data, nodeSize + n, changes[1..], k - 1)
  {
    assert changes[..k][1..] == changes[1..][..k - 1];
  }

  /** A block read in any parts and then to its end, growing in between, is copied right if
      and only if each part taken while the block wraps ends at the ring's end - so there is
      at most one of these. */
  lemma {:induction false} ReadsExactly(data: int, nodeSize: int, changes: seq<Change>)
    requires 0 <= data <= CAP && nodeSize > 0 && PartsOnly(nodeSize, changes)
    ensures ReadsRight(data, nodeSize, changes) <==>
      forall k | 0 <= k < |changes| :: MeetsTheEnd(data, nodeSize, changes, k)
    decreases |changes|
  {
    if changes == [] {
    } else {
      var n, rest := changes[0].size, changes[1..];
      assert changes[..0] == [];
      forall k | 0 < k < |changes|
        ensures MeetsTheEnd(data, nodeSize, changes, k) <==>
          if changes[0].Part? then MeetsTheEnd(data + n, nodeSize - n, rest, k - 1) else MeetsTheEnd(data, nodeSize + n, rest, k - 1)
      {
        MeetsLater(data, nodeSize, changes, k);
      }
      if changes[0].Grown? {
        ReadsExactly(data, nodeSize + n, rest);
        Shifted(data, nodeSize + n, data, nodeSize, changes);
      } else if data + n <= CAP {
        ReadsExactly(data + n, nodeSize - n, rest);
        Shifted(data + n, nodeSize - n, data, nodeSize, changes);
      } else {
        OutsideNeverRight(data + n, nodeSize - n, rest);
        assert !MeetsTheEnd(data, nodeSize, changes, 0);
      }
    }
  }

  lemma Shifted(data: int, nodeSize: int, data0: int, nodeSize0: int, changes: seq<Change>)
    requires changes != []
    requires forall k | 0 < k < |changes| ::
      MeetsTheEnd(data0, nodeSize0, changes, k) <==> MeetsTheEnd(data, nodeSize, changes[1..], k - 1)
    ensures (forall k | 0 <= k < |changes| :: MeetsTheEnd(data0, nodeSize0, changes, k)) <==>
      (MeetsTheEnd(data0, nodeSize0, changes, 0) && forall k | 0 <= k < |changes[1..]| :: MeetsTheEnd(data, nodeSize, changes[1..], k))
  {
    hide MeetsTheEnd;
    forall k | 0 <= k < |changes[1..]|
      ensures MeetsTheEnd(data0, nodeSize0, changes, k + 1) <==> MeetsTheEnd(data, nodeSize, changes[1..], k)
    {
    }
  }

  /** 25 bytes, the size the server application asks for, from a block of two packets that
      wraps: 1000 bytes are copied, then a negative number. */
  lemma ShortReadOverruns()
    ensures PartCopies(63000, 2000, 25) == (1000, -975)
  {
  }

  /** 1500 bytes of the same block go right and leave `data` at 64500; then neither 100
      bytes nor the remaining 500 do. */
  lemma DataLeavesTheRing()
    ensures Lengths(PartCopies(63000, 2000, 1500))
    ensures PartCopies(64500, 500, 100) == (-500, 600)
    ensures WholeCopies(64500, 500) == (-500, 1000)
    ensures !ReadsRight(63000, 2000, [Part(1500)])
  {
    assert [Part(1500)][..0] == [];
    assert !MeetsTheEnd(63000, 2000, [Part(1500)], 0);
    ReadsExactly(63000, 2000, [Part(1500)]);
  }

  /** A packet that ends the ring is read in two parts. With nothing in between that goes
      right; if the next packet arrives after the first part, the second has a negative
      length. */
  lemma GrowthMakesItWrap()
    ensures ReadsRight(63000, 1000, [Part(25), Part(25)])
    ensures !ReadsRight(63000, 1000, [Part(25), Grown(1000), Part(25)])
    ensures PartCopies(63025, 1975, 25) == (975, -950)
  {
    var changes := [Part(25), Grown(1000), Part(25)];
    assert PartsOnly(1000, [Part(25), Part(25)]);
    assert changes[1..] == [Grown(1000), Part(25)] && changes[1..][1..] == [Part(25)];
    assert [Part(25), Part(25)][1..] == [Part(25)];
  }

  /** sbuffer.c:328 gives back what is left of the front node: all of its room exactly when
      nothing of it was served before. */
  lemma GivesBackExactly(cells: seq<Cell>, dstart: int, off: int)
    requires Tiles(cells, dstart, off, 0) && cells[0].filled
    ensures cells[0].size == (cells[0].lastSeq - cells[0].firstSeq + 1) * PKT <==> off == 0
  {
    HeadSize(cells, dstart, off);
  }

  /** A packet read in two parts, 25 bytes and then the rest: 25 bytes of room are gone. */
  lemma PartReadLosesRoom()
    ensures var cells := [Cell(1, 1, 0, 1000, true), Cell(2, MAXSEQ, 1000, 63000, false)];
      && Tiles(cells, 1, 0, 0)
      && Tiles(Nibble(cells, 25), 1, 25, 0)
      && Nibble(cells, 25)[0].size + cells[1].size == CAP - 25
  {
  }
}
