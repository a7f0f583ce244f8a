/** Whole runs of the list: which calls come to an end, and which packets are refused. */
module FreedRoomRuns {
  import opened FreedRoom
  import opened FreedRoomCalls
  import opened FreedRoomPasses
  import opened Parameters
  import opened ReassemblyCells
  import opened Wrappers

  datatype Event = Arrives(s: int) | Asked(size: nat)

  /** A list between calls, whose freed room starts at lo or later. */
  ghost predicate Fine(l: List, lo: int) {
    exists m :: Rests(l, m, lo)
  }

  lemma AddKeeps(l: List, m: int, lo: int, s: int) returns (k: int)
    requires Rests(l, m, lo) && s < MAXSEQ && l.cells != [] && AddData(l, s).Some?
    ensures Rests(AddData(l, s).value, k, lo)
  {
    MergeIdle(l, m, lo);
    hide Rests, Merge, Pieces, Splice, Takes, Scan;
    k := m;
    if Scan(l.cells, 0, s, l.dstart).Stored? {
      var j := StoredAt(l.cells, 0, s, l.dstart);
      var after := Splice(l.cells, j, Pieces(l.cells[j], s));
      k := StoreKeeps(l, m, lo, j, s);
      k := MergeRests(l.(cells := after), k, lo);
    }
  }

  lemma StoreKeeps(l: List, m: int, lo: int, j: int, s: int) returns (k: int)
    requires Rests(l, m, lo) && s < MAXSEQ && 0 <= j < |l.cells| && !l.cells[j].filled && Takes(l.cells[j], s)
    ensures Shape(Splice(l.cells, j, Pieces(l.cells[j], s)), l.dstart, l.endless, k, lo)
  {
    hide Shape, Pieces, Splice, Takes, StillUpTo;
    if j < m {
      StoreInFront(l.cells, j, s, l.dstart, l.endless, m, lo);
      k := m + |Pieces(l.cells[j], s)| - 1;
    } else {
      StoreBehind(l.cells, j, s, l.dstart, l.endless, m, lo);
      k := m;
    }
  }

  lemma ReadKeeps(l: List, m: int, lo: int, n: nat) returns (k: int)
    requires Rests(l, m, lo) && l.cells != [] && Read(l, n).Some?
    ensures Rests(Read(l, n).value, k, lo)
  {
    var h := l.cells[0];
    k := m;
    if h.filled && h.firstSeq == l.dstart {
      if h.size <= n {
        RetireKeepsShape(l.cells, l.dstart, l.endless, m, lo);
        hide Shape, Retire, Merge, StillUpTo;
        k := MergeRests(l.(cells := Retire(l.cells), dstart := h.lastSeq + 1), m - 1, lo);
      } else {
        NibbleRests(l, m, lo, n);
      }
    }
  }

  lemma NibbleRests(l: List, m: int, lo: int, n: int)
    requires Rests(l, m, lo) && l.cells != [] && l.cells[0].filled
    ensures Rests(l.(cells := Nibble(l.cells, n)), m, lo)
  {
    NibbleKeepsShape(l.cells, l.dstart, l.endless, m, n, lo);
    var after := Nibble(l.cells, n);
    forall k | 0 <= k < |after| && k + 1 < |after|
      ensures Still(after[k], after[k + 1], l.dstart, l.strict)
    {
      assert Still(l.cells[k], l.cells[k + 1], l.dstart, l.strict);
    }
    hide Shape;
  }

  function Call(l: List, e: Event): Option<List>
    requires l.cells != []
  {
    match e
    case Arrives(s) => AddData(l, s)
    case Asked(n) => Read(l, n)
  }

  lemma CallKeeps(l: List, m: int, lo: int, e: Event) returns (k: int)
    requires Rests(l, m, lo) && l.cells != [] && (e.Arrives? ==> e.s < MAXSEQ) && Call(l, e).Some?
    ensures Rests(Call(l, e).value, k, lo)
  {
    hide Rests, AddData, Read;
    match e
    case Arrives(s) => k := AddKeeps(l, m, lo, s);
    case Asked(n) => k := ReadKeeps(l, m, lo, n);
  }

  lemma CallFine(l: List, lo: int, e: Event)
    requires Fine(l, lo) && l.cells != [] && (e.Arrives? ==> e.s < MAXSEQ) && Call(l, e).Some?
    ensures Fine(Call(l, e).value, lo)
  {
    var m :| Rests(l, m, lo);
    hide Rests, Call;
    var k := CallKeeps(l, m, lo, e);
  }

  lemma FineCells(l: List, lo: int)
    requires Fine(l, lo)
    ensures l.cells != []
  {
  }

  ghost function Do(l: List, e: Event): (r: Option<List>)
    requires Fine(l, 1) && (e.Arrives? ==> e.s < MAXSEQ)
    ensures l.cells != [] && r == Call(l, e)
    ensures r.Some? ==> Fine(r.value, 1)
  {
    FineCells(l, 1);
    if Call(l, e).Some? then CallFine(l, 1, e); Call(l, e) else None
  }

  ghost predicate Numbered(events: seq<Event>) {
    forall e | e in events && e.Arrives? :: e.s < MAXSEQ
  }

  lemma FirstIsFine(endless: bool, strict: bool)
    ensures Fine(First(endless, strict), 1)
  {
    var l := First(endless, strict);
    assert l.cells[..1] == l.cells;
    Single(l.cells[0]);
    assert Shape(l.cells, 1, endless, 1, 1);
    assert Rests(l, 1, 1);
  }

  /** The list after the events, if every call has come to an end. The first hole is without
      end or as written, and the guard at sbuffer.c:115 as written or repaired. */
  ghost function After(endless: bool, strict: bool, events: seq<Event>): (l: Option<List>)
    requires Numbered(events)
    ensures l.Some? ==> Fine(l.value, 1)
    decreases |events|
  {
    FirstIsFine(endless, strict);
    if events == [] then Some(First(endless, strict))
    else
      var before := After(endless, strict, events[..|events| - 1]);
      if before.None? then None else Do(before.value, events[|events| - 1])
  }

  // ----- which calls end

  /** In every run, a read does not end if and only if ReadHangs says so of the list. */
  lemma ReadsEndExactly(endless: bool, strict: bool, events: seq<Event>, n: nat)
    requires Numbered(events) && After(endless, strict, events).Some?
    ensures var l := After(endless, strict, events).value;
      l.cells != [] && (Read(l, n).None? <==> ReadHangs(l, n))
  {
    var l := After(endless, strict, events).value;
    var m :| Rests(l, m, 1);
    hide Rests, Read, After;
    ReadEndsExactly(l, m, 1, n);
  }

  /** In every run, an arrival does not end if and only if AddHangs says so of the list. */
  lemma AddsEndExactly(endless: bool, strict: bool, events: seq<Event>, s: int)
    requires Numbered(events) && After(endless, strict, events).Some? && s < MAXSEQ
    ensures var l := After(endless, strict, events).value;
      l.cells != [] && (AddData(l, s).None? <==> AddHangs(l, s))
  {
    var l := After(endless, strict, events).value;
    var m :| Rests(l, m, 1);
    hide Rests, AddData, After;
    AddEndsExactly(l, m, 1, s);
  }

  // ----- which packets of the window are refused

  ghost predicate Held(cells: seq<Cell>, s: int) {
    exists k | 0 <= k < |cells| :: cells[k].filled && Covers(cells[k], s)
  }

  lemma {:induction false} Found(cells: seq<Cell>, lo: int, hi: int, s: int) returns (k: int)
    requires Covering(cells, lo, hi) && lo <= s <= hi
    ensures 0 <= k < |cells| && Covers(cells[k], s)
    decreases |cells|
  {
    if s <= cells[0].lastSeq {
      k := 0;
    } else {
      k := Found(cells[1..], cells[0].lastSeq + 1, hi, s);
      k := k + 1;
    }
  }

  /** What no cell covers is nowhere. */
  lemma Uncovered(l: List, m: int, lo: int, s: int)
    requires Rests(l, m, lo) && s <= l.dstart + 63
    requires forall k | 0 <= k < |l.cells| :: !Covers(l.cells[k], s)
    ensures Scan(l.cells, 0, s, l.dstart) == Nowhere
  {
    hide StillUpTo;
    forall k | 0 <= k < |l.cells|
      ensures l.cells[k].firstSeq <= l.cells[k].lastSeq
    {
      CellAt(l.cells, l.dstart, l.endless, m, lo, k);
    }
    hide Shape;
    ScanNone(l.cells, 0, s, l.dstart);
  }

  lemma WindowRefused(l: List, m: int, lo: int, s: int)
    requires Rests(l, m, lo) && l.dstart <= s < l.dstart + BLOCKS && s < MAXSEQ && !Held(l.cells, s)
    ensures Scan(l.cells, 0, s, l.dstart) == Nowhere <==> s > LAST && !l.endless
    ensures Scan(l.cells, 0, s, l.dstart) == Nowhere || Scan(l.cells, 0, s, l.dstart).Stored?
  {
    if s <= End(l.endless) {
      var k := Found(l.cells[..m], l.dstart, End(l.endless), s);
      assert l.cells[k] == l.cells[..m][k];
      hide Shape, StillUpTo;
      ScanAt(l, m, lo, 0, k, s);
    } else {
      forall k | 0 <= k < |l.cells|
        ensures !Covers(l.cells[k], s)
      {
        CellAt(l.cells, l.dstart, l.endless, m, lo, k);
      }
      Uncovered(l, m, lo, s);
    }
  }

  /** Whatever has arrived and been read, a packet of the window that is not held is
      refused if and only if it is past packet 64 and the last hole still ends there. */
  lemma RefusedExactly(endless: bool, strict: bool, events: seq<Event>, s: int)
    requires Numbered(events) && After(endless, strict, events).Some?
    requires var l := After(endless, strict, events).value;
      l.dstart <= s < l.dstart + BLOCKS && s < MAXSEQ && !Held(l.cells, s)
    ensures var l := After(endless, strict, events).value;
      && (Scan(l.cells, 0, s, l.dstart) == Nowhere <==> s > LAST && !l.endless)
      && (Scan(l.cells, 0, s, l.dstart) == Nowhere || Scan(l.cells, 0, s, l.dstart).Stored?)
  {
    var l := After(endless, strict, events).value;
    var m :| Rests(l, m, 1);
    hide Rests, Scan, After, Held;
    WindowRefused(l, m, 1, s);
  }

  // ----- what becomes of packets already read

  /** The freed room has the packet's number, and it is a hole or the packet starts it. */
  ghost predicate InRoom(l: List, s: int) {
    exists k | 0 <= k < |l.cells| ::
      l.cells[k].lastSeq < l.dstart && Covers(l.cells[k], s) && (l.cells[k].filled ==> l.cells[k].firstSeq == s)
  }

  lemma ServedByRoom(l: List, m: int, lo: int, s: int)
    requires Rests(l, m, lo) && s < l.dstart
    ensures Scan(l.cells, 0, s, l.dstart) != Nowhere <==> InRoom(l, s)
    ensures Scan(l.cells, 0, s, l.dstart) != TooFar
  {
    hide Shape, StillUpTo, Scan;
    if k :| 0 <= k < |l.cells| && Covers(l.cells[k], s) {
      ScanAt(l, m, lo, 0, k, s);
      CellAt(l.cells, l.dstart, l.endless, m, lo, k);
      forall j | 0 <= j < |l.cells| && Covers(l.cells[j], s)
        ensures j == k
      {
        OnlyOne(l, m, lo, j, k, s);
      }
    } else {
      Uncovered(l, m, lo, s);
    }
  }

  lemma OnlyOne(l: List, m: int, lo: int, j: int, k: int, s: int)
    requires Rests(l, m, lo) && 0 <= j < |l.cells| && 0 <= k < |l.cells|
    requires Covers(l.cells[j], s) && Covers(l.cells[k], s)
    ensures j == k
  {
    hide Shape, StillUpTo;
    if j < k {
      Apart(l.cells, l.dstart, l.endless, m, lo, j, k);
    } else if k < j {
      Apart(l.cells, l.dstart, l.endless, m, lo, k, j);
    }
  }

  /** In every run, a packet already read is stored or acknowledged when it comes again if
      and only if its number is still in the freed room, in a hole or first of what is
      stored there. */
  lemma ServedExactly(endless: bool, strict: bool, events: seq<Event>, s: int)
    requires Numbered(events) && After(endless, strict, events).Some? && s < After(endless, strict, events).value.dstart
    ensures var l := After(endless, strict, events).value;
      && (Scan(l.cells, 0, s, l.dstart) != Nowhere <==> InRoom(l, s))
      && Scan(l.cells, 0, s, l.dstart) != TooFar
  {
    var l := After(endless, strict, events).value;
    var m :| Rests(l, m, 1);
    hide Rests, Scan, After, InRoom;
    ServedByRoom(l, m, 1, s);
  }

  ghost predicate Covered(l: List, s: int) {
    exists k | 0 <= k < |l.cells| :: Covers(l.cells[k], s)
  }

  lemma RoomCovers(l: List, m: int, lo: int, s: int)
    requires Rests(l, m, lo) && m < |l.cells| && l.cells[m].firstSeq <= s < l.dstart
    ensures Covered(l, s)
  {
    var k := Found(l.cells[m..], l.cells[m].firstSeq, l.dstart - 1, s);
    assert Covers(l.cells[m + k], s);
  }

  /** Once no cell covers a packet already read, its room does not come back. */
  lemma UncoveredRests(l: List, m: int, s: int)
    requires Rests(l, m, 1) && 1 <= s < l.dstart && !Covered(l, s)
    ensures Rests(l, m, s + 1)
  {
    if m < |l.cells| && l.cells[m].firstSeq <= s {
      RoomCovers(l, m, 1, s);
    }
    hide StillUpTo;
  }

  lemma RestUncovers(l: List, m: int, s: int)
    requires Rests(l, m, s + 1)
    ensures !Covered(l, s) && s < l.dstart
  {
    hide StillUpTo;
    forall k | 0 <= k < |l.cells|
      ensures !Covers(l.cells[k], s)
    {
      CellAt(l.cells, l.dstart, l.endless, m, s + 1, k);
    }
  }

  lemma {:induction false} GoneStays(endless: bool, strict: bool, events: seq<Event>, more: seq<Event>, s: int)
    requires Numbered(events) && Numbered(more) && Numbered(events + more)
    requires After(endless, strict, events).Some? && Fine(After(endless, strict, events).value, s + 1)
    requires After(endless, strict, events + more).Some?
    ensures Fine(After(endless, strict, events + more).value, s + 1)
    decreases |more|
  {
    hide Fine, Call;
    if more == [] {
      assert events + more == events;
    } else {
      var before, e := more[..|more| - 1], more[|more| - 1];
      assert (events + more)[..|events + more| - 1] == events + before;
      assert (events + more)[|events + more| - 1] == e;
      assert Numbered(before) && Numbered(events + before);
      GoneStays(endless, strict, events, before, s);
      var l := After(endless, strict, events + before).value;
      CallFine(l, s + 1, e);
    }
  }

  /** A packet already read whose room is gone is refused ever after. */
  lemma GoneForever(endless: bool, strict: bool, events: seq<Event>, more: seq<Event>, s: int)
    requires Numbered(events) && Numbered(more) && Numbered(events + more)
    requires After(endless, strict, events).Some? && After(endless, strict, events + more).Some?
    requires 1 <= s < After(endless, strict, events).value.dstart && !Covered(After(endless, strict, events).value, s)
    ensures var l := After(endless, strict, events + more).value;
      s < l.dstart && Scan(l.cells, 0, s, l.dstart) == Nowhere
  {
    var l, t := After(endless, strict, events).value, After(endless, strict, events + more).value;
    var m :| Rests(l, m, 1);
    hide After, Rests, Scan;
    UncoveredRests(l, m, s);
    GoneStays(endless, strict, events, more, s);
    var k :| Rests(t, k, s + 1);
    RestUncovers(t, k, s);
    Uncovered(t, k, s + 1, s);
  }

  // ----- inputs

  lemma AfterOne(endless: bool, strict: bool, events: seq<Event>, e: Event, l: List)
    requires Numbered(events) && After(endless, strict, events) == Some(l) && (e.Arrives? ==> e.s < MAXSEQ)
    ensures l.cells != [] && Numbered(events + [e])
    ensures After(endless, strict, events + [e]) == Call(l, e)
  {
    assert (events + [e])[..|events + [e]| - 1] == events;
    hide Do, Fine;
  }

  lemma AfterTwo(endless: bool, strict: bool, events: seq<Event>, e: Event, f: Event, l: List, m: List, n: List)
    requires Numbered(events) && After(endless, strict, events) == Some(l)
    requires (e.Arrives? ==> e.s < MAXSEQ) && (f.Arrives? ==> f.s < MAXSEQ)
    requires l.cells != [] && Call(l, e) == Some(m) && m.cells != [] && Call(m, f) == Some(n)
    ensures Numbered(events + [e, f]) && After(endless, strict, events + [e, f]) == Some(n)
  {
    hide After, Call, Numbered;
    AfterOne(endless, strict, events, e, l);
    AfterOne(endless, strict, events + [e], f, m);
    assert events + [e] + [f] == events + [e, f];
  }

  lemma AddPlain(l: List, s: int, cells: seq<Cell>)
    requires l.cells != [] && StillUpTo(l.cells, |l.cells|, l.dstart, l.strict)
    requires Scan(l.cells, 0, s, l.dstart) == Stored(cells)
    requires cells != [] && StillUpTo(cells, |cells|, l.dstart, l.strict)
    ensures AddData(l, s) == Some(l.(cells := cells))
  {
    PassIdle(l.cells, l.dstart, l.strict);
    PassIdle(cells, l.dstart, l.strict);
    hide Pass, Scan;
  }

  lemma ReadPlain(l: List, n: nat, cells: seq<Cell>)
    requires l.cells != [] && l.cells[0].filled && l.cells[0].firstSeq == l.dstart && l.cells[0].size <= n
    requires cells == Retire(l.cells) && StillUpTo(cells, |cells|, l.cells[0].lastSeq + 1, l.strict)
    ensures Read(l, n) == Some(l.(cells := cells, dstart := l.cells[0].lastSeq + 1))
  {
    PassIdle(cells, l.cells[0].lastSeq + 1, l.strict);
    hide Pass;
  }

  // :115 as written, with either first hole

  /** Packet 1 is read: its room stays behind the first hole. */
  function OneRead(endless: bool): List {
    List([Cell(2, End(endless), 1000, 63000, false), Cell(1, 1, 0, 1000, false)], 2, endless, true)
  }

  const TWO_HELD := List([Cell(2, 2, 1000, 1000, true), Cell(3, MAXSEQ, 2000, 63000, false)], 2, true, true)

  lemma OneHeld(endless: bool, strict: bool)
    ensures AddData(First(endless, strict), 1)
      == Some(First(endless, strict).(cells := [Cell(1, 1, 0, 1000, true), Cell(2, End(endless), 1000, 63000, false)]))
  {
    AddPlain(First(endless, strict), 1, [Cell(1, 1, 0, 1000, true), Cell(2, End(endless), 1000, 63000, false)]);
  }

  lemma ToOneRead(endless: bool)
    ensures Numbered([Arrives(1), Asked(1000)]) && After(endless, true, [Arrives(1), Asked(1000)]) == Some(OneRead(endless))
  {
    var one := List([Cell(1, 1, 0, 1000, true), Cell(2, End(endless), 1000, 63000, false)], 1, endless, true);
    OneHeld(endless, true);
    ReadPlain(one, 1000, OneRead(endless).cells);
    hide AddData, Read;
    AfterOne(endless, true, [], Arrives(1), First(endless, true));
    assert [] + [Arrives(1)] == [Arrives(1)];
    AfterOne(endless, true, [Arrives(1)], Asked(1000), one);
    assert [Arrives(1)] + [Asked(1000)] == [Arrives(1), Asked(1000)];
  }

  lemma ToTwoHeld(endless: bool)
    ensures AddData(OneRead(endless), 2) == Some(TWO_HELD)
  {
    var three := [Cell(2, 2, 1000, 1000, true), Cell(3, End(endless), 2000, 62000, false), Cell(1, 1, 0, 1000, false)];
    var after := TWO_HELD.cells;
    PassIdle(OneRead(endless).cells, 2, true);
    PassIdle(after, 2, true);
    assert Scan(OneRead(endless).cells, 0, 2, 2) == Stored(three);
    assert MergeAt(three, 1, MAXSEQ) == after;
    assert TakeRoom(after, 1, 2, true) == Some((after, false));
    assert TakeRoom(three, 1, 2, true) == Some((after, true));
    assert Pass(after, 1, 2, true) == Some((after, false));
    assert Pass(three, 1, 2, true) == Some((after, true));
    PassSkips(three, 0, 1, 2, true);
  }

  /** With the guard as written: packet 1, come again after it is read, is stored in its own
      freed room until packet 2 arrives, and refused ever after. With the first hole as
      written too, packet 65, in the window once packet 1 is read, is refused until then. */
  lemma Packets65And1(endless: bool)
    ensures var one, two := [Arrives(1), Asked(1000)], [Arrives(1), Asked(1000), Arrives(2)];
      && Numbered(one) && After(endless, true, one) == Some(OneRead(endless))
      && Scan(OneRead(endless).cells, 0, 1, 2).Stored?
      && (Scan(OneRead(endless).cells, 0, 65, 2) == Nowhere <==> !endless)
      && Numbered(two) && After(endless, true, two) == Some(TWO_HELD)
      && Scan(TWO_HELD.cells, 0, 65, 2).Stored? && Scan(TWO_HELD.cells, 0, 1, 2) == Nowhere
      && !Covered(TWO_HELD, 1)
  {
    assert Scan(OneRead(endless).cells, 1, 65, 2) == Nowhere;
    assert Scan(TWO_HELD.cells, 1, 1, 2) == Nowhere;
    assert Scan(OneRead(endless).cells, 0, 1, 2).Stored?;
    hide Scan, AddData, After;
    ToOneRead(endless);
    ToTwoHeld(endless);
    AfterOne(endless, true, [Arrives(1), Asked(1000)], Arrives(2), OneRead(endless));
    assert [Arrives(1), Asked(1000)] + [Arrives(2)] == [Arrives(1), Asked(1000), Arrives(2)];
  }

  // :56 as written, whichever guard :115 has

  function LastA(strict: bool): List {
    List([Cell(1, 1, 0, 1000, true), Cell(2, 64, 1000, 63000, false)], 1, false, strict)
  }

  function LastB(strict: bool): List {
    List([Cell(1, 1, 0, 1000, true), Cell(2, 63, 1000, 62000, false), Cell(64, 64, 63000, 1000, true)], 1, false, strict)
  }

  function LastC(strict: bool): List {
    List([Cell(2, 63, 1000, 62000, false), Cell(64, 64, 63000, 1000, true), Cell(1, 1, 0, 1000, false)], 2, false, strict)
  }

  function LastD(strict: bool): List {
    List([Cell(2, 2, 1000, 1000, true), Cell(3, 63, 2000, 61000, false), Cell(64, 64, 63000, 1000, true),
          Cell(1, 1, 0, 1000, false)], 2, false, strict)
  }

  lemma ToLastA(strict: bool)
    ensures First(false, strict).cells != [] && Call(First(false, strict), Arrives(1)) == Some(LastA(strict))
  {
    OneHeld(false, strict);
  }

  lemma ToLastB(strict: bool)
    ensures LastA(strict).cells != [] && Call(LastA(strict), Arrives(64)) == Some(LastB(strict))
  {
    assert Scan(LastA(strict).cells, 1, 64, 1) == Stored(LastB(strict).cells);
    AddPlain(LastA(strict), 64, LastB(strict).cells);
  }

  lemma ToLastC(strict: bool)
    ensures LastB(strict).cells != [] && Call(LastB(strict), Asked(1000)) == Some(LastC(strict))
  {
    ReadPlain(LastB(strict), 1000, LastC(strict).cells);
  }

  lemma ToLastD(strict: bool)
    ensures LastC(strict).cells != [] && Call(LastC(strict), Arrives(2)) == Some(LastD(strict))
  {
    AddPlain(LastC(strict), 2, LastD(strict).cells);
  }

  lemma LastDEnds(strict: bool)
    ensures LastD(strict).cells != [] && ReadHangs(LastD(strict), 1000)
    ensures Scan(LastD(strict).cells, 0, 65, 2) == Nowhere
  {
    var d := LastD(strict).cells;
    assert Scan(d, 3, 65, 2) == Nowhere;
    assert Scan(d, 2, 65, 2) == Scan(d, 1, 65, 2) == Nowhere;
  }

  /** The first hole as written, the guard either way: packets 1 and 64 arrive, packet 1 is
      read, packet 2 arrives. Packet 65 is refused, and reading packet 2 does not end. */
  lemma LastFirstHangs(strict: bool)
    ensures var events := [Arrives(1), Arrives(64), Asked(1000), Arrives(2)];
      && Numbered(events) && After(false, strict, events) == Some(LastD(strict))
    ensures LastD(strict).cells != [] && Read(LastD(strict), 1000) == None
    ensures Scan(LastD(strict).cells, 0, 65, 2) == Nowhere
  {
    hide LastA, LastB, LastC, LastD, First, Scan, Call, Read, After, ReadHangs, Numbered;
    ToLastA(strict);
    ToLastB(strict);
    ToLastC(strict);
    ToLastD(strict);
    LastDEnds(strict);
    AfterNone(false, strict);
    AfterTwo(false, strict, [], Arrives(1), Arrives(64), First(false, strict), LastA(strict), LastB(strict));
    AfterTwo(false, strict, [] + [Arrives(1), Arrives(64)], Asked(1000), Arrives(2), LastB(strict), LastC(strict), LastD(strict));
    var events := [Arrives(1), Arrives(64), Asked(1000), Arrives(2)];
    assert [] + [Arrives(1), Arrives(64)] + [Asked(1000), Arrives(2)] == events;
    ReadsEndExactly(false, strict, events, 1000);
  }

  lemma AfterNone(endless: bool, strict: bool)
    ensures Numbered([]) && After(endless, strict, []) == Some(First(endless, strict))
  {
  }

  // :115 as written, the first hole without end

  function AgainA(): List {
    List([Cell(1, 1, 0, 1000, true), Cell(2, MAXSEQ, 1000, 63000, false)], 1, true, true)
  }

  function AgainB(): List {
    List([Cell(1, 2, 0, 2000, true), Cell(3, MAXSEQ, 2000, 62000, false)], 1, true, true)
  }

  function AgainC(): List {
    List([Cell(3, MAXSEQ, 2000, 62000, false), Cell(1, 2, 0, 2000, false)], 3, true, true)
  }

  function AgainD(): List {
    List([Cell(3, MAXSEQ, 2000, 62000, false), Cell(1, 1, 0, 1000, true), Cell(2, 2, 1000, 1000, false)], 3, true, true)
  }

  function AgainE(): List {
    List([Cell(3, 3, 2000, 1000, true), Cell(4, MAXSEQ, 3000, 61000, false), Cell(1, 1, 0, 1000, true),
          Cell(2, 2, 1000, 1000, false)], 3, true, true)
  }

  lemma ToAgainA()
    ensures First(true, true).cells != [] && Call(First(true, true), Arrives(1)) == Some(AgainA())
  {
    OneHeld(true, true);
  }

  lemma ToAgainB()
    ensures AgainA().cells != [] && Call(AgainA(), Arrives(2)) == Some(AgainB())
  {
    var a, b := AgainA().cells, AgainB().cells;
    var c := [Cell(1, 1, 0, 1000, true), Cell(2, 2, 1000, 1000, true), Cell(3, MAXSEQ, 2000, 62000, false)];
    PassIdle(a, 1, true);
    assert Scan(a, 1, 2, 1) == Stored(c);
    assert Scan(a, 0, 2, 1) == Stored(c);
    assert MergeAt(c, 0, 2) == b;
    assert JoinRun(c, 0) == JoinRun(b, 0) == Some(b);
    PassIdle(b, 1, true);
    PassSameStart(c, b, 0, 1, true);
  }

  lemma ToAgainC()
    ensures AgainB().cells != [] && Call(AgainB(), Asked(2000)) == Some(AgainC())
  {
    ReadPlain(AgainB(), 2000, AgainC().cells);
  }

  lemma ToAgainD()
    ensures AgainC().cells != [] && Call(AgainC(), Arrives(1)) == Some(AgainD())
  {
    assert Scan(AgainC().cells, 1, 1, 3) == Stored(AgainD().cells);
    AddPlain(AgainC(), 1, AgainD().cells);
  }

  lemma ToAgainE()
    ensures AgainD().cells != [] && Call(AgainD(), Arrives(3)) == Some(AgainE())
  {
    AddPlain(AgainD(), 3, AgainE().cells);
  }

  lemma AgainEEnds()
    ensures AgainE().cells != [] && ReadHangs(AgainE(), 1000) && AddHangs(AgainE(), 2)
  {
  }

  /** The guard at :115 as written alone: packets 1 and 2 are read, packet 1 comes again and
      is stored in the freed room, packet 3 arrives. Then neither reading packet 3 nor
      packet 2 coming again ends. */
  lemma AgainHangs()
    ensures var events := [Arrives(1), Arrives(2), Asked(2000), Arrives(1), Arrives(3)];
      Numbered(events) && After(true, true, events) == Some(AgainE())
    ensures AgainE().cells != [] && Read(AgainE(), 1000) == None && AddData(AgainE(), 2) == None
  {
    hide AgainA, AgainB, AgainC, AgainD, AgainE, First, Call, Read, AddData, After, ReadHangs, AddHangs, Numbered;
    ToAgainA();
    ToAgainB();
    ToAgainC();
    ToAgainD();
    ToAgainE();
    AgainEEnds();
    AfterNone(true, true);
    AfterTwo(true, true, [], Arrives(1), Arrives(2), First(true, true), AgainA(), AgainB());
    AfterTwo(true, true, [] + [Arrives(1), Arrives(2)], Asked(2000), Arrives(1), AgainB(), AgainC(), AgainD());
    var before := [] + [Arrives(1), Arrives(2)] + [Asked(2000), Arrives(1)];
    AfterOne(true, true, before, Arrives(3), AgainD());
    var events := [Arrives(1), Arrives(2), Asked(2000), Arrives(1), Arrives(3)];
    assert before + [Arrives(3)] == events;
    ReadsEndExactly(true, true, events, 1000);
    AddsEndExactly(true, true, events, 2);
  }
}
