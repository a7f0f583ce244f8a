/** crc32.c: the table-driven checksum, proved equal to the bit-at-a-time one and
    proved to see every error burst of at most 32 bits. */
module Crc32 {
  import opened Crc32Register
  import opened Crc32Table

  /** The starting register both ends hand to crc32 (cbuffer.c:386, tcpds.c:157). */
  const CRC_POLY: bv32 := 0x04C1_1DB7

  /** The bits of a byte, least significant first. */
  function ByteBits(b: bv8): (bits: seq<bool>)
    ensures |bits| == 8
  {
    [b & 0x01 != 0, b & 0x02 != 0, b & 0x04 != 0, b & 0x08 != 0,
     b & 0x10 != 0, b & 0x20 != 0, b & 0x40 != 0, b & 0x80 != 0]
  }

  function Bits(buf: seq<bv8>): (bits: seq<bool>)
    ensures |bits| == 8 * |buf|
  {
    if buf == [] then [] else ByteBits(buf[0]) + Bits(buf[1..])
  }

  /** The reference: the buffer fed one bit at a time into the complemented
      register, complemented again at the end. */
  function Checksum(crc: bv32, buf: seq<bv8>): bv32 {
    Add(Feed(Add(crc, ALL_ONES), Bits(buf)), ALL_ONES)
  }

  // ----- the table step is eight clock steps

  function LowByte(r: bv32): bv8 {
    (r & 0xFF) as bv8
  }

  function HighBytes(r: bv32): bv32 {
    r >> 8
  }

  /** One turn of the loop at crc32.c:99-100. */
  function TableStep(crc: bv32, b: bv8): bv32 {
    Add(Entry(LowByte(Add(crc, b as bv32))), HighBytes(crc))
  }

  function Pushes(bits: seq<bool>): bv32
    requires |bits| == 8
  {
    Push(bits[0], Push(bits[1], Push(bits[2], Push(bits[3],
      Push(bits[4], Push(bits[5], Push(bits[6], Push(bits[7], 0))))))))
  }

  lemma PushesOfByte(b: bv8)
    ensures Pushes(ByteBits(b)) == b as bv32
  {
  }

  lemma WordIsPushes(s: seq<bool>)
    requires |s| == 8
    ensures Word(s) == Pushes(s)
  {
    hide Push;
    WordUnrolled(s, 0);
    WordUnrolled(s, 1);
    WordUnrolled(s, 2);
    WordUnrolled(s, 3);
    WordUnrolled(s, 4);
    WordUnrolled(s, 5);
    WordUnrolled(s, 6);
    WordUnrolled(s, 7);
    hide Word;
    assert s[0..] == s;
    assert Word(s[8..]) == 0;
  }

  lemma WordUnrolled(s: seq<bool>, i: nat)
    requires |s| == 8 && i < 8
    ensures Word(s[i..]) == Push(s[i], Word(s[i + 1..]))
    ensures Word(s[8..]) == 0
  {
    assert s[i..][1..] == s[i + 1..];
  }

  lemma ShiftsOfHighBytes(r: bv32)
    requires r & 0xFF == 0
    ensures Shifts(r, 8) == HighBytes(r)
  {
    ShiftsIsShift8(r);
  }

  lemma SplitLowByte(r: bv32)
    ensures r == Add(r & 0xFF, r & 0xFFFF_FF00)
    ensures (r & 0xFFFF_FF00) & 0xFF == 0
    ensures HighBytes(r & 0xFFFF_FF00) == HighBytes(r)
    ensures LowByte(r) as bv32 == r & 0xFF
  {
  }

  lemma AddByte(crc: bv32, b: bv8)
    ensures HighBytes(Add(crc, b as bv32)) == HighBytes(crc)
  {
  }

  /** Eight steps at once: look up the low byte, let the rest fall through. */
  lemma EightShiftsByTable(r: bv32)
    ensures Shifts(r, 8) == Add(Entry(LowByte(r)), HighBytes(r))
  {
    hide *;
    var low, high := r & 0xFF, r & 0xFFFF_FF00;
    SplitLowByte(r);
    ShiftsLinear(low, high, 8);
    EntryIsEightShifts(LowByte(r));
    ShiftsOfHighBytes(high);
  }

  lemma TableStepIsEightClocks(crc: bv32, b: bv8)
    ensures TableStep(crc, b) == Feed(crc, ByteBits(b))
  {
    var r := Add(crc, b as bv32);
    assert TableStep(crc, b) == Add(Entry(LowByte(r)), HighBytes(crc));
    hide *;
    AddByte(crc, b);
    FeedIsShifts(crc, ByteBits(b));
    WordIsPushes(ByteBits(b));
    PushesOfByte(b);
    EightShiftsByTable(r);
  }

  // ----- the loop

  lemma BitsUnrolled(buf: seq<bv8>, i: nat)
    requires i < |buf|
    ensures Bits(buf[i..]) == ByteBits(buf[i]) + Bits(buf[i + 1..])
  {
    assert buf[i..][1..] == buf[i + 1..];
  }

  /** crc32.c:91-103. */
  method Crc32(start: bv32, buf: seq<bv8>) returns (crc: bv32)
    ensures crc == Checksum(start, buf)
  {
    crc := Add(start, ALL_ONES);
    var p, size := 0, |buf|;
    ghost var register := crc;
    assert buf[0..] == buf;
    while size != 0
      invariant 0 <= size && 0 <= p && p + size == |buf|
      invariant Feed(crc, Bits(buf[p..])) == Feed(register, Bits(buf))
    {
      TableStepIsEightClocks(crc, buf[p]);
      BitsUnrolled(buf, p);
      FeedConcat(crc, ByteBits(buf[p]), Bits(buf[p + 1..]));
      crc := TableStep(crc, buf[p]);
      p, size := p + 1, size - 1;
    }
    crc := Add(crc, ALL_ONES);
  }

  // ----- checksums of whole buffers

  lemma AddTwice(r: bv32, w: bv32)
    ensures Add(Add(r, w), w) == r
  {
  }

  /** Nothing changes the register. */
  lemma ChecksumOfNothing(crc: bv32)
    ensures Checksum(crc, []) == crc
  {
    AddTwice(crc, ALL_ONES);
  }

  lemma {:induction false} BitsConcat(a: seq<bv8>, b: seq<bv8>)
    ensures Bits(a + b) == Bits(a) + Bits(b)
    decreases |a|
  {
    if a == [] {
      assert a + b == b;
    } else {
      assert (a + b)[1..] == a[1..] + b;
      BitsConcat(a[1..], b);
    }
  }

  /** A checksum can be taken in parts, each going on from the one before. */
  lemma ChecksumInParts(crc: bv32, a: seq<bv8>, b: seq<bv8>)
    ensures Checksum(Checksum(crc, a), b) == Checksum(crc, a + b)
  {
    var r := Add(crc, ALL_ONES);
    AddTwice(Feed(r, Bits(a)), ALL_ONES);
    hide Add, Feed, Bits;
    BitsConcat(a, b);
    FeedConcat(r, Bits(a), Bits(b));
  }

  lemma FeedByte(r: bv32, b: bv8, rest: seq<bv8>)
    ensures Feed(r, Bits([b] + rest)) == Feed(TableStep(r, b), Bits(rest))
  {
    assert ([b] + rest)[1..] == rest;
    assert Bits([b] + rest) == ByteBits(b) + Bits(rest);
    hide *;
    TableStepIsEightClocks(r, b);
    FeedConcat(r, ByteBits(b), Bits(rest));
  }

  lemma Digits1To3()
    ensures TableStep(0xFFFF_FFFF, 0x31) == 0x7C23_1048
    ensures TableStep(0x7C23_1048, 0x32) == 0xB0AC_BB32
    ensures TableStep(0xB0AC_BB32, 0x33) == 0x77B7_9C2D
  {
  }

  lemma Digits4To6()
    ensures TableStep(0x77B7_9C2D, 0x34) == 0x641C_1F5C
    ensures TableStep(0x641C_1F5C, 0x35) == 0x340A_C5E3
    ensures TableStep(0x340A_C5E3, 0x36) == 0xF68D_2C9E
  {
  }

  lemma Digits7To9()
    ensures TableStep(0xF68D_2C9E, 0x37) == 0xAFFC_9660
    ensures TableStep(0xAFFC_9660, 0x38) == 0x651F_2550
    ensures TableStep(0x651F_2550, 0x39) == 0x340B_C6D9
  {
  }

  lemma FeedThree(r: bv32, a: bv8, b: bv8, c: bv8, rest: seq<bv8>)
    ensures Feed(r, Bits([a, b, c] + rest)) == Feed(TableStep(TableStep(TableStep(r, a), b), c), Bits(rest))
  {
    hide *;
    assert [a, b, c] + rest == [a] + ([b] + ([c] + rest));
    FeedByte(r, a, [b] + ([c] + rest));
    FeedByte(TableStep(r, a), b, [c] + rest);
    FeedByte(TableStep(TableStep(r, a), b), c, rest);
  }

  const DIGITS: seq<bv8> := [0x31, 0x32, 0x33, 0x34, 0x35, 0x36, 0x37, 0x38, 0x39]

  lemma DigitsFed()
    ensures Feed(0xFFFF_FFFF, Bits(DIGITS)) == 0x340B_C6D9
  {
    var last: seq<bv8> := [0x37, 0x38, 0x39] + [];
    var later: seq<bv8> := [0x34, 0x35, 0x36] + last;
    assert DIGITS == [0x31, 0x32, 0x33] + later;
    assert Bits([]) == [] && Feed(0x340B_C6D9, []) == 0x340B_C6D9;
    hide *;
    Digits1To3();
    Digits4To6();
    Digits7To9();
    FeedThree(0xFFFF_FFFF, 0x31, 0x32, 0x33, later);
    FeedThree(0x77B7_9C2D, 0x34, 0x35, 0x36, last);
    FeedThree(0xF68D_2C9E, 0x37, 0x38, 0x39, []);
  }

  /** The check value of the CRC-32: the digits 1 to 9 from register 0. */
  lemma CheckValue()
    ensures Checksum(0, DIGITS) == 0xCBF4_3926
  {
    assert Add(0, ALL_ONES) == 0xFFFF_FFFF && Add(0x340B_C6D9, ALL_ONES) == 0xCBF4_3926;
    hide Add, Feed, Bits;
    DigitsFed();
  }

  // ----- error bursts

  /** Two buffers of one length that differ, but only inside 32 consecutive bits. */
  ghost predicate BurstApart(a: seq<bv8>, b: seq<bv8>) {
    && |a| == |b|
    && a != b
    && exists i: nat :: AgreeOutside(Bits(a), Bits(b), i)
  }

  ghost predicate AgreeOutside(s: seq<bool>, t: seq<bool>, i: nat) {
    && |s| == |t|
    && forall k | 0 <= k < |s| && !(i <= k < i + 32) :: s[k] == t[k]
  }

  lemma ByteBitsInjective(b: bv8, c: bv8)
    requires ByteBits(b) == ByteBits(c)
    ensures b == c
  {
    PushesOfByte(b);
    PushesOfByte(c);
    SameWideByte(b, c);
  }

  lemma SameWideByte(b: bv8, c: bv8)
    requires b as bv32 == c as bv32
    ensures b == c
  {
  }

  lemma {:induction false} BitsInjective(a: seq<bv8>, b: seq<bv8>)
    requires |a| == |b| && Bits(a) == Bits(b)
    ensures a == b
    decreases |a|
  {
    if a == [] {
    } else {
      hide ByteBits;
      assert ByteBits(a[0]) == Bits(a)[..8] == Bits(b)[..8] == ByteBits(b[0]);
      assert Bits(a[1..]) == Bits(a)[8..] == Bits(b)[8..] == Bits(b[1..]);
      ByteBitsInjective(a[0], b[0]);
      BitsInjective(a[1..], b[1..]);
      assert a == [a[0]] + a[1..] && b == [b[0]] + b[1..];
    }
  }

  lemma Parts(s: seq<bool>, i: nat, j: nat)
    requires i <= j <= |s|
    ensures s == s[..i] + (s[i..j] + s[j..])
  {
  }

  /** Registers that start equal and see bits agreeing outside one window of 32 end
      equal only if the bits agree inside it too. */
  lemma EqualRegistersEqualBits(r: bv32, s: seq<bool>, t: seq<bool>, i: nat)
    requires AgreeOutside(s, t, i)
    requires Feed(r, s) == Feed(r, t)
    ensures s == t
  {
    hide Feed;
    if i < |s| {
      var j := if i + 32 <= |s| then i + 32 else |s|;
      Parts(s, i, j);
      Parts(t, i, j);
      assert s[..i] == t[..i] && s[j..] == t[j..];
      var m := Feed(r, s[..i]);
      FeedConcat(r, s[..i], s[i..j] + s[j..]);
      FeedConcat(r, t[..i], t[i..j] + t[j..]);
      FeedConcat(m, s[i..j], s[j..]);
      FeedConcat(m, t[i..j], t[j..]);
      FeedInjective(Feed(m, s[i..j]), Feed(m, t[i..j]), s[j..]);
      ShortRunsDiffer(m, s[i..j], t[i..j]);
    }
  }

  /** Every burst of at most 32 bits changes the checksum, whatever the starting
      register and the length. */
  lemma BurstsAreDetected(start: bv32, a: seq<bv8>, b: seq<bv8>)
    requires BurstApart(a, b)
    ensures Checksum(start, a) != Checksum(start, b)
  {
    var i: nat :| AgreeOutside(Bits(a), Bits(b), i);
    if Checksum(start, a) == Checksum(start, b) {
      var r := Add(start, ALL_ONES);
      hide Add;
      AddInjective(Feed(r, Bits(a)), Feed(r, Bits(b)), ALL_ONES);
      EqualRegistersEqualBits(r, Bits(a), Bits(b), i);
      BitsInjective(a, b);
    }
  }
}
