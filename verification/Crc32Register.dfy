/** The shift register behind crc32.c, one bit at a time.

    A step shifts the 32-bit register right and, when a one falls out of the low
    end, adds the feedback polynomial. Message bits enter at the low end. Adding
    is exclusive or, so a step is linear; the lemmas below say so, and say that no
    step loses information. */
module Crc32Register {

  const POLYNOMIAL: bv32 := 0xEDB8_8320
  const ALL_ONES: bv32 := 0xFFFF_FFFF
  const LOW_31_ONES: bv32 := 0x7FFF_FFFF

  function Add(r: bv32, s: bv32): bv32 {
    r ^ s
  }

  predicate Odd(r: bv32) {
    r & 1 == 1
  }

  function Shift(r: bv32): bv32 {
    if Odd(r) then Add(r >> 1, POLYNOMIAL) else r >> 1
  }

  function Shifts(r: bv32, n: nat): bv32
    decreases n
  {
    if n == 0 then r else Shifts(Shift(r), n - 1)
  }

  function FromBit(bit: bool): bv32 {
    if bit then 1 else 0
  }

  /** One message bit enters, the register moves one place. */
  function Clock(r: bv32, bit: bool): bv32 {
    Shift(Add(r, FromBit(bit)))
  }

  /** The register after the given message bits, fed one after the other. */
  function Feed(r: bv32, bits: seq<bool>): bv32
    decreases |bits|
  {
    if bits == [] then r else Feed(Clock(r, bits[0]), bits[1..])
  }

  lemma {:induction false} FeedConcat(r: bv32, s: seq<bool>, t: seq<bool>)
    ensures Feed(r, s + t) == Feed(Feed(r, s), t)
    decreases |s|
  {
    if s == [] {
      assert s + t == t;
    } else {
      assert (s + t)[1..] == s[1..] + t;
      FeedConcat(Clock(r, s[0]), s[1..], t);
    }
  }

  // ----- no information is lost

  lemma ShiftInjective(r: bv32, s: bv32)
    requires Shift(r) == Shift(s)
    ensures r == s
  {
  }

  lemma {:induction false} ShiftsInjective(r: bv32, s: bv32, n: nat)
    requires Shifts(r, n) == Shifts(s, n)
    ensures r == s
    decreases n
  {
    if n == 0 {
    } else {
      ShiftsInjective(Shift(r), Shift(s), n - 1);
      ShiftInjective(r, s);
    }
  }

  lemma AddInjective(r: bv32, s: bv32, w: bv32)
    ensures Add(r, w) == Add(s, w) ==> r == s
    ensures Add(w, r) == Add(w, s) ==> r == s
  {
  }

  lemma {:induction false} FeedInjective(r: bv32, s: bv32, bits: seq<bool>)
    requires Feed(r, bits) == Feed(s, bits)
    ensures r == s
    decreases |bits|
  {
    if bits == [] {
    } else {
      var bit := FromBit(bits[0]);
      FeedInjective(Clock(r, bits[0]), Clock(s, bits[0]), bits[1..]);
      ShiftInjective(Add(r, bit), Add(s, bit));
      AddInjective(r, s, bit);
    }
  }

  // ----- a step is linear

  lemma AddCommutes(r: bv32, s: bv32)
    ensures Add(r, s) == Add(s, r)
  {
  }

  lemma OddOdd(r: bv32, s: bv32)
    requires Odd(r) && Odd(s)
    ensures Shift(Add(r, s)) == Add(Shift(r), Shift(s))
  {
  }

  lemma OddEven(r: bv32, s: bv32)
    requires Odd(r) && !Odd(s)
    ensures Shift(Add(r, s)) == Add(Shift(r), Shift(s))
  {
  }

  lemma EvenOdd(r: bv32, s: bv32)
    requires !Odd(r) && Odd(s)
    ensures Shift(Add(r, s)) == Add(Shift(r), Shift(s))
  {
    hide Shift, Odd, Add;
    OddEven(s, r);
    AddCommutes(r, s);
    AddCommutes(Shift(r), Shift(s));
  }

  lemma EvenEven(r: bv32, s: bv32)
    requires !Odd(r) && !Odd(s)
    ensures Shift(Add(r, s)) == Add(Shift(r), Shift(s))
  {
  }

  lemma ShiftLinear(r: bv32, s: bv32)
    ensures Shift(Add(r, s)) == Add(Shift(r), Shift(s))
  {
    hide *;
    if Odd(r) {
      if Odd(s) { OddOdd(r, s); } else { OddEven(r, s); }
    } else {
      if Odd(s) { EvenOdd(r, s); } else { EvenEven(r, s); }
    }
  }

  lemma {:induction false} ShiftsLinear(r: bv32, s: bv32, n: nat)
    ensures Shifts(Add(r, s), n) == Add(Shifts(r, n), Shifts(s, n))
    decreases n
  {
    hide Shift, Add;
    if n == 0 {
    } else {
      ShiftLinear(r, s);
      ShiftsLinear(Shift(r), Shift(s), n - 1);
    }
  }

  // ----- up to 32 bits at once: feeding them is adding their word, then shifting

  function Push(bit: bool, w: bv32): bv32 {
    Add(FromBit(bit), w << 1)
  }

  /** At most 32 bits packed into a word, the first one lowest. */
  function Word(bits: seq<bool>): bv32
    requires |bits| <= 32
    decreases |bits|
  {
    if bits == [] then 0 else Push(bits[0], Word(bits[1..]))
  }

  /** Ones in the n lowest places. */
  function LowOnes(n: nat): bv32 {
    if n == 0 then 0 else Push(true, LowOnes(n - 1))
  }

  predicate Within(w: bv32, mask: bv32) {
    w & mask == w
  }

  lemma WithinPushOne(w: bv32, mask: bv32)
    requires w & mask == w
    ensures (1 ^ (w << 1)) & (1 ^ (mask << 1)) == 1 ^ (w << 1)
  {
  }

  lemma WithinPushZero(w: bv32, mask: bv32)
    requires w & mask == w
    ensures (0 ^ (w << 1)) & (1 ^ (mask << 1)) == 0 ^ (w << 1)
  {
  }

  lemma WithinPush(w: bv32, mask: bv32, bit: bool)
    requires Within(w, mask)
    ensures Within(Push(bit, w), Push(true, mask))
  {
    PushParts(w);
    PushParts(mask);
    hide Push;
    if bit { WithinPushOne(w, mask); } else { WithinPushZero(w, mask); }
  }

  lemma PushParts(w: bv32)
    ensures Push(true, w) == 1 ^ (w << 1) && Push(false, w) == 0 ^ (w << 1)
  {
  }

  lemma {:induction false} LowOnesGrow(m: nat, n: nat)
    requires m <= n
    ensures Within(LowOnes(m), LowOnes(n))
    decreases n
  {
    if m == 0 {
    } else {
      LowOnesGrow(m - 1, n - 1);
      WithinPush(LowOnes(m - 1), LowOnes(n - 1), true);
    }
  }

  lemma {:induction false} WordWithin(bits: seq<bool>)
    requires |bits| <= 32
    ensures Within(Word(bits), LowOnes(|bits|))
    decreases |bits|
  {
    if bits == [] {
    } else {
      hide Push, Within;
      WordWithin(bits[1..]);
      WithinPush(Word(bits[1..]), LowOnes(|bits| - 1), bits[0]);
    }
  }

  lemma LowOnes31()
    ensures LowOnes(31) == LOW_31_ONES
  {
    assert LowOnes(8) == 0xFF;
    assert LowOnes(16) == 0xFFFF;
    assert LowOnes(24) == 0xFF_FFFF;
  }

  lemma WithinTrans(a: bv32, b: bv32, c: bv32)
    requires Within(a, b) && Within(b, c)
    ensures Within(a, c)
  {
  }

  lemma WordBelowTop(bits: seq<bool>)
    requires |bits| < 32
    ensures Within(Word(bits), LOW_31_ONES)
  {
    hide *;
    WordWithin(bits);
    LowOnesGrow(|bits|, 31);
    LowOnes31();
    WithinTrans(Word(bits), LowOnes(|bits|), LowOnes(31));
  }

  lemma ClockOddOne(r: bv32, w: bv32)
    requires Odd(r) && Within(w, LOW_31_ONES)
    ensures Shift(Add(r, Push(true, w))) == Add(Clock(r, true), w)
  {
  }

  lemma ClockOddZero(r: bv32, w: bv32)
    requires Odd(r) && Within(w, LOW_31_ONES)
    ensures Shift(Add(r, Push(false, w))) == Add(Clock(r, false), w)
  {
  }

  lemma ClockEvenOne(r: bv32, w: bv32)
    requires !Odd(r) && Within(w, LOW_31_ONES)
    ensures Shift(Add(r, Push(true, w))) == Add(Clock(r, true), w)
  {
  }

  lemma ClockEvenZero(r: bv32, w: bv32)
    requires !Odd(r) && Within(w, LOW_31_ONES)
    ensures Shift(Add(r, Push(false, w))) == Add(Clock(r, false), w)
  {
  }

  /** Adding a word and shifting is clocking its low bit in and adding the rest. */
  lemma ClockWord(r: bv32, bit: bool, w: bv32)
    requires Within(w, LOW_31_ONES)
    ensures Shift(Add(r, Push(bit, w))) == Add(Clock(r, bit), w)
  {
    hide *;
    if Odd(r) {
      if bit { ClockOddOne(r, w); } else { ClockOddZero(r, w); }
    } else {
      if bit { ClockEvenOne(r, w); } else { ClockEvenZero(r, w); }
    }
  }

  lemma {:induction false} FeedIsShifts(r: bv32, bits: seq<bool>)
    requires |bits| <= 32
    ensures Feed(r, bits) == Shifts(Add(r, Word(bits)), |bits|)
    decreases |bits|
  {
    if bits == [] {
    } else {
      hide Shift, Clock, Add, Push, Within;
      WordBelowTop(bits[1..]);
      ClockWord(r, bits[0], Word(bits[1..]));
      FeedIsShifts(Clock(r, bits[0]), bits[1..]);
    }
  }

  lemma PushInjective(s: bool, v: bv32, t: bool, w: bv32)
    requires Within(v, LOW_31_ONES) && Within(w, LOW_31_ONES)
    requires Push(s, v) == Push(t, w)
    ensures s == t && v == w
  {
  }

  lemma {:induction false} WordInjective(s: seq<bool>, t: seq<bool>)
    requires |s| == |t| <= 32
    requires Word(s) == Word(t)
    ensures s == t
    decreases |s|
  {
    hide Push, Within;
    if s == [] {
    } else {
      WordBelowTop(s[1..]);
      WordBelowTop(t[1..]);
      PushInjective(s[0], Word(s[1..]), t[0], Word(t[1..]));
      WordInjective(s[1..], t[1..]);
      assert s == [s[0]] + s[1..] && t == [t[0]] + t[1..];
    }
  }

  /** From one register, two different runs of at most 32 bits lead apart. */
  lemma ShortRunsDiffer(r: bv32, s: seq<bool>, t: seq<bool>)
    requires |s| == |t| <= 32
    requires Feed(r, s) == Feed(r, t)
    ensures s == t
  {
    hide *;
    FeedIsShifts(r, s);
    FeedIsShifts(r, t);
    ShiftsInjective(Add(r, Word(s)), Add(r, Word(t)), |s|);
    AddInjective(Word(s), Word(t), r);
    WordInjective(s, t);
  }
}
