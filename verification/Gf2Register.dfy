/** The 32-bit shift register behind CRC-32: one bit-serial step, its algebra over GF(2),
    and words read as lists of bits, least significant bit first.

    The proofs hide the bit-vector definitions they do not need: an induction then sees only
    names, and the solver is left with equalities instead of 32-bit circuits. */
module Gf2Register {

  // The reflected generator polynomial: bit k is the coefficient of x^(31-k), and x^32 is implicit.
  const POLYNOMIAL: bv32 := 0xEDB88320

  predicate Low(x: bv32) {
    x & 1 == 1
  }

  function Half(x: bv32): bv32 {
    x >> 1
  }

  function Xor(x: bv32, y: bv32): bv32 {
    x ^ y
  }

  function Bit(b: bool): bv32 {
    if b then 1 else 0
  }

  function StepBit(c: bv32): bv32 {
    if Low(c) then Xor(Half(c), POLYNOMIAL) else Half(c)
  }

  function Shift(c: bv32, n: nat): bv32
    decreases n
  {
    if n == 0 then c else Shift(StepBit(c), n - 1)
  }

  // The register after a bit stream has been fed in, one bit at a time.
  function Feed(bits: seq<bool>, c: bv32): bv32 {
    if bits == [] then c else Feed(bits[1..], StepBit(Xor(c, Bit(bits[0]))))
  }

  // The low n bits of x, bit 0 first.
  function BitsOf(x: bv32, n: nat): (bits: seq<bool>)
    ensures |bits| == n
    decreases n
  {
    if n == 0 then [] else [Low(x)] + BitsOf(Half(x), n - 1)
  }

  // A word from a low bit and the bits above it.
  function Push(b: bool, p: bv32): bv32 {
    Bit(b) | (p << 1)
  }

  // The word with the given bits, bit 0 first; bits beyond the 32nd are lost.
  function Pack(bits: seq<bool>): bv32 {
    if bits == [] then 0 else Push(bits[0], Pack(bits[1..]))
  }

  // x has no bit set at position n or above.
  predicate Fits(x: bv32, n: nat)
    decreases n
  {
    if n == 0 then x == 0 else Fits(Half(x), n - 1)
  }

  // ----- the step is linear and injective

  lemma XorSelf(x: bv32)
    ensures Xor(x, x) == 0
  {
  }

  lemma XorTwice(x: bv32, y: bv32)
    ensures Xor(Xor(x, y), y) == x && Xor(0, y) == y && Xor(x, 0) == x
  {
  }

  lemma XorZero(x: bv32, y: bv32)
    ensures Xor(x, y) == 0 <==> x == y
  {
    hide Xor;
    XorSelf(x);
    XorTwice(x, y);
  }

  lemma XorCancel(c: bv32, x: bv32, y: bv32)
    ensures Xor(c, x) == Xor(c, y) <==> x == y
    ensures Xor(x, c) == Xor(y, c) <==> x == y
  {
  }

  lemma XorRegroup(a: bv32, b: bv32, p: bv32)
    ensures Xor(Xor(a, p), b) == Xor(Xor(a, b), p) == Xor(a, Xor(b, p))
    ensures Xor(Xor(a, p), Xor(b, p)) == Xor(a, b)
  {
  }

  lemma RegroupSums(a: bv32, b: bv32, sa: bv32, sb: bv32)
    ensures Xor(Xor(a, sa), Xor(b, sb)) == Xor(Xor(a, b), Xor(sa, sb))
  {
    hide Xor;
    XorRegroup(Xor(a, sa), b, sb);
    XorRegroup(a, b, sa);
    XorRegroup(Xor(a, b), sa, sb);
  }

  lemma XorCommutes(x: bv32, y: bv32)
    ensures Xor(x, y) == Xor(y, x)
  {
  }

  lemma XorParts(x: bv32, y: bv32)
    ensures Half(Xor(x, y)) == Xor(Half(x), Half(y))
    ensures Low(Xor(x, y)) <==> Low(x) != Low(y)
  {
  }

  // Half, n times over.
  function Halves(x: bv32, n: nat): bv32
    decreases n
  {
    if n == 0 then x else Halves(Half(x), n - 1)
  }

  lemma {:induction false} HalvesSum(x: bv32, y: bv32, n: nat)
    ensures Halves(Xor(x, y), n) == Xor(Halves(x, n), Halves(y, n))
    decreases n
  {
    hide Half, Low, Xor;
    if n == 0 {
    } else {
      XorParts(x, y);
      HalvesSum(Half(x), Half(y), n - 1);
    }
  }

  lemma TwoHalves(x: bv32)
    ensures x >> 2 == Half(Half(x))
  {
  }

  lemma FourHalves(x: bv32)
    ensures x >> 4 == Half(Half(Half(Half(x)))) == Halves(x, 4)
  {
    TwoHalves(x);
    TwoHalves(Half(Half(x)));
  }

  lemma {:induction false} HalvesSplit(x: bv32, m: nat, n: nat)
    ensures Halves(x, m + n) == Halves(Halves(x, m), n)
    decreases m
  {
    hide Half;
    if m == 0 {
    } else {
      HalvesSplit(Half(x), m - 1, n);
    }
  }

  lemma EightHalves(x: bv32)
    ensures x >> 8 == Halves(x, 8)
  {
    FourHalves(x);
    FourHalves(Half(Half(Half(Half(x)))));
  }

  lemma SixteenHalves(x: bv32)
    ensures x >> 16 == Halves(x, 16)
  {
    hide Half, Halves;
    EightHalves(x);
    EightHalves(x >> 8);
    HalvesSplit(x, 8, 8);
  }

  lemma HighPartSum(x: bv32, y: bv32)
    ensures Xor(x, y) >> 8 == Xor(x >> 8, y >> 8)
  {
    hide Half, Xor, Halves;
    EightHalves(x);
    EightHalves(y);
    EightHalves(Xor(x, y));
    HalvesSum(x, y, 8);
  }

  lemma StepLinear(x: bv32, y: bv32)
    ensures StepBit(Xor(x, y)) == Xor(StepBit(x), StepBit(y))
  {
    hide Low, Half, Xor;
    XorParts(x, y);
    XorRegroup(Half(x), Half(y), POLYNOMIAL);
  }

  lemma {:induction false} ShiftLinear(x: bv32, y: bv32, n: nat)
    ensures Shift(Xor(x, y), n) == Xor(Shift(x, n), Shift(y, n))
    decreases n
  {
    hide Low, Half, Xor, StepBit;
    if n == 0 {
    } else {
      StepLinear(x, y);
      ShiftLinear(StepBit(x), StepBit(y), n - 1);
    }
  }

  lemma StepKernel(x: bv32)
    requires StepBit(x) == 0
    ensures x == 0
  {
    XorZero(Half(x), POLYNOMIAL);
  }

  lemma StepInjective(x: bv32, y: bv32)
    ensures StepBit(x) == StepBit(y) <==> x == y
  {
    hide Low, Half, Xor, StepBit;
    StepLinear(x, y);
    XorZero(x, y);
    XorZero(StepBit(x), StepBit(y));
    if StepBit(Xor(x, y)) == 0 {
      StepKernel(Xor(x, y));
    }
  }

  lemma {:induction false} ShiftInjective(x: bv32, y: bv32, n: nat)
    ensures Shift(x, n) == Shift(y, n) <==> x == y
    decreases n
  {
    hide Low, Half, Xor, StepBit;
    if n == 0 {
    } else {
      StepInjective(x, y);
      ShiftInjective(StepBit(x), StepBit(y), n - 1);
    }
  }

  // ----- zeros at the low end are simply shifted out

  // The low n bits of z are zero and the bits above them are y.
  predicate ZerosThen(z: bv32, y: bv32, n: nat)
    decreases n
  {
    if n == 0 then z == y else !Low(z) && ZerosThen(Half(z), y, n - 1)
  }

  lemma {:induction false} ShiftOutZeros(z: bv32, y: bv32, n: nat)
    requires ZerosThen(z, y, n)
    ensures Shift(z, n) == y
    decreases n
  {
    hide Low, Half, Xor;
    if n == 0 {
    } else {
      ShiftOutZeros(Half(z), y, n - 1);
    }
  }

  // ----- words and their bits

  function LowMask(n: nat): (m: bv32)
    ensures m & (m + 1) == 0
  {
    if n == 0 then 0 else (LowMask(n - 1) << 1) | 1
  }

  lemma HalfBelow(x: bv32, m: bv32)
    requires m & (m + 1) == 0
    ensures Half(x) <= m <==> x <= (m << 1) | 1
    ensures m <= (m << 1) | 1
  {
  }

  lemma {:induction false} FitsIsBound(x: bv32, n: nat)
    ensures Fits(x, n) <==> x <= LowMask(n)
    decreases n
  {
    hide Half;
    if n == 0 {
    } else {
      FitsIsBound(Half(x), n - 1);
      HalfBelow(x, LowMask(n - 1));
    }
  }

  lemma {:induction false} LowMaskGrows(m: nat, n: nat)
    requires m <= n
    ensures LowMask(m) <= LowMask(n)
    decreases n - m
  {
    if m == n {
    } else {
      LowMaskGrows(m + 1, n);
      HalfBelow(0, LowMask(m));
    }
  }

  lemma LowMaskValues()
    ensures LowMask(8) == 0xFF && LowMask(31) == 0x7FFF_FFFF && LowMask(32) == 0xFFFF_FFFF
  {
    assert LowMask(8) == 0xFF;
    assert LowMask(16) == 0xFFFF;
    assert LowMask(24) == 0xFF_FFFF;
  }

  lemma TopBitClear(x: bv32, n: nat)
    requires Fits(x, n) && n <= 31
    ensures x <= 0x7FFF_FFFF
  {
    FitsIsBound(x, n);
    LowMaskGrows(n, 31);
    LowMaskValues();
  }

  lemma BelowTop(p: bv32)
    requires p <= 0x7FFF_FFFF
    ensures p == p & 0x7FFF_FFFF
  {
  }

  lemma PushParts(b: bool, p: bv32)
    ensures Half(Push(b, p)) == p & 0x7FFF_FFFF && Low(Push(b, p)) == b
  {
    if b {
      assert (1 | (p << 1)) >> 1 == p & 0x7FFF_FFFF && (1 | (p << 1)) & 1 == 1;
    } else {
      assert (0 | (p << 1)) >> 1 == p & 0x7FFF_FFFF && (0 | (p << 1)) & 1 == 0;
    }
  }

  lemma HalvesAgree(x: bv32, y: bv32)
    requires Half(x) == Half(y) && Low(x) == Low(y)
    ensures x == y
  {
  }

  lemma PushBits(b: bool, p: bv32, n: nat)
    requires p <= 0x7FFF_FFFF && Fits(p, n)
    ensures Fits(Push(b, p), n + 1) && BitsOf(Push(b, p), n + 1) == [b] + BitsOf(p, n)
  {
    BelowTop(p);
    PushParts(b, p);
    hide Low, Half, Push;
  }

  lemma {:induction false} PackBits(bits: seq<bool>)
    requires |bits| <= 32
    ensures Fits(Pack(bits), |bits|) && BitsOf(Pack(bits), |bits|) == bits
  {
    if bits == [] {
    } else {
      hide Push, Fits, BitsOf;
      PackBits(bits[1..]);
      TopBitClear(Pack(bits[1..]), |bits| - 1);
      PushBits(bits[0], Pack(bits[1..]), |bits| - 1);
    }
  }

  lemma {:induction false} BitsOfInjective(x: bv32, y: bv32, n: nat)
    requires Fits(x, n) && Fits(y, n) && BitsOf(x, n) == BitsOf(y, n)
    ensures x == y
    decreases n
  {
    hide Low, Half;
    if n == 0 {
    } else {
      assert BitsOf(x, n)[0] == BitsOf(y, n)[0];
      assert BitsOf(x, n)[1..] == BitsOf(y, n)[1..];
      BitsOfInjective(Half(x), Half(y), n - 1);
      HalvesAgree(x, y);
    }
  }

  // ----- the step is onto

  predicate Top(y: bv32) {
    y & 0x8000_0000 != 0
  }

  // The register one step earlier. The generator has its top bit set, so the top bit of a register
  // tells whether the generator was added.
  function Unstep(y: bv32): bv32 {
    if Top(y) then Push(true, Xor(y, POLYNOMIAL)) else Push(false, y)
  }

  function Unshift(y: bv32, n: nat): bv32 {
    if n == 0 then y else Unstep(Unshift(y, n - 1))
  }

  lemma TopAfterUndo(y: bv32)
    ensures Top(y) ==> Xor(y, POLYNOMIAL) & 0x7FFF_FFFF == Xor(y, POLYNOMIAL)
    ensures !Top(y) ==> y & 0x7FFF_FFFF == y
  {
  }

  lemma StepOnto(y: bv32)
    ensures StepBit(Unstep(y)) == y
  {
    TopAfterUndo(y);
    PushParts(true, Xor(y, POLYNOMIAL));
    PushParts(false, y);
    hide Low, Half, Xor, Push, Top;
    XorTwice(y, POLYNOMIAL);
  }

  lemma {:induction false} ShiftOnto(y: bv32, n: nat)
    ensures Shift(Unshift(y, n), n) == y
  {
    hide StepBit, Unstep;
    if n == 0 {
    } else {
      StepOnto(Unshift(y, n - 1));
      ShiftOnto(y, n - 1);
    }
  }

  // Every register is reached by n bit steps from exactly one register.
  lemma ShiftInvertible(x: bv32, y: bv32, n: nat)
    ensures Shift(x, n) == y <==> x == Unshift(y, n)
  {
    ShiftOnto(y, n);
    ShiftInjective(x, Unshift(y, n), n);
  }

  // ----- feeding a stream

  lemma FeedNothing(c: bv32)
    ensures Feed([], c) == c
  {
  }

  lemma {:induction false} FeedAppend(a: seq<bool>, b: seq<bool>, c: bv32)
    ensures Feed(a + b, c) == Feed(b, Feed(a, c))
  {
    hide Xor, Bit, StepBit;
    if a == [] {
      assert a + b == b;
    } else {
      assert (a + b)[1..] == a[1..] + b;
      FeedAppend(a[1..], b, StepBit(Xor(c, Bit(a[0]))));
    }
  }

  // The register forgets nothing: different registers stay different over any common stream.
  lemma {:induction false} FeedInjective(bits: seq<bool>, c: bv32, d: bv32)
    ensures Feed(bits, c) == Feed(bits, d) <==> c == d
  {
    hide Xor, Bit, StepBit;
    if bits == [] {
    } else {
      var c', d' := Xor(c, Bit(bits[0])), Xor(d, Bit(bits[0]));
      XorCancel(Bit(bits[0]), c, d);
      StepInjective(c', d');
      FeedInjective(bits[1..], StepBit(c'), StepBit(d'));
    }
  }

  lemma WordParts(x: bv32)
    ensures x == Xor(Bit(Low(x)), (x >> 1) << 1)
    ensures Half((x >> 1) << 1) == Half(x) && !Low((x >> 1) << 1)
  {
  }

  lemma AbsorbStep(c: bv32, x: bv32)
    ensures StepBit(Xor(c, x)) == Xor(StepBit(Xor(c, Bit(Low(x)))), Half(x))
  {
    hide Low, Half, Xor, Bit;
    WordParts(x);
    var high := (x >> 1) << 1;
    XorRegroup(c, high, Bit(Low(x)));
    XorRegroup(Bit(Low(x)), high, c);
    XorCommutes(Bit(Low(x)), high);
    StepLinear(Xor(c, Bit(Low(x))), high);
  }

  // Feeding the n bits of a word is the same as adding the word first and then shifting n times.
  lemma {:induction false} FeedWord(x: bv32, n: nat, c: bv32)
    requires Fits(x, n)
    ensures Feed(BitsOf(x, n), c) == Shift(Xor(c, x), n)
    decreases n
  {
    if n == 0 {
      assert Xor(c, 0) == c;
    } else {
      hide Low, Half, Xor, Bit, StepBit;
      AbsorbStep(c, x);
      FeedWord(Half(x), n - 1, StepBit(Xor(c, Bit(Low(x)))));
      assert BitsOf(x, n)[1..] == BitsOf(Half(x), n - 1);
    }
  }

  // Two different windows of at most 32 bits never lead to the same register.
  lemma WindowInjective(u: seq<bool>, v: seq<bool>, c: bv32)
    requires |u| == |v| <= 32
    ensures Feed(u, c) == Feed(v, c) <==> u == v
  {
    hide *;
    PackBits(u);
    PackBits(v);
    FeedWord(Pack(u), |u|, c);
    FeedWord(Pack(v), |v|, c);
    ShiftInjective(Xor(c, Pack(u)), Xor(c, Pack(v)), |u|);
    XorCancel(c, Pack(u), Pack(v));
  }
}
