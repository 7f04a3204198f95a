/** The CRC register as a polynomial remainder: long division over GF(2), written on bit lists
    with the highest power first, as an independent definition of what the register computes. */
module CrcPolynomial {
  import opened Gf2Register

  // The coefficients of the generator below x^32, from x^31 down to x^0.
  function Generator(): (g: seq<bool>)
    ensures |g| == 32
  {
    BitsOf(POLYNOMIAL, 32)
  }

  // Addition of polynomials with coefficients in GF(2).
  function Add(a: seq<bool>, b: seq<bool>): (sum: seq<bool>)
    requires |a| == |b|
    ensures |sum| == |a|
  {
    seq(|a|, i requires 0 <= i < |a| => a[i] != b[i])
  }

  function Zeros(n: nat): (z: seq<bool>)
    ensures |z| == n
  {
    seq(n, _ => false)
  }

  // Textbook long division: while the dividend has degree 32 or more, subtract the generator under
  // its leading term if that term is present, and move on to the next power.
  function Remainder(dividend: seq<bool>): (r: seq<bool>)
    requires |dividend| >= 32
    ensures |r| == 32
    decreases |dividend|
  {
    if |dividend| == 32 then dividend
    else if dividend[0] then Remainder(Add(dividend[1..33], Generator()) + dividend[33..])
    else Remainder(dividend[1..])
  }

  // The message times x^32, with an initial register added to its 32 leading coefficients.
  function Dividend(bits: seq<bool>, register: seq<bool>): (d: seq<bool>)
    requires |register| == 32
    ensures |d| == |bits| + 32
  {
    Add(bits + Zeros(32), register + Zeros(|bits|))
  }

  // The register one power further on, after the leading message bit has been added to it.
  function Advance(b: bool, register: seq<bool>): (next: seq<bool>)
    requires |register| == 32
    ensures |next| == 32
  {
    var moved := register[1..] + [false];
    if b != register[0] then Add(moved, Generator()) else moved
  }

  lemma {:induction false} BitsOfXor(x: bv32, y: bv32, n: nat)
    ensures BitsOf(Xor(x, y), n) == Add(BitsOf(x, n), BitsOf(y, n))
    decreases n
  {
    hide Low, Half, Xor;
    if n == 0 {
    } else {
      XorParts(x, y);
      BitsOfXor(Half(x), Half(y), n - 1);
    }
  }

  lemma {:induction false} BitsOfWider(x: bv32, n: nat)
    requires Fits(x, n)
    ensures BitsOf(x, n + 1) == BitsOf(x, n) + [false]
    decreases n
  {
    if n == 0 {
      assert !Low(0);
    } else {
      hide Low, Half;
      BitsOfWider(Half(x), n - 1);
    }
  }

  lemma HalfFits(x: bv32)
    ensures Fits(Half(x), 31)
  {
    FitsIsBound(Half(x), 31);
    LowMaskValues();
  }

  lemma BitLow(c: bv32, b: bool)
    ensures Half(Xor(c, Bit(b))) == Half(c)
    ensures Low(Xor(c, Bit(b))) <==> Low(c) != b
  {
  }

  lemma StepCoefficients(c: bv32)
    ensures BitsOf(StepBit(c), 32) == Advance(false, BitsOf(c, 32))
  {
    hide Low, Half, Xor;
    HalfFits(c);
    BitsOfWider(Half(c), 31);
    assert BitsOf(c, 32) == [Low(c)] + BitsOf(Half(c), 31);
    BitsOfXor(Half(c), POLYNOMIAL, 32);
  }

  // One register step on a message bit, read as coefficients.
  lemma FeedCoefficients(b: bool, c: bv32)
    ensures BitsOf(StepBit(Xor(c, Bit(b))), 32) == Advance(b, BitsOf(c, 32))
  {
    var c' := Xor(c, Bit(b));
    BitLow(c, b);
    hide Low, Half, Xor, Bit, StepBit, Generator;
    StepCoefficients(c');
    assert BitsOf(c, 32) == [Low(c)] + BitsOf(Half(c), 31);
    assert BitsOf(c', 32) == [Low(c')] + BitsOf(Half(c), 31);
  }

  // One step of long division on the dividend.
  lemma DivisionStep(bits: seq<bool>, register: seq<bool>)
    requires bits != [] && |register| == 32
    ensures Remainder(Dividend(bits, register)) == Remainder(Dividend(bits[1..], Advance(bits[0], register)))
  {
    hide Generator;
    var d := Dividend(bits, register);
    var d' := Dividend(bits[1..], Advance(bits[0], register));
    assert d[1..33] == Add(bits[1..] + Zeros(32), register[1..] + [false] + Zeros(|bits| - 1))[..32];
    if d[0] {
      assert Add(d[1..33], Generator()) + d[33..] == d';
    } else {
      assert d[1..] == d';
    }
  }

  // Read from bit 0 up, the register is the remainder of the message polynomial times x^32, the
  // initial value added to its leading coefficients, divided by the generator.
  lemma {:induction false} RegisterIsRemainder(bits: seq<bool>, c: bv32)
    ensures BitsOf(Feed(bits, c), 32) == Remainder(Dividend(bits, BitsOf(c, 32)))
  {
    hide Low, Half, Xor, Bit, StepBit, BitsOf;
    if bits == [] {
      assert Dividend(bits, BitsOf(c, 32)) == BitsOf(c, 32);
    } else {
      FeedCoefficients(bits[0], c);
      DivisionStep(bits, BitsOf(c, 32));
      RegisterIsRemainder(bits[1..], StepBit(Xor(c, Bit(bits[0]))));
    }
  }
}
