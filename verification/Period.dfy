/** The period of the shift register. In terms of polynomials: x, taken modulo the generator, has order
    2^32 - 1. The order is found by multiplication: that x to the 2^32 - 1 is one, and that no
    (2^32 - 1) / q is enough, for each of the prime factors q of 2^32 - 1. */
module Period {
  import opened CTypes
  import opened Gf2Register

  const PERIOD := 0xFFFF_FFFF

  // ----- multiplication

  // One turn of Horner's rule: add y if the low bit of a, its highest power, is present, and multiply
  // by x. Each function below takes twice as many turns as the one before it.
  function Turn(a: bv32, y: bv32, acc: bv32): bv32 {
    StepBit(if Low(a) then Xor(acc, y) else acc)
  }

  function TwoTurns(a: bv32, y: bv32, acc: bv32): bv32 {
    Turn(a >> 1, y, Turn(a, y, acc))
  }

  function FourTurns(a: bv32, y: bv32, acc: bv32): bv32 {
    TwoTurns(a >> 2, y, TwoTurns(a, y, acc))
  }

  function EightTurns(a: bv32, y: bv32, acc: bv32): bv32 {
    FourTurns(a >> 4, y, FourTurns(a, y, acc))
  }

  function SixteenTurns(a: bv32, y: bv32, acc: bv32): bv32 {
    EightTurns(a >> 8, y, EightTurns(a, y, acc))
  }

  // The product of two words and x.
  function Mul(a: bv32, y: bv32): bv32 {
    SixteenTurns(a >> 16, y, SixteenTurns(a, y, 0))
  }

  lemma {:induction false} ShiftAdd(x: bv32, m: nat, n: nat)
    ensures Shift(x, m + n) == Shift(Shift(x, m), n)
    decreases m
  {
    hide StepBit;
    if m == 0 {
    } else {
      ShiftAdd(StepBit(x), m - 1, n);
    }
  }

  lemma ShiftOne(x: bv32)
    ensures Shift(x, 1) == StepBit(x)
  {
    hide StepBit;
    assert Shift(StepBit(x), 0) == StepBit(x);
  }

  lemma ShiftLater(x: bv32, n: nat)
    ensures Shift(StepBit(x), n) == StepBit(Shift(x, n))
  {
    hide StepBit, Shift;
    ShiftOne(x);
    ShiftOne(Shift(x, n));
    ShiftAdd(x, 1, n);
    ShiftAdd(x, n, 1);
  }

  lemma {:induction false} ShiftZero(n: nat)
    ensures Shift(0, n) == 0
  {
    assert StepBit(0) == 0;
    hide StepBit;
    if n == 0 {
    } else {
      ShiftZero(n - 1);
    }
  }

  // Shifting a product is multiplying by the shifted factor: turn by turn, then twice as many each.
  lemma TurnShifts(a: bv32, y: bv32, acc: bv32, n: nat)
    ensures Shift(Turn(a, y, acc), n) == Turn(a, Shift(y, n), Shift(acc, n))
  {
    hide Xor, StepBit, Shift, Low;
    ShiftLater(if Low(a) then Xor(acc, y) else acc, n);
    ShiftLinear(acc, y, n);
  }

  lemma FourTurnsShift(a: bv32, y: bv32, acc: bv32, n: nat)
    ensures Shift(FourTurns(a, y, acc), n) == FourTurns(a, Shift(y, n), Shift(acc, n))
  {
    hide Turn, Shift;
    var once := Turn(a, y, acc);
    var twice := Turn(a >> 1, y, once);
    var thrice := Turn(a >> 2, y, twice);
    TurnShifts(a, y, acc, n);
    TurnShifts(a >> 1, y, once, n);
    TurnShifts(a >> 2, y, twice, n);
    TurnShifts((a >> 2) >> 1, y, thrice, n);
  }

  lemma SixteenTurnsShift(a: bv32, y: bv32, acc: bv32, n: nat)
    ensures Shift(SixteenTurns(a, y, acc), n) == SixteenTurns(a, Shift(y, n), Shift(acc, n))
  {
    hide FourTurns, Shift;
    var once := FourTurns(a, y, acc);
    var twice := FourTurns(a >> 4, y, once);
    var thrice := FourTurns(a >> 8, y, twice);
    FourTurnsShift(a, y, acc, n);
    FourTurnsShift(a >> 4, y, once, n);
    FourTurnsShift(a >> 8, y, twice, n);
    FourTurnsShift((a >> 8) >> 4, y, thrice, n);
  }

  lemma MulShifts(a: bv32, y: bv32, n: nat)
    ensures Shift(Mul(a, y), n) == Mul(a, Shift(y, n))
  {
    hide SixteenTurns, Shift;
    ShiftZero(n);
    SixteenTurnsShift(a, y, 0, n);
    SixteenTurnsShift(a >> 16, y, SixteenTurns(a, y, 0), n);
  }

  // Multiplying by the word 1, which is x^31, is feeding the bits of the other factor.
  lemma TurnFeeds(a: bv32, acc: bv32)
    ensures Turn(a, 1, acc) == Feed(BitsOf(a, 1), acc)
  {
    XorTwice(acc, 0);
    assert BitsOf(a, 1) == [Low(a)];
    hide Xor, StepBit, Low;
    var next := StepBit(Xor(acc, Bit(Low(a))));
    FeedNothing(next);
    assert [Low(a)][1..] == [];
  }

  lemma {:induction false} BitsSplit(a: bv32, m: nat, n: nat)
    ensures BitsOf(a, m + n) == BitsOf(a, m) + BitsOf(Halves(a, m), n)
    decreases m
  {
    hide Low, Half;
    if m == 0 {
    } else {
      BitsSplit(Half(a), m - 1, n);
    }
  }

  // Two runs of n turns are one of twice as many.
  lemma TurnsJoin(a: bv32, rest: bv32, acc: bv32, n: nat)
    requires rest == Halves(a, n)
    ensures Feed(BitsOf(rest, n), Feed(BitsOf(a, n), acc)) == Feed(BitsOf(a, n + n), acc)
  {
    hide Feed, BitsOf, Halves;
    BitsSplit(a, n, n);
    FeedAppend(BitsOf(a, n), BitsOf(rest, n), acc);
  }

  lemma OneHalf(a: bv32)
    ensures a >> 1 == Halves(a, 1)
  {
    assert Halves(a, 1) == Half(a);
  }

  lemma TwoTurnsFeed(a: bv32, acc: bv32)
    ensures TwoTurns(a, 1, acc) == Feed(BitsOf(a, 2), acc)
  {
    hide Turn, Feed, BitsOf;
    OneHalf(a);
    TurnFeeds(a, acc);
    TurnFeeds(a >> 1, Feed(BitsOf(a, 1), acc));
    TurnsJoin(a, a >> 1, acc, 1);
  }

  lemma FourTurnsFeed(a: bv32, acc: bv32)
    ensures FourTurns(a, 1, acc) == Feed(BitsOf(a, 4), acc)
  {
    hide Turn, Feed, BitsOf;
    OneHalf(a);
    OneHalf(a >> 2);
    TwoHalves(a);
    TwoTurnsFeed(a, acc);
    TwoTurnsFeed(a >> 2, Feed(BitsOf(a, 2), acc));
    TurnsJoin(a, a >> 2, acc, 2);
  }

  lemma EightTurnsFeed(a: bv32, acc: bv32)
    ensures EightTurns(a, 1, acc) == Feed(BitsOf(a, 8), acc)
  {
    hide FourTurns, Feed, BitsOf, Halves;
    FourTurnsFeed(a, acc);
    FourTurnsFeed(a >> 4, Feed(BitsOf(a, 4), acc));
    FourHalves(a);
    TurnsJoin(a, a >> 4, acc, 4);
  }

  lemma SixteenTurnsFeed(a: bv32, acc: bv32)
    ensures SixteenTurns(a, 1, acc) == Feed(BitsOf(a, 16), acc)
  {
    hide FourTurns, Feed, BitsOf, Halves;
    EightTurnsFeed(a, acc);
    EightTurnsFeed(a >> 8, Feed(BitsOf(a, 8), acc));
    EightHalves(a);
    TurnsJoin(a, a >> 8, acc, 8);
  }

  lemma MulOne(a: bv32)
    ensures Mul(a, 1) == Shift(a, 32)
  {
    hide SixteenTurns, Feed, BitsOf, Halves, Xor, Shift, Fits, LowMask;
    FitsIsBound(a, 32);
    LowMaskValues();
    XorTwice(0, a);
    SixteenHalves(a);
    SixteenTurnsFeed(a, 0);
    SixteenTurnsFeed(a >> 16, Feed(BitsOf(a, 16), 0));
    TurnsJoin(a, a >> 16, 0, 16);
    FeedWord(a, 32, 0);
  }

  // Multiplying by a power of x is shifting.
  lemma MulPower(a: bv32, n: nat)
    ensures Mul(a, Shift(1, n)) == Shift(a, n + 32)
  {
    hide Mul, Shift;
    MulOne(a);
    MulShifts(a, 1, n);
    ShiftAdd(a, 32, n);
  }

  // ----- powers of x

  // x to the t - 1 is v, the word 1 being x to the 31; so powers multiply by adding the t.
  ghost predicate PowerIs(t: nat, v: bv32) {
    t >= 32 && Shift(1, t - 32) == v
  }

  lemma Multiply(s: nat, t: nat, a: bv32, b: bv32, p: bv32)
    requires PowerIs(s, a) && PowerIs(t, b) && Mul(a, b) == p
    ensures PowerIs(s + t, p)
  {
    hide Mul, Shift;
    MulPower(a, t - 32);
    ShiftAdd(1, s - 32, t);
  }

  lemma Next(t: nat, a: bv32, p: bv32)
    requires PowerIs(t, a) && StepBit(a) == p
    ensures PowerIs(t + 1, p)
  {
    hide StepBit, Shift;
    ShiftOne(a);
    ShiftAdd(1, t - 32, 1);
  }

  lemma OneIsPower()
    ensures PowerIs(32, 0x00000001)
  {
  }

  // Each line below is one multiplication, whose factors and result are given as words.

  lemma HalfOfSquare()
    ensures SixteenTurns(1, 1, 0) == 0x191B3141
  {
  }

  lemma ThirdQuarterOfSquare()
    ensures EightTurns(0, 1, 0x191B3141) == 0x01C26A37
  {
  }

  lemma LastQuarterOfSquare()
    ensures EightTurns(0, 1, 0x01C26A37) == 0xB8BC6765
  {
  }

  lemma OtherHalfOfSquare()
    ensures SixteenTurns(0, 1, 0x191B3141) == 0xB8BC6765
  {
    hide EightTurns;
    ThirdQuarterOfSquare();
    LastQuarterOfSquare();
  }

  lemma SquareOfOne()
    ensures PowerIs(64, 0xB8BC6765)
  {
    hide PowerIs, Shift, SixteenTurns;
    OneIsPower();
    HalfOfSquare();
    OtherHalfOfSquare();
    Multiply(32, 32, 0x00000001, 0x00000001, 0xB8BC6765);
  }

  lemma SquaresToEight()
    ensures PowerIs(256, 0x01B5FD1D)
  {
    hide PowerIs, Shift;
    SquareOfOne();
    Multiply(64, 64, 0xB8BC6765, 0xB8BC6765, 0x9BA54C6F);
    Multiply(128, 128, 0x9BA54C6F, 0x9BA54C6F, 0x01B5FD1D);
  }

  lemma SquaresToTwelve()
    ensures PowerIs(4096, 0xC78C44A1)
  {
    hide PowerIs, Shift;
    SquaresToEight();
    Multiply(256, 256, 0x01B5FD1D, 0x01B5FD1D, 0xCAD38E8F);
    Multiply(512, 512, 0xCAD38E8F, 0xCAD38E8F, 0x7406FA95);
    Multiply(1024, 1024, 0x7406FA95, 0x7406FA95, 0x03F9F863);
    Multiply(2048, 2048, 0x03F9F863, 0x03F9F863, 0xC78C44A1);
  }

  lemma SquaresToSixteen()
    ensures PowerIs(65536, 0xDC7B5C5F)
  {
    hide PowerIs, Shift;
    SquaresToTwelve();
    Multiply(4096, 4096, 0xC78C44A1, 0xC78C44A1, 0xC84F001C);
    Multiply(8192, 8192, 0xC84F001C, 0xC84F001C, 0x9A8F75C0);
    Multiply(16384, 16384, 0x9A8F75C0, 0x9A8F75C0, 0x13FCA91E);
    Multiply(32768, 32768, 0x13FCA91E, 0x13FCA91E, 0xDC7B5C5F);
  }

  lemma SquaresToTwentyFour()
    ensures PowerIs(16777216, 0xAEC31A2F)
  {
    hide PowerIs, Shift;
    SquaresToSixteen();
    Multiply(65536, 65536, 0xDC7B5C5F, 0xDC7B5C5F, 0x606C5E34);
    Multiply(131072, 131072, 0x606C5E34, 0x606C5E34, 0xF6B53986);
    Multiply(262144, 262144, 0xF6B53986, 0xF6B53986, 0x63FD82D2);
    Multiply(524288, 524288, 0x63FD82D2, 0x63FD82D2, 0xE4A90215);
    Multiply(1048576, 1048576, 0xE4A90215, 0xE4A90215, 0xD91BDB88);
    Multiply(2097152, 2097152, 0xD91BDB88, 0xD91BDB88, 0x2BAD0E9A);
    Multiply(4194304, 4194304, 0x2BAD0E9A, 0x2BAD0E9A, 0xBFBCF49C);
    Multiply(8388608, 8388608, 0xBFBCF49C, 0xBFBCF49C, 0xAEC31A2F);
  }

  lemma SquaresToThirtyTwo()
    ensures PowerIs(4294967296, 0x80000000)
  {
    hide PowerIs, Shift;
    SquaresToTwentyFour();
    Multiply(16777216, 16777216, 0xAEC31A2F, 0xAEC31A2F, 0x5C9CBDDE);
    Multiply(33554432, 33554432, 0x5C9CBDDE, 0x5C9CBDDE, 0x9D574428);
    Multiply(67108864, 67108864, 0x9D574428, 0x9D574428, 0x8A39E3C1);
    Multiply(134217728, 134217728, 0x8A39E3C1, 0x8A39E3C1, 0x85352D3C);
    Multiply(268435456, 268435456, 0x85352D3C, 0x85352D3C, 0x291A6054);
    Multiply(536870912, 536870912, 0x291A6054, 0x291A6054, 0x53664BE1);
    Multiply(1073741824, 1073741824, 0x53664BE1, 0x53664BE1, 0x52B55E39);
    Multiply(2147483648, 2147483648, 0x52B55E39, 0x52B55E39, 0x80000000);
  }

  lemma PowersOf65537()
    ensures PowerIs(65537, 0x83852D0F)
    ensures PowerIs(16777472, 0x8C61AA34)
  {
    hide PowerIs, Shift;
    SquaresToSixteen();
    Next(65536, 0xDC7B5C5F, 0x83852D0F);
    Multiply(65537, 65537, 0x83852D0F, 0x83852D0F, 0x181B178D);
    Multiply(131074, 131074, 0x181B178D, 0x181B178D, 0x42D932C0);
    Multiply(262148, 262148, 0x42D932C0, 0x42D932C0, 0x68BE4E7A);
    Multiply(524296, 524296, 0x68BE4E7A, 0x68BE4E7A, 0xD9BB6391);
    Multiply(1048592, 1048592, 0xD9BB6391, 0xD9BB6391, 0xFF08E5EF);
    Multiply(2097184, 2097184, 0xFF08E5EF, 0xFF08E5EF, 0xFDECCF41);
    Multiply(4194368, 4194368, 0xFDECCF41, 0xFDECCF41, 0x5D6C68A0);
    Multiply(8388736, 8388736, 0x5D6C68A0, 0x5D6C68A0, 0x8C61AA34);
  }

  lemma PowersOf257()
    ensures PowerIs(16843009, 0x62D6B742)
    ensures PowerIs(269488144, 0x18507940)
  {
    hide PowerIs, Shift;
    PowersOf65537();
    Multiply(16777472, 65537, 0x8C61AA34, 0x83852D0F, 0x62D6B742);
    Multiply(16843009, 16843009, 0x62D6B742, 0x62D6B742, 0xB6433638);
    Multiply(33686018, 33686018, 0xB6433638, 0xB6433638, 0x860FA909);
    Multiply(67372036, 67372036, 0x860FA909, 0x860FA909, 0xFB6FC4C0);
    Multiply(134744072, 134744072, 0xFB6FC4C0, 0xFB6FC4C0, 0x18507940);
  }

  lemma PowersOf17()
    ensures PowerIs(286331153, 0x7A86CE02)
    ensures PowerIs(1145324612, 0xA1F7C843)
    ensures PowerIs(1431655765, 0x551CD0E5)
  {
    hide PowerIs, Shift;
    PowersOf257();
    Multiply(269488144, 16843009, 0x18507940, 0x62D6B742, 0x7A86CE02);
    Multiply(286331153, 286331153, 0x7A86CE02, 0x7A86CE02, 0x2F9A1EE7);
    Multiply(572662306, 572662306, 0x2F9A1EE7, 0x2F9A1EE7, 0xA1F7C843);
    Multiply(1145324612, 286331153, 0xA1F7C843, 0x7A86CE02, 0x551CD0E5);
  }

  // n bit steps take the word 1 back to itself: x to the n is one.
  ghost predicate Returns(n: nat) {
    Shift(1, n) == 1
  }

  lemma SamePower(s: nat, n: nat, a: bv32, b: bv32)
    requires PowerIs(s, a) && PowerIs(s + n, b)
    ensures a == b <==> Returns(n)
  {
    hide Shift;
    ShiftAdd(1, n, s - 32);
    ShiftInjective(Shift(1, n), 1, s - 32);
  }

  lemma PeriodReturns()
    ensures Returns(PERIOD)
  {
    hide PowerIs, Returns, Shift;
    OneIsPower();
    Next(32, 0x00000001, 0xEDB88320);
    SquaresToThirtyTwo();
    Multiply(4294967296, 32, 0x80000000, 0x00000001, 0xEDB88320);
    SamePower(33, PERIOD, 0xEDB88320, 0xEDB88320);
  }

  // No quotient of the period by one of its prime factors returns.
  lemma QuotientsDoNotReturn()
    ensures !Returns(PERIOD / 65537) && !Returns(PERIOD / 257) && !Returns(PERIOD / 17)
    ensures !Returns(PERIOD / 5) && !Returns(PERIOD / 3)
  {
    hide PowerIs, Returns, Shift;
    OneIsPower();
    Next(32, 0x00000001, 0xEDB88320);
    SquaresToSixteen();
    Multiply(65536, 32, 0xDC7B5C5F, 0x00000001, 0xB566F6E2);
    SamePower(33, 65535, 0xEDB88320, 0xB566F6E2);
    PowersOf65537();
    SamePower(65537, 255 * 65537, 0x83852D0F, 0x8C61AA34);
    PowersOf257();
    SamePower(16843009, 15 * 16843009, 0x62D6B742, 0x18507940);
    PowersOf17();
    SamePower(286331153, 3 * 286331153, 0x7A86CE02, 0xA1F7C843);
    Multiply(1431655765, 32, 0x551CD0E5, 0x00000001, 0x915E7C1C);
    SamePower(32, 5 * 286331153, 0x00000001, 0x915E7C1C);
  }

  // ----- the multiples of the least return

  lemma ReturnsSum(m: nat, n: nat)
    requires Returns(m)
    ensures Returns(m + n) <==> Returns(n)
  {
    hide Shift;
    ShiftAdd(1, m, n);
  }

  lemma {:induction false} ReturnsMultiple(d: nat, k: nat)
    requires Returns(d)
    ensures Returns(k * d)
    decreases k
  {
    if k == 0 {
    } else {
      ReturnsMultiple(d, k - 1);
      assert k * d == d + (k - 1) * d;
      hide Returns;
      ReturnsSum(d, (k - 1) * d);
    }
  }

  lemma ReturnsRemainder(d: nat, n: nat)
    requires d > 0 && Returns(d)
    ensures Returns(n % d) <==> Returns(n)
  {
    hide Returns;
    ReturnsMultiple(d, n / d);
    assert n == n / d * d + n % d;
    ReturnsSum(n / d * d, n % d);
  }

  lemma {:induction false} LeastReturn(n: nat) returns (d: nat)
    requires n > 0 && Returns(n)
    ensures d > 0 && Returns(d) && forall k :: 0 < k < d ==> !Returns(k)
    decreases n
  {
    if k :| 0 < k < n && Returns(k) {
      d := LeastReturn(k);
    } else {
      d := n;
    }
  }

  // A number that is prime, or one.
  ghost predicate NoFactors(p: nat) {
    forall k :: 1 < k < p ==> p % k != 0
  }

  lemma MultipleOf(b: nat, p: nat, m: int)
    requires p > 0 && b == p * m
    ensures b % p == 0
  {
    var q, r := b / p, b % p;
    assert p * (m - q) == r;
    OnlyZeroMultiple(p, m - q);
  }

  predicate EightIndivisible(p: nat, k: nat)
    requires k > 0
  {
    && p % k != 0 && p % (k + 1) != 0 && p % (k + 2) != 0 && p % (k + 3) != 0
    && p % (k + 4) != 0 && p % (k + 5) != 0 && p % (k + 6) != 0 && p % (k + 7) != 0
  }

  // A prime that divides a product divides one of its factors.
  lemma {:induction false} Euclid(p: nat, a: nat, b: nat, m: int)
    requires p > 1 && NoFactors(p) && a * b == p * m && 0 < a < p
    ensures b % p == 0
    decreases a
  {
    if a == 1 {
      MultipleOf(b, p, m);
    } else {
      var r, k := p % a, p / a;
      assert r * b == p * (b - k * m) by {
        assert r == p - a * k;
        assert r * b == p * b - (a * k) * b;
        assert (a * k) * b == k * (a * b) == k * (p * m) == p * (k * m);
      }
      Euclid(p, r, b, b - k * m);
    }
  }

  predicate Indivisible(p: nat, k: nat)
    requires k > 0
  {
    && EightIndivisible(p, k) && EightIndivisible(p, k + 8) && EightIndivisible(p, k + 16) && EightIndivisible(p, k + 24)
    && EightIndivisible(p, k + 32) && EightIndivisible(p, k + 40) && EightIndivisible(p, k + 48) && EightIndivisible(p, k + 56)
  }

  ghost predicate NoFactorBelow(p: nat, n: nat) {
    forall k :: 1 < k < n ==> p % k != 0
  }

  lemma EightMore(p: nat, n: nat)
    requires n > 1
    ensures NoFactorBelow(p, n) && EightIndivisible(p, n) ==> NoFactorBelow(p, n + 8)
  {
    if EightIndivisible(p, n) {
      forall k | n <= k < n + 8
        ensures p % k != 0
      {
        assert k in {n, n + 1, n + 2, n + 3, n + 4, n + 5, n + 6, n + 7};
      }
    }
  }

  lemma SixtyFourMore(p: nat, n: nat)
    requires n > 1
    ensures NoFactorBelow(p, n) && Indivisible(p, n) ==> NoFactorBelow(p, n + 64)
  {
    hide NoFactorBelow, EightIndivisible;
    EightMore(p, n);
    EightMore(p, n + 8);
    EightMore(p, n + 16);
    EightMore(p, n + 24);
    EightMore(p, n + 32);
    EightMore(p, n + 40);
    EightMore(p, n + 48);
    EightMore(p, n + 56);
  }

  lemma SmallerFactor(k: nat, c: nat, n: nat)
    requires 1 < k < k * c < n * n
    ensures 1 < c && (k < n || c < n)
  {
    if c <= 1 {
      ProductOrder(k, c, 1);
    }
    if n <= k && n <= c {
      ProductOrder(n, n, c);
      ProductOrder(c, n, k);
    }
  }

  // A number has no factors if it has none up to its square root.
  lemma SquareRootSuffices(p: nat, n: nat)
    requires NoFactorBelow(p, n) && p < n * n
    ensures NoFactors(p)
  {
    forall k | 1 < k < p
      ensures p % k != 0
    {
      if p % k == 0 {
        var c := p / k;
        assert p == k * c;
        MultipleOf(p, c, k);
        SmallerFactor(k, c, n);
      }
    }
  }

  lemma SmallPrimes()
    ensures NoFactors(17) && NoFactors(5) && NoFactors(3)
  {
    assert NoFactors(3);
    assert NoFactors(5);
    assert NoFactors(17);
  }

  lemma Prime257()
    ensures NoFactors(257)
  {
    hide NoFactors;
    assert NoFactorBelow(257, 2);
    hide NoFactorBelow;
    EightMore(257, 2);
    EightMore(257, 10);
    SquareRootSuffices(257, 18);
  }

  lemma FewFactors()
    ensures Indivisible(65537, 2) && Indivisible(65537, 66)
  {
  }

  lemma FewMoreFactors()
    ensures Indivisible(65537, 130) && Indivisible(65537, 194)
  {
  }

  lemma Prime65537()
    ensures NoFactors(65537)
  {
    hide NoFactors, Indivisible;
    FewFactors();
    FewMoreFactors();
    assert NoFactorBelow(65537, 2);
    hide NoFactorBelow;
    SixtyFourMore(65537, 2);
    SixtyFourMore(65537, 66);
    SixtyFourMore(65537, 130);
    SixtyFourMore(65537, 194);
    SquareRootSuffices(65537, 258);
  }

  // Taking a prime that does not divide e out of a product d * e.
  lemma TakeOut(p: nat, d: nat, e: nat, m: nat) returns (d': nat)
    requires p > 1 && NoFactors(p) && d * e == p * m && e % p != 0
    ensures d == p * d' && d' * e == m
  {
    var r, k := e % p, e / p;
    assert e == p * k + r;
    assert r * d == p * (m - k * d) by {
      assert d * e == d * (p * k) + d * r;
      assert d * (p * k) == p * (k * d);
    }
    Euclid(p, r, d, m - k * d);
    d' := d / p;
    assert p * (d' * e - m) == 0 by {
      assert d * e == (p * d') * e == p * (d' * e);
    }
    OnlyZeroMultiple(p, d' * e - m);
  }

  // If no prime factor of the period divides e, then e is one.
  lemma CofactorIsOne(d: nat, e: nat)
    requires d * e == PERIOD && e % 65537 != 0 && e % 257 != 0 && e % 17 != 0 && e % 5 != 0 && e % 3 != 0
    ensures e == 1
  {
    hide NoFactors;
    SmallPrimes();
    Prime257();
    Prime65537();
    var d1 := TakeOut(65537, d, e, 65535);
    var d2 := TakeOut(257, d1, e, 255);
    var d3 := TakeOut(17, d2, e, 15);
    var d4 := TakeOut(5, d3, e, 3);
    var d5 := TakeOut(3, d4, e, 1);
    if e > 1 {
      ProductOrder(e, 1, d5);
    }
  }

  // If q divides the number of times d goes into the period, the quotient by q is a multiple of d.
  lemma QuotientReturns(d: nat, e: nat, q: nat, m: nat)
    requires Returns(d) && d * e == PERIOD == q * m && q > 0 && e % q == 0
    ensures Returns(m)
  {
    var f := e / q;
    assert e == q * f;
    assert q * (f * d - m) == 0 by {
      assert d * e == d * (q * f) == q * (f * d);
    }
    OnlyZeroMultiple(q, f * d - m);
    hide Returns;
    ReturnsMultiple(d, f);
  }

  lemma UnitStays()
    ensures Returns(0)
  {
  }

  // The word 1 comes back exactly at the multiples of 2^32 - 1.
  lemma ReturnsExactly(n: nat)
    ensures Returns(n) <==> n % PERIOD == 0
  {
    hide Returns;
    PeriodReturns();
    ReturnsRemainder(PERIOD, n);
    var d := LeastReturn(PERIOD);
    ReturnsRemainder(d, PERIOD);
    var e := PERIOD / d;
    assert d * e == PERIOD;
    QuotientsDoNotReturn();
    if e % 65537 == 0 {
      QuotientReturns(d, e, 65537, PERIOD / 65537);
    }
    if e % 257 == 0 {
      QuotientReturns(d, e, 257, PERIOD / 257);
    }
    if e % 17 == 0 {
      QuotientReturns(d, e, 17, PERIOD / 17);
    }
    if e % 5 == 0 {
      QuotientReturns(d, e, 5, PERIOD / 5);
    }
    if e % 3 == 0 {
      QuotientReturns(d, e, 3, PERIOD / 3);
    }
    CofactorIsOne(d, e);
    if n % PERIOD == 0 {
      UnitStays();
    }
  }

  lemma ShiftsBack(c: bv32, n: nat)
    requires Returns(n)
    ensures Shift(c, n) == c
  {
    hide Shift, Mul;
    MulPower(c, n);
    MulOne(c);
    ShiftAdd(c, n, 32);
    ShiftInjective(Shift(c, n), c, 32);
  }

  // n bit steps change nothing, in any register, exactly when n is a multiple of 2^32 - 1.
  lemma PeriodExact(n: nat)
    ensures (forall c: bv32 :: Shift(c, n) == c) <==> n % PERIOD == 0
  {
    hide StepBit;
    ReturnsExactly(n);
    if n % PERIOD == 0 {
      forall c: bv32
        ensures Shift(c, n) == c
      {
        ShiftsBack(c, n);
      }
    } else {
      assert Shift(1, n) != 1;
    }
  }
}
