/** Fixed-width C integers, little-endian memory images and C's bitwise operators on unsigned words. */
module CTypes {

  const TWO_32 := 0x1_0000_0000
  const TWO_64 := 0x1_0000_0000_0000_0000

  type uint8 = x: int | 0 <= x < 256
  type uint32 = x: int | 0 <= x < TWO_32
  type uint64 = x: int | 0 <= x < TWO_64

  // What a pointer argument points to, or null.
  datatype Option<T> = None | Some(value: T)

  // 2^n, and 256^n for byte counts.
  function Pow2(n: nat): (p: nat)
    ensures p > 0
  {
    if n == 0 then 1 else 2 * Pow2(n - 1)
  }

  function Pow256(n: nat): (p: nat)
    ensures p > 0
  {
    if n == 0 then 1 else 256 * Pow256(n - 1)
  }

  lemma Pow256Values()
    ensures Pow256(4) == TWO_32 && Pow256(8) == TWO_64
  {
    assert Pow256(4) == TWO_32;
  }

  // What memcpy into an unsigned integer reads on a little-endian host.
  function FromLittleEndian(bytes: seq<uint8>): (n: nat)
    ensures n < Pow256(|bytes|)
  {
    if bytes == [] then 0 else bytes[0] + 256 * FromLittleEndian(bytes[1..])
  }

  function ToLittleEndian(n: nat, width: nat): (bytes: seq<uint8>)
    ensures |bytes| == width
    decreases width
  {
    if width == 0 then [] else [n % 256] + ToLittleEndian(n / 256, width - 1)
  }

  lemma {:induction false} LittleEndianRoundTrip(n: nat, width: nat)
    requires n < Pow256(width)
    ensures FromLittleEndian(ToLittleEndian(n, width)) == n
    decreases width
  {
    if width == 0 {
    } else {
      LittleEndianRoundTrip(n / 256, width - 1);
    }
  }

  // The byte order: the first byte of a word has weight one.
  lemma FourByteWeights(a: uint8, b: uint8, c: uint8, d: uint8)
    ensures FromLittleEndian([a, b, c, d]) == a + 0x100 * b + 0x1_0000 * c + 0x100_0000 * d
  {
    assert FromLittleEndian([d]) == d;
    assert FromLittleEndian([c, d]) == c + 256 * FromLittleEndian([d]);
    assert FromLittleEndian([b, c, d]) == b + 256 * FromLittleEndian([c, d]);
  }

  // In eight bytes, the last four weigh 2^32 times as much as in a word of their own.
  lemma EightByteWeights(bytes: seq<uint8>)
    requires |bytes| == 8
    ensures FromLittleEndian(bytes) == FromLittleEndian(bytes[..4]) + TWO_32 * FromLittleEndian(bytes[4..])
  {
    var low, high := bytes[..4], bytes[4..];
    assert bytes == [bytes[0], bytes[1], bytes[2], bytes[3]] + high;
    FourByteWeights(bytes[0], bytes[1], bytes[2], bytes[3]);
    assert low == [bytes[0], bytes[1], bytes[2], bytes[3]];
    assert bytes[1..][1..][1..][1..] == high;
    assert FromLittleEndian(bytes) == bytes[0] + 256 * FromLittleEndian(bytes[1..]);
    assert FromLittleEndian(bytes[1..]) == bytes[1] + 256 * FromLittleEndian(bytes[1..][1..]);
    assert FromLittleEndian(bytes[1..][1..]) == bytes[2] + 256 * FromLittleEndian(bytes[1..][1..][1..]);
    assert FromLittleEndian(bytes[1..][1..][1..]) == bytes[3] + 256 * FromLittleEndian(bytes[1..][1..][1..][1..]);
  }

  // ----- unsigned bitwise operators, bit by bit

  // C's x & y.
  function And(x: nat, y: nat): nat
    decreases x
  {
    if x == 0 then 0 else 2 * And(x / 2, y / 2) + (if x % 2 == 1 && y % 2 == 1 then 1 else 0)
  }

  // C's ~x on an unsigned type of the given width.
  function Complement(x: nat, width: nat): (r: nat)
    requires x < Pow2(width)
  {
    Pow2(width) - 1 - x
  }

  lemma {:induction false} AndZero(x: nat)
    ensures And(x, 0) == 0
  {
    if x == 0 {
    } else {
      AndZero(x / 2);
    }
  }

  lemma SmallMod(x: nat, m: nat)
    requires x < m
    ensures x % m == x
  {
  }

  lemma OnlyZeroMultiple(m: int, d: int)
    requires -m < m * d < m
    ensures d == 0
  {
  }

  lemma ModUnique(x: nat, m: nat, q: nat, r: nat)
    requires m > 0 && r < m && x == m * q + r
    ensures x % m == r && x / m == q
  {
    assert m * (q - x / m) == x % m - r;
    OnlyZeroMultiple(m, q - x / m);
  }

  lemma HalfMod(x: nat, p: nat)
    requires p > 0
    ensures x % (2 * p) == 2 * ((x / 2) % p) + x % 2
  {
    var q, r := (x / 2) / p, (x / 2) % p;
    assert x / 2 == p * q + r;
    assert x == 2 * p * q + (2 * r + x % 2);
    ModUnique(x, 2 * p, q, 2 * r + x % 2);
  }

  // Masking with 2^k - 1 keeps the remainder modulo 2^k.
  lemma {:induction false} AndLowMask(x: nat, k: nat)
    ensures And(x, Pow2(k) - 1) == x % Pow2(k)
    decreases k
  {
    if k == 0 {
      AndZero(x);
    } else {
      AndLowMask(x / 2, k - 1);
      HalfMod(x, Pow2(k - 1));
      assert (Pow2(k) - 1) / 2 == Pow2(k - 1) - 1;
    }
  }

  lemma ProductOrder(m: int, a: int, b: int)
    requires m >= 0
    ensures a <= b ==> m * a <= m * b
  {
  }

  lemma {:induction false} AndEven(x: nat, m: nat)
    ensures And(x, 2 * m) == 2 * And(x / 2, m)
  {
  }

  // Masking with b - a, for powers of two a <= b, keeps the bits of x between them.
  ghost predicate KeepsBetween(x: nat, a: nat, b: nat) {
    0 < a <= b && And(x, b - a) == x % b - x % a
  }

  lemma KeepsBetweenDouble(x: nat, a: nat, b: nat)
    ensures KeepsBetween(x / 2, a, b) ==> KeepsBetween(x, 2 * a, 2 * b)
  {
    hide And;
    if KeepsBetween(x / 2, a, b) {
      AndEven(x, b - a);
      HalfMod(x, a);
      HalfMod(x, b);
    }
  }

  lemma {:induction false} PowersKeepBetween(x: nat, k: nat, w: nat)
    requires k <= w
    ensures KeepsBetween(x, Pow2(k), Pow2(w))
    decreases w
  {
    if k == 0 {
      AndLowMask(x, w);
    } else {
      hide KeepsBetween;
      PowersKeepBetween(x / 2, k - 1, w - 1);
      KeepsBetweenDouble(x, Pow2(k - 1), Pow2(w - 1));
    }
  }

  // Masking with the complement of 2^k - 1, taken in w bits, clears the low k bits and every bit
  // from position w up.
  lemma AndHighMask(x: nat, k: nat, w: nat)
    requires k <= w
    ensures Pow2(k) <= Pow2(w)
    ensures And(x, Complement(Pow2(k) - 1, w)) == x % Pow2(w) - x % Pow2(k)
  {
    hide Pow2, And;
    PowersKeepBetween(x, k, w);
  }

  lemma {:induction false} AndComplement(x: nat, w: nat)
    requires x < Pow2(w)
    ensures And(x, Complement(x, w)) == 0
    decreases x
  {
    if x == 0 {
    } else {
      assert Complement(x, w) / 2 == Complement(x / 2, w - 1);
      AndComplement(x / 2, w - 1);
    }
  }

  // Masking a number with the complement of the one before it keeps only its lowest set bit, so what
  // comes through unchanged is a power of two.
  lemma {:induction false} LowestBit(b: nat, w: nat)
    requires 0 < b < Pow2(w)
    ensures And(b, Complement(b - 1, w)) == b ==> exists k: nat :: b == Pow2(k)
    decreases b
  {
    var mask := Complement(b - 1, w);
    if b == 1 {
      assert b == Pow2(0);
    } else if b % 2 == 1 {
      assert mask / 2 == Complement(b / 2, w - 1);
      AndComplement(b / 2, w - 1);
    } else {
      assert mask / 2 == Complement(b / 2 - 1, w - 1);
      LowestBit(b / 2, w - 1);
      if And(b, mask) == b {
        var k: nat :| b / 2 == Pow2(k);
        assert b == Pow2(k + 1);
      }
    }
  }

  lemma {:induction false} Pow2Grows(k: nat, w: nat)
    requires k <= w
    ensures Pow2(k) <= Pow2(w)
    decreases w
  {
    if k == w {
    } else {
      Pow2Grows(k, w - 1);
    }
  }
}
