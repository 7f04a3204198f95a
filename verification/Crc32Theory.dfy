/** What the table-driven CRC guarantees: linearity, burst detection, the self-check residue,
    its relation to RFC 1952, and what the table as shipped does not deliver. */
module Crc32Theory {
  import opened Gf2Register
  import opened Crc32
  import Poly = CrcPolynomial

  // ----- linearity over whole buffers

  function XorByte(a: bv8, b: bv8): bv8 {
    a ^ b
  }

  function XorBytes(x: seq<bv8>, y: seq<bv8>): (z: seq<bv8>)
    requires |x| == |y|
    ensures |z| == |x|
  {
    seq(|x|, i requires 0 <= i < |x| => XorByte(x[i], y[i]))
  }

  lemma XorByteWord(a: bv8, b: bv8)
    ensures XorByte(a, b) as bv32 == Xor(a as bv32, b as bv32)
  {
    assert (a ^ b) as bv32 == (a as bv32) ^ (b as bv32);
  }

  lemma XorByteWords(c: bv32, d: bv32, a: bv8, b: bv8)
    ensures Xor(Xor(c, d), XorByte(a, b) as bv32) == Xor(Xor(c, a as bv32), Xor(d, b as bv32))
  {
    hide Xor, XorByte;
    XorByteWord(a, b);
    RegroupSums(c, d, a as bv32, b as bv32);
  }

  lemma TableStepLinear(table: seq<bv32>, c: bv32, d: bv32, a: bv8, b: bv8)
    requires Complete(table)
    ensures TableStep(table, Xor(c, d), XorByte(a, b)) == Xor(TableStep(table, c, a), TableStep(table, d, b))
  {
    assert |table| == 256;
    hide *;
    TableStepIsShift(table, c, a);
    TableStepIsShift(table, d, b);
    TableStepIsShift(table, Xor(c, d), XorByte(a, b));
    XorByteWords(c, d, a, b);
    ShiftLinear(Xor(c, a as bv32), Xor(d, b as bv32), 8);
  }

  lemma {:induction false} Linear(table: seq<bv32>, x: seq<bv8>, y: seq<bv8>, i: bv32, j: bv32)
    requires Complete(table) && |x| == |y|
    ensures Crc(table, XorBytes(x, y), Xor(i, j)) == Xor(Crc(table, x, i), Crc(table, y, j))
  {
    assert |table| == 256;
    hide Xor, XorByte, TableStep, Complete;
    if x == [] {
    } else {
      TableStepLinear(table, i, j, x[0], y[0]);
      Linear(table, x[1..], y[1..], TableStep(table, i, x[0]), TableStep(table, j, y[0]));
      assert XorBytes(x, y)[1..] == XorBytes(x[1..], y[1..]);
    }
  }

  // ----- burst detection

  lemma BytesOfBits(a: bv8, b: bv8)
    ensures ByteBits(a) == ByteBits(b) <==> a == b
  {
    ByteFits(a);
    ByteFits(b);
    if ByteBits(a) == ByteBits(b) {
      BitsOfInjective(a as bv32, b as bv32, 8);
    }
  }

  lemma {:induction false} BitStreamInjective(x: seq<bv8>, y: seq<bv8>)
    requires |x| == |y| && BitStream(x) == BitStream(y)
    ensures x == y
  {
    hide ByteBits;
    if x == [] {
    } else {
      assert BitStream(x)[..8] == ByteBits(x[0]) && BitStream(x)[8..] == BitStream(x[1..]);
      assert BitStream(y)[..8] == ByteBits(y[0]) && BitStream(y)[8..] == BitStream(y[1..]);
      BytesOfBits(x[0], y[0]);
      BitStreamInjective(x[1..], y[1..]);
    }
  }

  lemma {:induction false} BitStreamAppend(x: seq<bv8>, y: seq<bv8>)
    ensures BitStream(x + y) == BitStream(x) + BitStream(y)
  {
    hide ByteBits;
    if x == [] {
      assert x + y == y;
    } else {
      assert (x + y)[1..] == x[1..] + y;
      BitStreamAppend(x[1..], y);
    }
  }

  // Streams that differ only inside one window of at most 32 bits leave different registers.
  lemma BitBurstDetected(p: seq<bool>, u: seq<bool>, v: seq<bool>, s: seq<bool>, c: bv32)
    requires |u| == |v| <= 32 && u != v
    ensures Feed(p + u + s, c) != Feed(p + v + s, c)
  {
    hide *;
    FeedAppend(p + u, s, c);
    FeedAppend(p + v, s, c);
    FeedAppend(p, u, c);
    FeedAppend(p, v, c);
    WindowInjective(u, v, Feed(p, c));
    FeedInjective(s, Feed(p + u, c), Feed(p + v, c));
  }

  // Two different equal-length buffers whose bits agree outside some 32 consecutive bit positions,
  // aligned to bytes or not, have different CRCs.
  lemma BurstDetected(table: seq<bv32>, x: seq<bv8>, y: seq<bv8>, initial: bv32, k: nat)
    requires Complete(table) && |x| == |y| && x != y
    requires forall j :: 0 <= j < 8 * |x| && !(k <= j < k + 32) ==> BitStream(x)[j] == BitStream(y)[j]
    ensures Crc(table, x, initial) != Crc(table, y, initial)
  {
    hide Crc, Feed, BitStream;
    var n := 8 * |x|;
    var lo := if k <= n then k else n;
    var hi := if k + 32 <= n then k + 32 else n;
    var a, b := BitStream(x), BitStream(y);
    if a == b {
      BitStreamInjective(x, y);
    }
    var p, s := a[..lo], a[hi..];
    assert p == b[..lo] && s == b[hi..];
    assert a == p + a[lo..hi] + s && b == p + b[lo..hi] + s;
    BitBurstDetected(p, a[lo..hi], b[lo..hi], s, initial);
    TableRefinesBitSerial(table, x, initial);
    TableRefinesBitSerial(table, y, initial);
  }

  // The byte form: any change confined to at most four consecutive bytes is detected.
  lemma WindowDetected(table: seq<bv32>, p: seq<bv8>, u: seq<bv8>, v: seq<bv8>, s: seq<bv8>, initial: bv32)
    requires Complete(table) && |u| == |v| <= 4
    ensures Crc(table, p + u + s, initial) == Crc(table, p + v + s, initial) <==> u == v
  {
    hide *;
    TableRefinesBitSerial(table, p + u + s, initial);
    TableRefinesBitSerial(table, p + v + s, initial);
    BitStreamAppend(p + u, s);
    BitStreamAppend(p + v, s);
    BitStreamAppend(p, u);
    BitStreamAppend(p, v);
    if u != v {
      if BitStream(u) == BitStream(v) {
        BitStreamInjective(u, v);
      }
      BitBurstDetected(BitStream(p), BitStream(u), BitStream(v), BitStream(s), initial);
    }
  }

  // ----- the self-check residue

  function LowByte(c: bv32): bv8 {
    (c & 0xFF) as bv8
  }

  // The n low bytes of a register, least significant first.
  function RegisterBytes(c: bv32, n: nat): (bytes: seq<bv8>)
    ensures |bytes| == n
    decreases n
  {
    if n == 0 then [] else [LowByte(c)] + RegisterBytes(c >> 8, n - 1)
  }

  function DropBytes(c: bv32, n: nat): bv32
    decreases n
  {
    if n == 0 then c else DropBytes(c >> 8, n - 1)
  }

  lemma EatLowByte(table: seq<bv32>, c: bv32)
    requires |table| == 256 && table[0] == 0
    ensures TableStep(table, c, LowByte(c)) == c >> 8
  {
    assert (c ^ (LowByte(c) as bv32)) & 0xFF == 0;
  }

  lemma {:induction false} EatBytes(table: seq<bv32>, c: bv32, n: nat)
    requires |table| == 256 && table[0] == 0
    ensures Crc(table, RegisterBytes(c, n), c) == DropBytes(c, n)
    decreases n
  {
    hide TableStep, LowByte;
    if n == 0 {
    } else {
      EatLowByte(table, c);
      EatBytes(table, c >> 8, n - 1);
      assert RegisterBytes(c, n)[1..] == RegisterBytes(c >> 8, n - 1);
    }
  }

  lemma FourBytesAreAll(c: bv32)
    ensures DropBytes(c, 4) == 0
  {
    assert (((c >> 8) >> 8) >> 8) >> 8 == 0;
  }

  // Needs nothing of the table but its first entry, so it holds of the table as shipped.
  lemma AppendedCrcCancels(table: seq<bv32>, m: seq<bv8>, initial: bv32)
    requires |table| == 256 && table[0] == 0
    ensures Crc(table, m + RegisterBytes(Crc(table, m, initial), 4), initial) == 0
  {
    hide *;
    var c := Crc(table, m, initial);
    Streaming(table, m, RegisterBytes(c, 4), initial);
    EatBytes(table, c, 4);
    FourBytesAreAll(c);
  }

  lemma ZeroEntry(table: seq<bv32>)
    requires Complete(table)
    ensures table[0] == 0
  {
    var zero: bv32 := 0;
    assert table[zero as int] == Shift(zero, 8);
    assert Shift(0, 8) == 0;
  }

  function ZeroBytes(n: nat): (zeros: seq<bv8>)
    ensures |zeros| == n
  {
    seq(n, _ => 0)
  }

  lemma XorWithZeros(x: seq<bv8>)
    ensures XorBytes(x, ZeroBytes(|x|)) == x
  {
  }

  // The register from which n zero bytes lead to the target.
  function BeforeZeros(target: bv32, n: nat): bv32 {
    if n == 0 then target else Unshift(BeforeZeros(target, n - 1), 8)
  }

  lemma {:induction false} ZerosReach(table: seq<bv32>, target: bv32, n: nat)
    requires Complete(table)
    ensures Crc(table, ZeroBytes(n), BeforeZeros(target, n)) == target
  {
    assert |table| == 256;
    hide TableStep, Shift, Unshift, Complete, Xor;
    if n == 0 {
    } else {
      var d := BeforeZeros(target, n);
      TableStepIsShift(table, d, 0);
      XorTwice(d, 0);
      ShiftOnto(BeforeZeros(target, n - 1), 8);
      ZerosReach(table, target, n - 1);
      assert ZeroBytes(n)[1..] == ZeroBytes(n - 1);
    }
  }

  // Four bytes that take the register c to the target: the bytes of c take it to zero, and adding
  // the bytes of the register from which four zero bytes reach the target adds the target.
  function Steer(c: bv32, target: bv32): (bytes: seq<bv8>)
    ensures |bytes| == 4
  {
    RegisterBytes(Xor(c, BeforeZeros(target, 4)), 4)
  }

  lemma SteerIs(c: bv32, target: bv32)
    ensures Steer(c, target) == RegisterBytes(Xor(c, BeforeZeros(target, 4)), 4)
  {
  }

  lemma SteerReaches(table: seq<bv32>, c: bv32, target: bv32)
    requires Complete(table)
    ensures Crc(table, Steer(c, target), c) == target
  {
    assert |table| == 256;
    ZeroEntry(table);
    var d := BeforeZeros(target, 4);
    var x := Xor(c, d);
    hide *;
    EatBytes(table, x, 4);
    FourBytesAreAll(x);
    ZerosReach(table, target, 4);
    Linear(table, RegisterBytes(x, 4), ZeroBytes(4), x, d);
    XorWithZeros(RegisterBytes(x, 4));
    XorTwice(c, d);
    XorTwice(target, 0);
    XorCommutes(0, target);
    assert Steer(c, target) == RegisterBytes(x, 4) by {
      SteerIs(c, target);
    }
  }

  // With the complete table, for every message, start value and target there is exactly one four-byte
  // suffix that takes the CRC to the target.
  lemma SuffixIsUnique(table: seq<bv32>, m: seq<bv8>, t: seq<bv8>, initial: bv32, target: bv32)
    requires Complete(table) && |t| == 4
    ensures Crc(table, m + t, initial) == target <==> t == Steer(Crc(table, m, initial), target)
  {
    var c := Crc(table, m, initial);
    var r := Steer(c, target);
    hide *;
    SteerReaches(table, c, target);
    Streaming(table, m, r, initial);
    WindowDetected(table, m, t, r, [], initial);
    assert m + t + [] == m + t && m + r + [] == m + r;
  }

  // With the complete table, the four bytes that drive the CRC to zero are the CRC's own.
  lemma ResidueIsUnique(table: seq<bv32>, m: seq<bv8>, t: seq<bv8>, initial: bv32)
    requires Complete(table) && |t| == 4
    ensures Crc(table, m + t, initial) == 0 <==> t == RegisterBytes(Crc(table, m, initial), 4)
  {
    var c := Crc(table, m, initial);
    ZeroEntry(table);
    hide *;
    SuffixIsUnique(table, m, t, initial, 0);
    SuffixIsUnique(table, m, RegisterBytes(c, 4), initial, 0);
    AppendedCrcCancels(table, m, initial);
  }

  // ----- RFC 1952, section 8

  // The CRC of RFC 1952 as a bit-serial register, complemented before and after.
  function Rfc1952Update(crc: bv32, data: seq<bv8>): bv32 {
    Xor(Feed(BitStream(data), Xor(crc, 0xFFFF_FFFF)), 0xFFFF_FFFF)
  }

  lemma ComplementDiffers(c: bv32)
    ensures Xor(c, 0xFFFF_FFFF) != c
  {
  }

  // MM_CalculateCRC starts from all ones but leaves out the final complement: complementing its
  // result gives the CRC of RFC 1952, provided the table is the complete one.
  lemma ComplementIsRfc1952(table: seq<bv32>, data: seq<bv8>)
    requires Complete(table)
    ensures Xor(Crc(table, data, 0xFFFF_FFFF), 0xFFFF_FFFF) == Rfc1952Update(0, data)
    ensures Crc(table, data, 0xFFFF_FFFF) != Rfc1952Update(0, data)
  {
    hide Feed, Crc, BitStream, Xor;
    TableRefinesBitSerial(table, data, 0xFFFF_FFFF);
    XorTwice(0, 0xFFFF_FFFF);
    ComplementDiffers(Crc(table, data, 0xFFFF_FFFF));
  }

  // The running update of RFC 1952 written with the code's loop: complement, loop, complement.
  function LoopUpdate(table: seq<bv32>, crc: bv32, data: seq<bv8>): bv32
    requires |table| == 256
  {
    Xor(Crc(table, data, Xor(crc, 0xFFFF_FFFF)), 0xFFFF_FFFF)
  }

  // The loop with the complete table computes that update from any running value, and may be applied
  // piece by piece.
  lemma Rfc1952Streaming(table: seq<bv32>, crc: bv32, a: seq<bv8>, b: seq<bv8>)
    requires Complete(table)
    ensures LoopUpdate(table, crc, a) == Rfc1952Update(crc, a)
    ensures LoopUpdate(table, LoopUpdate(table, crc, a), b) == Rfc1952Update(crc, a + b)
  {
    assert |table| == 256;
    hide Feed, BitStream, Xor, Crc, Complete;
    TableRefinesBitSerial(table, a, Xor(crc, 0xFFFF_FFFF));
    TableRefinesBitSerial(table, a + b, Xor(crc, 0xFFFF_FFFF));
    Streaming(table, a, b, Xor(crc, 0xFFFF_FFFF));
    XorTwice(Crc(table, a, Xor(crc, 0xFFFF_FFFF)), 0xFFFF_FFFF);
  }

  // Independently of any register: the CRC, read from bit 0 up, is the remainder of the message
  // polynomial, with the initial value added to its leading coefficients, under long division.
  lemma CrcIsPolynomialRemainder(table: seq<bv32>, data: seq<bv8>, c: bv32)
    requires Complete(table)
    ensures BitsOf(Crc(table, data, c), 32) == Poly.Remainder(Poly.Dividend(BitStream(data), BitsOf(c, 32)))
  {
    assert |table| == 256;
    hide *;
    TableRefinesBitSerial(table, data, c);
    Poly.RegisterIsRemainder(BitStream(data), c);
  }
}
