/** Two flipped bits: what the register sees of them, and how far apart they must be to be missed. */
module TwoBits {
  import opened Gf2Register
  import opened Crc32
  import opened Crc32Theory
  import opened Period

  // Two registers fed the same stream differ by their first difference, shifted along.
  lemma {:induction false} FeedDifference(bits: seq<bool>, c: bv32, d: bv32)
    ensures Xor(Feed(bits, c), Feed(bits, d)) == Shift(Xor(c, d), |bits|)
  {
    hide Xor, Bit, StepBit;
    if bits == [] {
    } else {
      var b := Bit(bits[0]);
      FeedDifference(bits[1..], StepBit(Xor(c, b)), StepBit(Xor(d, b)));
      StepLinear(Xor(c, b), Xor(d, b));
      XorRegroup(c, d, b);
    }
  }

  lemma FeedOne(b: bool, c: bv32)
    ensures Feed([b], c) == StepBit(Xor(c, Bit(b)))
  {
    hide StepBit, Xor, Bit;
    assert [b][1..] == [];
    FeedNothing(StepBit(Xor(c, Bit(b))));
  }

  lemma FlippedBit(b: bool)
    ensures Xor(Bit(b), Bit(!b)) == 1
  {
  }

  // A flipped bit changes the register by one bit step of 1, later shifted along.
  lemma FlipThen(a: bool, m: seq<bool>, c: bv32)
    ensures Xor(Feed([a] + m, c), Feed([!a] + m, c)) == Shift(1, |m| + 1)
  {
    hide Xor, Bit, StepBit, Feed;
    var x, y := Xor(c, Bit(a)), Xor(c, Bit(!a));
    FeedAppend([a], m, c);
    FeedAppend([!a], m, c);
    FeedOne(a, c);
    FeedOne(!a, c);
    FeedDifference(m, StepBit(x), StepBit(y));
    StepLinear(x, y);
    FlippedBit(a);
    XorRegroup(Bit(a), Bit(!a), c);
    XorCommutes(c, Bit(a));
    XorCommutes(c, Bit(!a));
  }

  // A further flipped bit cancels a difference of the registers exactly when that is 1.
  lemma FlipCancels(b: bool, x: bv32, y: bv32)
    ensures Feed([b], x) == Feed([!b], y) <==> Xor(x, y) == 1
  {
    hide Xor, Bit, StepBit;
    FeedOne(b, x);
    FeedOne(!b, y);
    StepInjective(Xor(x, Bit(b)), Xor(y, Bit(!b)));
    FlippedBit(b);
    XorZero(Xor(x, Bit(b)), Xor(y, Bit(!b)));
    XorZero(Xor(x, y), 1);
    RegroupSums(x, y, Bit(b), Bit(!b));
  }

  // Two flipped bits of a stream are missed exactly when their distance is a multiple of 2^32 - 1.
  lemma TwoBitsExact(p: seq<bool>, a: bool, m: seq<bool>, b: bool, s: seq<bool>, c: bv32)
    ensures Feed(p + ([a] + m + [b]) + s, c) == Feed(p + ([!a] + m + [!b]) + s, c) <==> (|m| + 1) % PERIOD == 0
  {
    hide Feed, Xor, Shift;
    var u, v := [a] + m + [b], [!a] + m + [!b];
    var start := Feed(p, c);
    FeedAppend(p + u, s, c);
    FeedAppend(p + v, s, c);
    FeedAppend(p, u, c);
    FeedAppend(p, v, c);
    FeedInjective(s, Feed(p + u, c), Feed(p + v, c));
    FeedAppend([a] + m, [b], start);
    FeedAppend([!a] + m, [!b], start);
    FlipCancels(b, Feed([a] + m, start), Feed([!a] + m, start));
    FlipThen(a, m, start);
    ReturnsExactly(|m| + 1);
  }

  // Two buffers that differ in exactly two bits have the same CRC, with the complete table, exactly when
  // the bits are a multiple of 2^32 - 1 apart.
  lemma TwoBitErrorsExact(table: seq<bv32>, x: seq<bv8>, y: seq<bv8>, initial: bv32, j: nat, k: nat)
    requires Complete(table) && |x| == |y| && j < k < 8 * |x|
    requires forall i :: 0 <= i < 8 * |x| ==> (BitStream(x)[i] == BitStream(y)[i] <==> i != j && i != k)
    ensures Crc(table, x, initial) == Crc(table, y, initial) <==> (k - j) % PERIOD == 0
  {
    hide Crc, Feed, BitStream;
    var u, v := BitStream(x), BitStream(y);
    var p, m, s := u[..j], u[j + 1..k], u[k + 1..];
    assert p == v[..j] && m == v[j + 1..k] && s == v[k + 1..];
    assert u == p + ([u[j]] + m + [u[k]]) + s;
    assert v == p + ([!u[j]] + m + [!u[k]]) + s;
    TwoBitsExact(p, u[j], m, u[k], s, initial);
    TableRefinesBitSerial(table, x, initial);
    TableRefinesBitSerial(table, y, initial);
  }
  // So in a buffer of at most 2^32 - 1 bits every error of two bits is detected.
  lemma TwoBitErrorsDetected(table: seq<bv32>, x: seq<bv8>, y: seq<bv8>, initial: bv32, j: nat, k: nat)
    requires Complete(table) && |x| == |y| && j < k < 8 * |x| <= PERIOD
    requires forall i :: 0 <= i < 8 * |x| ==> (BitStream(x)[i] == BitStream(y)[i] <==> i != j && i != k)
    ensures Crc(table, x, initial) != Crc(table, y, initial)
  {
    hide Crc, BitStream;
    TwoBitErrorsExact(table, x, y, initial, j, k);
  }
}
