/** The table-driven CRC-32 of src/common/utils.c. */
module Crc32 {
  import opened Gf2Register
  import CfsConfig

  // ----- the code

  function ZeroEntries(n: nat): (zeros: seq<bv32>)
    ensures |zeros| == n && forall i :: 0 <= i < n ==> zeros[i] == 0
  {
    seq(n, _ => 0)
  }

  // The static table as it is written: sixteen entries, and the zeros C puts in the other 240.
  const SHIPPED_PREFIX: seq<bv32> := [
    0x00000000, 0x77073096, 0xEE0E612C, 0x990951BA, 0x076DC419, 0x706AF48F,
    0xE963A535, 0x9E6495A3, 0x0EDB8832, 0x79DCB8A4, 0xE0D5E91E, 0x97D2D988,
    0x09B64C2B, 0x7EB17CBD, 0xE7B82D07, 0x90BF1D91]
  const SHIPPED_TABLE: seq<bv32> := SHIPPED_PREFIX + ZeroEntries(240)

  // The 256-entry table the source says the implementation needs, generated from the polynomial.
  function CompleteTable(): (table: seq<bv32>)
    ensures |table| == 256
  {
    seq(256, i requires 0 <= i < 256 => Shift(i as bv32, 8))
  }

  // The index one turn of the loop looks up, as a byte.
  function LookedUp(c: bv32, b: bv8): bv8 {
    ((c ^ (b as bv32)) & 0xFF) as bv8
  }

  function TableIndex(c: bv32, b: bv8): (i: int)
    ensures 0 <= i < 256
  {
    LookedUp(c, b) as int
  }

  // One turn of the loop: crc_table[(crc ^ byte) & 0xFF] ^ (crc >> 8).
  function TableStep(table: seq<bv32>, c: bv32, b: bv8): bv32
    requires |table| == 256
  {
    Xor(table[TableIndex(c, b)], c >> 8)
  }

  // What the byte loop computes.
  function Crc(table: seq<bv32>, data: seq<bv8>, c: bv32): bv32
    requires |table| == 256
  {
    if data == [] then c else Crc(table, data[1..], TableStep(table, c, data[0]))
  }

  // The byte loop over a given static table; a null buffer or no bytes give back the initial value.
  method CalculateCRC32With(table: seq<bv32>, data: array?<bv8>, length: nat, initialCrc: bv32) returns (crc: bv32)
    requires |table| == 256
    requires data != null ==> length <= data.Length
    ensures data == null ==> crc == initialCrc
    ensures data != null ==> crc == Crc(table, data[..length], initialCrc)
  {
    if data == null || length == 0 {
      return initialCrc;
    }
    hide TableStep;
    crc := initialCrc;
    for i := 0 to length
      invariant Crc(table, data[i..length], crc) == Crc(table, data[..length], initialCrc)
    {
      assert data[i..length][1..] == data[i + 1..length];
      crc := TableStep(table, crc, data[i]);
    }
  }

  method CalculateCRC32(data: array?<bv8>, length: nat, initialCrc: bv32) returns (crc: bv32)
    requires data != null ==> length <= data.Length
    ensures data == null ==> crc == initialCrc
    ensures data != null ==> crc == Crc(SHIPPED_TABLE, data[..length], initialCrc)
  {
    crc := CalculateCRC32With(SHIPPED_TABLE, data, length, initialCrc);
  }

  // MM_CalculateCRC; the result is written through a pointer, here a one-element array.
  method CalculateCRC(data: array?<bv8>, length: nat, crc: array?<bv32>) returns (status: int)
    requires data != null ==> length <= data.Length
    requires crc != null ==> crc.Length == 1
    modifies if crc == null then {} else {crc}
    ensures data == null || crc == null ==> status == CfsConfig.OS_INVALID_POINTER && (crc != null ==> crc[0] == old(crc[0]))
    ensures data != null && crc != null ==> status == CfsConfig.CFE_SUCCESS && crc[0] == Crc(SHIPPED_TABLE, old(data[..length]), 0xFFFF_FFFF)
  {
    if data == null || crc == null {
      return CfsConfig.OS_INVALID_POINTER;
    }
    crc[0] := CalculateCRC32(data, length, 0xFFFFFFFF);
    return CfsConfig.CFE_SUCCESS;
  }

  // ----- the bit-serial reference

  function ByteBits(b: bv8): (bits: seq<bool>)
    ensures |bits| == 8
  {
    BitsOf(b as bv32, 8)
  }

  // A buffer as a bit stream, each byte least significant bit first.
  function BitStream(data: seq<bv8>): (bits: seq<bool>)
    ensures |bits| == 8 * |data|
  {
    if data == [] then [] else ByteBits(data[0]) + BitStream(data[1..])
  }

  ghost predicate Complete(table: seq<bv32>) {
    |table| == 256 && forall i: bv32 :: i < 256 ==> table[i as int] == Shift(i, 8)
  }

  lemma CompleteTableIsComplete()
    ensures Complete(CompleteTable())
  {
  }

  lemma LiteralsLow()
    ensures Shift(0, 8) == 0x00000000 && Shift(1, 8) == 0x77073096
    ensures Shift(2, 8) == 0xEE0E612C && Shift(3, 8) == 0x990951BA
    ensures Shift(4, 8) == 0x076DC419 && Shift(5, 8) == 0x706AF48F
    ensures Shift(6, 8) == 0xE963A535 && Shift(7, 8) == 0x9E6495A3
  {
  }

  lemma LiteralsHigh()
    ensures Shift(8, 8) == 0x0EDB8832 && Shift(9, 8) == 0x79DCB8A4
    ensures Shift(10, 8) == 0xE0D5E91E && Shift(11, 8) == 0x97D2D988
    ensures Shift(12, 8) == 0x09B64C2B && Shift(13, 8) == 0x7EB17CBD
    ensures Shift(14, 8) == 0xE7B82D07 && Shift(15, 8) == 0x90BF1D91
  {
  }

  lemma LowEntries(i: nat)
    requires i < 8
    ensures SHIPPED_PREFIX[i] == Shift(i as bv32, 8)
  {
    hide Shift;
    LiteralsLow();
    match i
    case 0 =>
    case 1 =>
    case 2 =>
    case 3 =>
    case 4 =>
    case 5 =>
    case 6 =>
    case 7 =>
  }

  lemma HighEntries(i: nat)
    requires 8 <= i < 16
    ensures SHIPPED_PREFIX[i] == Shift(i as bv32, 8)
  {
    hide Shift;
    LiteralsHigh();
    match i
    case 8 =>
    case 9 =>
    case 10 =>
    case 11 =>
    case 12 =>
    case 13 =>
    case 14 =>
    case 15 =>
  }

  // The sixteen literals of the source are the first sixteen entries of the complete table.
  lemma ShippedPrefixIsRight()
    ensures SHIPPED_TABLE[..16] == CompleteTable()[..16]
  {
    hide Shift;
    forall i | 0 <= i < 16
      ensures SHIPPED_TABLE[i] == CompleteTable()[i]
    {
      if i < 8 {
        LowEntries(i);
      } else {
        HighEntries(i);
      }
    }
  }

  // ----- one table step is eight bit steps

  lemma SplitByte(x: bv32)
    ensures x == Xor(x & 0xFF, (x >> 8) << 8)
    ensures x & 0xFF < 256
  {
  }

  lemma MoveDown(x: bv32)
    ensures Half((x >> 8) << 8) == (x >> 8) << 7 && !Low((x >> 8) << 8)
    ensures Half((x >> 8) << 7) == (x >> 8) << 6 && !Low((x >> 8) << 7)
    ensures Half((x >> 8) << 6) == (x >> 8) << 5 && !Low((x >> 8) << 6)
    ensures Half((x >> 8) << 5) == (x >> 8) << 4 && !Low((x >> 8) << 5)
    ensures Half((x >> 8) << 4) == (x >> 8) << 3 && !Low((x >> 8) << 4)
    ensures Half((x >> 8) << 3) == (x >> 8) << 2 && !Low((x >> 8) << 3)
    ensures Half((x >> 8) << 2) == (x >> 8) << 1 && !Low((x >> 8) << 2)
    ensures Half((x >> 8) << 1) == x >> 8 && !Low((x >> 8) << 1)
  {
  }

  lemma HighPartShifts(x: bv32)
    ensures ZerosThen((x >> 8) << 8, x >> 8, 8)
  {
    hide Low, Half;
    MoveDown(x);
    assert ZerosThen((x >> 8) << 4, x >> 8, 4);
  }

  lemma ByteFits(b: bv8)
    ensures Fits(b as bv32, 8)
  {
    FitsIsBound(b as bv32, 8);
    LowMaskValues();
  }

  lemma ByteAboveEight(c: bv32, b: bv8)
    ensures Xor(c, b as bv32) >> 8 == c >> 8
  {
  }

  // Eight bit steps, on the low byte and the rest separately.
  lemma EightSteps(x: bv32)
    ensures Shift(x, 8) == Xor(Shift(x & 0xFF, 8), x >> 8)
  {
    hide Xor, Shift, ZerosThen;
    SplitByte(x);
    HighPartShifts(x);
    ShiftOutZeros((x >> 8) << 8, x >> 8, 8);
    ShiftLinear(x & 0xFF, (x >> 8) << 8, 8);
  }

  lemma StepInParts(c: bv32, b: bv8)
    ensures Shift(Xor(c, b as bv32), 8) == Xor(Shift(Xor(c, b as bv32) & 0xFF, 8), c >> 8)
  {
    hide Xor, Shift;
    EightSteps(Xor(c, b as bv32));
    ByteAboveEight(c, b);
  }

  lemma IndexIsLowByte(c: bv32, b: bv8)
    ensures TableIndex(c, b) == (Xor(c, b as bv32) & 0xFF) as int
  {
    var i := (c ^ (b as bv32)) & 0xFF;
    assert (i as bv8) as int == i as int;
  }

  lemma EntryIsShift(table: seq<bv32>, c: bv32, b: bv8)
    requires Complete(table)
    ensures table[TableIndex(c, b)] == Shift(Xor(c, b as bv32) & 0xFF, 8)
  {
    IndexIsLowByte(c, b);
    SplitByte(Xor(c, b as bv32));
    hide Xor, Shift, TableIndex;
    var i := Xor(c, b as bv32) & 0xFF;
    assert table[i as int] == Shift(i, 8);
  }

  lemma TableStepIsShift(table: seq<bv32>, c: bv32, b: bv8)
    requires Complete(table)
    ensures TableStep(table, c, b) == Shift(Xor(c, b as bv32), 8)
  {
    assert |table| == 256;
    assert TableStep(table, c, b) == Xor(table[TableIndex(c, b)], c >> 8);
    hide *;
    EntryIsShift(table, c, b);
    StepInParts(c, b);
  }

  lemma TableStepIsFeed(table: seq<bv32>, c: bv32, b: bv8)
    requires Complete(table)
    ensures TableStep(table, c, b) == Feed(ByteBits(b), c)
  {
    assert |table| == 256 && ByteBits(b) == BitsOf(b as bv32, 8);
    hide *;
    TableStepIsShift(table, c, b);
    ByteFits(b);
    FeedWord(b as bv32, 8, c);
  }

  // The table loop refines the bit-serial register, for every buffer and every initial value.
  lemma {:induction false} TableRefinesBitSerial(table: seq<bv32>, data: seq<bv8>, c: bv32)
    requires Complete(table)
    ensures Crc(table, data, c) == Feed(BitStream(data), c)
  {
    assert |table| == 256;
    hide Xor, Shift, TableStep, Complete, Feed, ByteBits;
    if data == [] {
      FeedNothing(c);
    } else {
      TableStepIsFeed(table, c, data[0]);
      FeedAppend(ByteBits(data[0]), BitStream(data[1..]), c);
      TableRefinesBitSerial(table, data[1..], TableStep(table, c, data[0]));
    }
  }

  // Streaming: a buffer may be split anywhere and the second part started from the first part's CRC.
  lemma {:induction false} Streaming(table: seq<bv32>, a: seq<bv8>, b: seq<bv8>, c: bv32)
    requires |table| == 256
    ensures Crc(table, a + b, c) == Crc(table, b, Crc(table, a, c))
  {
    hide TableStep;
    if a == [] {
      assert a + b == b;
    } else {
      assert (a + b)[1..] == a[1..] + b;
      Streaming(table, a[1..], b, TableStep(table, c, a[0]));
    }
  }
}
