/** The CRC loop with the table as shipped, sixteen literals and zeros, set against the loop with the
    complete table: exactly when it returns the right value, and exactly when it is linear. */
module ShippedTable {
  import opened Gf2Register
  import opened Crc32
  import opened Crc32Theory

  function Shipped(data: seq<bv8>, c: bv32): bv32 {
    Crc(SHIPPED_TABLE, data, c)
  }

  function Intended(data: seq<bv8>, c: bv32): bv32 {
    Crc(CompleteTable(), data, c)
  }

  // The index if its entry is missing from the shipped table, and zero if it is there.
  function Missed(c: bv32, b: bv8): bv8 {
    var i := LookedUp(c, b);
    if i < 0x10 then 0 else i
  }

  // The missed indices of a whole shipped run.
  function Skipped(data: seq<bv8>, c: bv32): (missed: seq<bv8>)
    ensures |missed| == |data|
  {
    if data == [] then [] else [Missed(c, data[0])] + Skipped(data[1..], TableStep(SHIPPED_TABLE, c, data[0]))
  }

  lemma CompleteTableFacts()
    ensures Complete(CompleteTable()) && CompleteTable()[0] == 0
  {
    CompleteTableIsComplete();
    hide CompleteTable;
    ZeroEntry(CompleteTable());
  }

  lemma ByteIndex(c: bv32, b: bv8)
    ensures TableIndex(c, b) < 16 <==> LookedUp(c, b) < 0x10
  {
    hide LookedUp;
  }

  // ----- one turn of the loop

  lemma NonZeroEntry(i: nat)
    requires 0 < i < 256
    ensures Shift(i as bv32, 8) != 0
  {
    assert i as bv32 != 0;
    assert Shift(0, 8) == 0;
    hide Shift;
    ShiftInjective(i as bv32, 0, 8);
  }

  lemma ShippedEntry(i: nat)
    requires i < 256
    ensures SHIPPED_TABLE[i] == CompleteTable()[i] <==> i < 16
  {
    ShippedPrefixIsRight();
    if i < 16 {
      hide SHIPPED_PREFIX, CompleteTable;
      assert SHIPPED_TABLE[i] == SHIPPED_TABLE[..16][i];
      assert CompleteTable()[i] == CompleteTable()[..16][i];
    } else {
      NonZeroEntry(i);
      hide Shift;
      assert SHIPPED_TABLE[i] == 0;
    }
  }

  // One turn of the loop as shipped is right exactly when it looks up one of the sixteen literals.
  lemma ShippedStepExact(c: bv32, b: bv8)
    ensures TableStep(SHIPPED_TABLE, c, b) == TableStep(CompleteTable(), c, b) <==> TableIndex(c, b) < 16
  {
    var i := TableIndex(c, b);
    ShippedEntry(i);
    hide Xor, TableIndex;
    XorCancel(c >> 8, SHIPPED_TABLE[i], CompleteTable()[i]);
  }

  lemma ShippedSkips(c: bv32, b: bv8)
    requires TableIndex(c, b) >= 16
    ensures TableStep(SHIPPED_TABLE, c, b) == c >> 8
  {
    hide TableIndex;
    assert SHIPPED_TABLE[TableIndex(c, b)] == 0;
  }

  // Replacing a byte whose index is missed by the register's own low byte.
  lemma Substitute(c: bv32, b: bv8)
    ensures XorByte(b, LookedUp(c, b)) == LowByte(c) && XorByte(b, 0) == b
  {
  }

  // One shipped turn is one intended turn on the byte with the missed index added to it.
  lemma ShippedStepIsIntended(c: bv32, b: bv8)
    ensures TableStep(SHIPPED_TABLE, c, b) == TableStep(CompleteTable(), c, XorByte(b, Missed(c, b)))
  {
    ByteIndex(c, b);
    Substitute(c, b);
    CompleteTableFacts();
    hide TableStep, TableIndex, LookedUp, XorByte, LowByte, CompleteTable;
    if LookedUp(c, b) < 0x10 {
      ShippedStepExact(c, b);
    } else {
      ShippedSkips(c, b);
      EatLowByte(CompleteTable(), c);
    }
  }

  // ----- whole runs

  // The shipped loop computes the intended CRC of another buffer: the one with the missed indices
  // added to it.
  lemma {:induction false} ShippedIsIntended(data: seq<bv8>, c: bv32)
    ensures Shipped(data, c) == Intended(XorBytes(data, Skipped(data, c)), c)
  {
    hide TableStep, XorByte, Missed, CompleteTable;
    if data == [] {
    } else {
      var next := TableStep(SHIPPED_TABLE, c, data[0]);
      ShippedStepIsIntended(c, data[0]);
      ShippedIsIntended(data[1..], next);
      assert XorBytes(data, Skipped(data, c))[1..] == XorBytes(data[1..], Skipped(data[1..], next));
    }
  }

  // The shipped value splits into the intended value and the intended CRC of what was missed, the
  // start value being shared between the two in any way.
  lemma ShippedSplits(data: seq<bv8>, c: bv32, e: bv32)
    ensures Shipped(data, c) == Xor(Intended(data, Xor(c, e)), Intended(Skipped(data, c), e))
  {
    CompleteTableFacts();
    hide Crc, CompleteTable, Xor, XorBytes, Skipped;
    ShippedIsIntended(data, c);
    Linear(CompleteTable(), data, Skipped(data, c), Xor(c, e), e);
    XorTwice(c, e);
  }

  // The shipped value is right exactly when the intended CRC of what was missed vanishes.
  lemma ShippedExact(data: seq<bv8>, c: bv32)
    ensures Shipped(data, c) == Intended(data, c) <==> Intended(Skipped(data, c), 0) == 0
  {
    hide Shipped, Intended, Skipped, Xor;
    ShippedSplits(data, c, 0);
    XorTwice(c, 0);
    XorTwice(Intended(data, c), 0);
    XorCancel(Intended(data, c), Intended(Skipped(data, c), 0), 0);
  }

  lemma ZeroStep()
    ensures LowByte(0) == 0 && (0 as bv32) >> 8 == 0
  {
  }

  lemma OneByte(table: seq<bv32>, b: bv8, c: bv32)
    requires |table| == 256
    ensures Crc(table, [b], c) == TableStep(table, c, b)
  {
    hide TableStep;
    assert [b][1..] == [];
  }

  lemma {:induction false} IntendedOfZeros(n: nat)
    ensures Intended(ZeroBytes(n), 0) == 0
  {
    CompleteTableFacts();
    if n == 0 {
    } else {
      IntendedOfZeros(n - 1);
      hide Crc, CompleteTable, TableStep;
      EatLowByte(CompleteTable(), 0);
      ZeroStep();
      assert ZeroBytes(n) == [0] + ZeroBytes(n - 1);
      Streaming(CompleteTable(), [0], ZeroBytes(n - 1), 0);
      OneByte(CompleteTable(), 0, 0);
    }
  }

  lemma {:induction false} SkippedAt(data: seq<bv8>, c: bv32, k: nat)
    requires k < |data|
    ensures Skipped(data, c)[k] == Missed(Shipped(data[..k], c), data[k])
    decreases k
  {
    hide TableStep, Missed;
    if k == 0 {
    } else {
      SkippedAt(data[1..], TableStep(SHIPPED_TABLE, c, data[0]), k - 1);
      assert data[..k][1..] == data[1..][..k - 1];
    }
  }

  // No byte of the shipped run looks up an index past the sixteen literals.
  ghost predicate NothingMissed(data: seq<bv8>, c: bv32) {
    forall k :: 0 <= k < |data| ==> TableIndex(Shipped(data[..k], c), data[k]) < 16
  }

  lemma NothingMissedIsZero(data: seq<bv8>, c: bv32)
    ensures NothingMissed(data, c) <==> Skipped(data, c) == ZeroBytes(|data|)
  {
    hide TableIndex, Shipped, Skipped, LookedUp;
    forall k | 0 <= k < |data|
      ensures Skipped(data, c)[k] == 0 <==> TableIndex(Shipped(data[..k], c), data[k]) < 16
    {
      SkippedAt(data, c, k);
      ByteIndex(Shipped(data[..k], c), data[k]);
    }
    if NothingMissed(data, c) {
      assert Skipped(data, c) == ZeroBytes(|data|);
    }
  }

  // Whatever the shipped run misses, it misses within four consecutive bytes from the k-th on.
  ghost predicate MissesWithin(data: seq<bv8>, c: bv32, k: nat) {
    forall j :: 0 <= j < |data| && !(k <= j < k + 4) ==> Skipped(data, c)[j] == 0
  }

  // If all misses are that close together, the shipped value is right exactly when there are none.
  lemma ShippedWindowExact(data: seq<bv8>, c: bv32, k: nat)
    requires MissesWithin(data, c, k)
    ensures Shipped(data, c) == Intended(data, c) <==> NothingMissed(data, c)
  {
    CompleteTableFacts();
    hide Crc, Skipped, CompleteTable, NothingMissed, Shipped;
    ShippedExact(data, c);
    NothingMissedIsZero(data, c);
    IntendedOfZeros(|data|);
    var n := |data|;
    var lo, hi := if k <= n then k else n, if k + 4 <= n then k + 4 else n;
    var s, z := Skipped(data, c), ZeroBytes(n);
    assert s[..lo] == z[..lo] && s[hi..] == z[hi..];
    assert s == s[..lo] + s[lo..hi] + s[hi..] && z == s[..lo] + z[lo..hi] + s[hi..];
    WindowDetected(CompleteTable(), s[..lo], s[lo..hi], z[lo..hi], s[hi..], 0);
  }

  // A single miss is always fatal.
  lemma OneMissIsFatal(data: seq<bv8>, c: bv32, k: nat)
    requires k < |data| && forall j :: 0 <= j < |data| ==> (Skipped(data, c)[j] != 0 <==> j == k)
    ensures Shipped(data, c) != Intended(data, c)
  {
    hide Skipped, Shipped, Intended, NothingMissed;
    ShippedWindowExact(data, c, k);
    NothingMissedIsZero(data, c);
    assert ZeroBytes(|data|)[k] == 0;
  }

  // For buffers of at most four bytes the shipped value is right exactly when nothing was missed.
  lemma ShippedShortExact(data: seq<bv8>, c: bv32)
    requires |data| <= 4
    ensures Shipped(data, c) == Intended(data, c) <==> NothingMissed(data, c)
  {
    ShippedWindowExact(data, c, 0);
  }

  lemma FirstIndex(b: bv8)
    ensures TableIndex(0xFFFF_FFFF, b) < 16 <==> b >= 0xF0
  {
    var x: bv32 := (0xFFFF_FFFF ^ (b as bv32)) & 0xFF;
    assert x < 16 <==> b >= 0xF0;
  }

  // For a single byte MM_CalculateCRC is right exactly when the byte is 0xF0 or above.
  lemma ShippedFirstByteExact(b: bv8)
    ensures Shipped([b], 0xFFFF_FFFF) == Intended([b], 0xFFFF_FFFF) <==> b >= 0xF0
  {
    FirstIndex(b);
    assert [b][..0] == [];
    hide Intended, TableIndex, TableStep;
    ShippedShortExact([b], 0xFFFF_FFFF);
    assert NothingMissed([b], 0xFFFF_FFFF) <==> TableIndex(Shipped([b][..0], 0xFFFF_FFFF), b) < 16;
  }

  // ----- agreement along the way

  lemma CrcLast(table: seq<bv32>, data: seq<bv8>, b: bv8, c: bv32)
    requires |table| == 256
    ensures Crc(table, data + [b], c) == TableStep(table, Crc(table, data, c), b)
  {
    hide TableStep;
    Streaming(table, data, [b], c);
    assert [b][1..] == [];
  }

  lemma AgreementStep(data: seq<bv8>, c: bv32, k: nat)
    requires k < |data| && Shipped(data[..k], c) == Intended(data[..k], c)
    ensures Shipped(data[..k + 1], c) == Intended(data[..k + 1], c) <==> TableIndex(Intended(data[..k], c), data[k]) < 16
  {
    assert data[..k] + [data[k]] == data[..k + 1];
    hide TableStep, TableIndex, Crc, CompleteTable;
    CrcLast(SHIPPED_TABLE, data[..k], data[k], c);
    CrcLast(CompleteTable(), data[..k], data[k], c);
    ShippedStepExact(Intended(data[..k], c), data[k]);
  }

  lemma {:induction false} AgreementFollows(data: seq<bv8>, c: bv32, n: nat)
    requires n <= |data|
    requires forall k :: 0 <= k < n ==> TableIndex(Intended(data[..k], c), data[k]) < 16
    ensures Shipped(data[..n], c) == Intended(data[..n], c)
  {
    hide TableIndex;
    if n == 0 {
    } else {
      AgreementFollows(data, c, n - 1);
      AgreementStep(data, c, n - 1);
    }
  }

  // The shipped loop follows the complete CRC over a whole buffer, prefix by prefix, exactly when
  // no byte of it looks up an entry past the sixteen literals.
  lemma ShippedRunExact(data: seq<bv8>, c: bv32)
    ensures (forall k :: 0 <= k <= |data| ==> Shipped(data[..k], c) == Intended(data[..k], c))
       <==> (forall k :: 0 <= k < |data| ==> TableIndex(Intended(data[..k], c), data[k]) < 16)
  {
    hide TableIndex, Shipped, Intended;
    if forall k :: 0 <= k <= |data| ==> Shipped(data[..k], c) == Intended(data[..k], c) {
      forall k | 0 <= k < |data|
        ensures TableIndex(Intended(data[..k], c), data[k]) < 16
      {
        AgreementStep(data, c, k);
      }
    }
    if forall k :: 0 <= k < |data| ==> TableIndex(Intended(data[..k], c), data[k]) < 16 {
      forall n | 0 <= n <= |data|
        ensures Shipped(data[..n], c) == Intended(data[..n], c)
      {
        AgreementFollows(data, c, n);
      }
    }
  }

  // ----- how little the shipped table sees

  lemma IndexFromZero(b: bv8)
    ensures TableIndex(0, b) == b as int
  {
  }

  lemma BvAtLeast(b: bv8)
    requires b >= 0x10
    ensures b as int >= 16
  {
  }

  // From a zero register, no buffer of bytes of 0x10 and above leaves a trace.
  lemma {:induction false} ShippedStaysZero(data: seq<bv8>)
    requires forall k :: 0 <= k < |data| ==> data[k] >= 0x10
    ensures Shipped(data, 0) == 0
  {
    hide TableStep, TableIndex;
    if data == [] {
    } else {
      IndexFromZero(data[0]);
      BvAtLeast(data[0]);
      ShippedSkips(0, data[0]);
      ShippedStaysZero(data[1..]);
    }
  }

  // From a zero register every byte of 0x10 and above is missed, and is the missed index itself.
  lemma {:induction false} AllMissed(data: seq<bv8>)
    requires forall k :: 0 <= k < |data| ==> data[k] >= 0x10
    ensures Skipped(data, 0) == data
  {
    hide TableStep, TableIndex;
    if data == [] {
    } else {
      IndexFromZero(data[0]);
      BvAtLeast(data[0]);
      ShippedSkips(0, data[0]);
      AllMissed(data[1..]);
      assert Missed(0, data[0]) == data[0];
    }
  }

  lemma IntendedFirst()
    ensures Intended([0x10], 0) == 0x1DB71064
  {
    assert TableIndex(0, 0x10) == 16;
    assert Shift(16, 8) == 0x1DB71064;
    hide Shift;
    assert CompleteTable()[16] == Shift(16, 8);
    var data: seq<bv8> := [0x10];
    assert data[1..] == [];
  }

  lemma RegisterBytesFirst()
    ensures RegisterBytes(0x1DB71064, 4) == [0x64, 0x10, 0xB7, 0x1D]
  {
    assert RegisterBytes(0x1D, 1) == [0x1D];
    assert RegisterBytes(0x1DB7, 2) == [0xB7, 0x1D];
    assert RegisterBytes(0x1DB710, 3) == [0x10, 0xB7, 0x1D];
  }

  // A run that misses can still end right: the missed indices below are a message and its own CRC.
  lemma ShippedReconverges()
    ensures var data := [0x10, 0x64, 0x10, 0xB7, 0x1D];
      Shipped(data, 0) == Intended(data, 0) && Shipped(data[..1], 0) != Intended(data[..1], 0)
  {
    var first: seq<bv8> := [0x10];
    var data: seq<bv8> := [0x10, 0x64, 0x10, 0xB7, 0x1D];
    IntendedFirst();
    RegisterBytesFirst();
    CompleteTableFacts();
    hide CompleteTable, Crc, TableIndex;
    AppendedCrcCancels(CompleteTable(), first, 0);
    assert data == first + [0x64, 0x10, 0xB7, 0x1D] && data[..1] == first;
    AllMissed(data);
    AllMissed(first);
    ShippedExact(data, 0);
    ShippedExact(first, 0);
  }

  lemma IndexFromOnes(c: bv32, b: bv8)
    requires c & 0xFF == 0xFF && 0x10 <= b < 0xF0
    ensures TableIndex(c, b) >= 16
  {
    var x: bv32 := (c ^ (b as bv32)) & 0xFF;
    assert x >= 16;
  }

  lemma SkipOnes(data: seq<bv8>, c: bv32, next: bv32)
    requires data != [] && 0x10 <= data[0] < 0xF0 && c & 0xFF == 0xFF && next == c >> 8
    ensures Shipped(data, c) == Shipped(data[1..], next)
  {
    IndexFromOnes(c, data[0]);
    hide TableIndex, TableStep;
    ShippedSkips(c, data[0]);
  }

  // As shipped, MM_CalculateCRC gives 0 for every buffer of four or more bytes between 0x10 and
  // 0xEF, which includes all printable text.
  lemma ShippedIsBlind(data: seq<bv8>)
    requires |data| >= 4
    requires forall k :: 0 <= k < |data| ==> 0x10 <= data[k] < 0xF0
    ensures Shipped(data, 0xFFFF_FFFF) == 0
  {
    hide TableStep, TableIndex;
    SkipOnes(data, 0xFFFF_FFFF, 0x00FF_FFFF);
    SkipOnes(data[1..], 0x00FF_FFFF, 0xFFFF);
    SkipOnes(data[2..], 0xFFFF, 0xFF);
    SkipOnes(data[3..], 0xFF, 0);
    assert data[1..][1..] == data[2..] && data[2..][1..] == data[3..] && data[3..][1..] == data[4..];
    ShippedStaysZero(data[4..]);
  }

  // The nine digits that check values of CRCs are customarily given for.
  const CHECK_DATA: seq<bv8> := [0x31, 0x32, 0x33, 0x34, 0x35, 0x36, 0x37, 0x38, 0x39]

  lemma CheckStepsA()
    ensures Shift(0xFFFFFFCE, 8) == 0x7C231048
    ensures Shift(0x7C23107A, 8) == 0xB0ACBB32
    ensures Shift(0xB0ACBB01, 8) == 0x77B79C2D
  {
  }

  lemma CheckStepsB()
    ensures Shift(0x77B79C19, 8) == 0x641C1F5C
    ensures Shift(0x641C1F69, 8) == 0x340AC5E3
    ensures Shift(0x340AC5D5, 8) == 0xF68D2C9E
  {
  }

  lemma CheckStepsC()
    ensures Shift(0xF68D2CA9, 8) == 0xAFFC9660
    ensures Shift(0xAFFC9658, 8) == 0x651F2550
    ensures Shift(0x651F2569, 8) == 0x340BC6D9
  {
  }

  lemma StepIs(c: bv32, b: bv8, x: bv32, next: bv32)
    requires Xor(c, b as bv32) == x && Shift(x, 8) == next
    ensures TableStep(CompleteTable(), c, b) == next
  {
    hide *;
    CompleteTableFacts();
    TableStepIsShift(CompleteTable(), c, b);
  }

  lemma IntendedStep(data: seq<bv8>, k: nat, c: bv32, x: bv32, next: bv32)
    requires k < |data| && Xor(c, data[k] as bv32) == x && Shift(x, 8) == next
    ensures Intended(data[k..], c) == Intended(data[k + 1..], next)
  {
    hide Xor, Shift, TableStep;
    StepIs(c, data[k], x, next);
    assert data[k..][1..] == data[k + 1..];
  }

  lemma CheckPartA()
    ensures Intended(CHECK_DATA[0..], 0xFFFFFFFF) == Intended(CHECK_DATA[3..], 0x77B79C2D)
  {
    hide Shift, Intended;
    CheckStepsA();
    IntendedStep(CHECK_DATA, 0, 0xFFFFFFFF, 0xFFFFFFCE, 0x7C231048);
    IntendedStep(CHECK_DATA, 1, 0x7C231048, 0x7C23107A, 0xB0ACBB32);
    IntendedStep(CHECK_DATA, 2, 0xB0ACBB32, 0xB0ACBB01, 0x77B79C2D);
  }

  lemma CheckPartB()
    ensures Intended(CHECK_DATA[3..], 0x77B79C2D) == Intended(CHECK_DATA[6..], 0xF68D2C9E)
  {
    hide Shift, Intended;
    CheckStepsB();
    IntendedStep(CHECK_DATA, 3, 0x77B79C2D, 0x77B79C19, 0x641C1F5C);
    IntendedStep(CHECK_DATA, 4, 0x641C1F5C, 0x641C1F69, 0x340AC5E3);
    IntendedStep(CHECK_DATA, 5, 0x340AC5E3, 0x340AC5D5, 0xF68D2C9E);
  }

  lemma CheckPartC()
    ensures Intended(CHECK_DATA[6..], 0xF68D2C9E) == Intended(CHECK_DATA[9..], 0x340BC6D9)
  {
    hide Shift, Intended;
    CheckStepsC();
    IntendedStep(CHECK_DATA, 6, 0xF68D2C9E, 0xF68D2CA9, 0xAFFC9660);
    IntendedStep(CHECK_DATA, 7, 0xAFFC9660, 0xAFFC9658, 0x651F2550);
    IntendedStep(CHECK_DATA, 8, 0x651F2550, 0x651F2569, 0x340BC6D9);
  }

  lemma CheckEnds()
    ensures CHECK_DATA[0..] == CHECK_DATA && |CHECK_DATA| == 9 && CHECK_DATA[9..] == []
    ensures forall k :: 0 <= k < |CHECK_DATA| ==> 0x10 <= CHECK_DATA[k] < 0xF0
  {
    assert forall k :: 0 <= k < |CHECK_DATA| ==> CHECK_DATA[k] in {0x31, 0x32, 0x33, 0x34, 0x35, 0x36, 0x37, 0x38, 0x39};
  }

  lemma IntendedOfNothing(c: bv32)
    ensures Intended([], c) == c
  {
  }

  lemma FinalComplement()
    ensures Xor(0x340BC6D9, 0xFFFF_FFFF) == 0xCBF43926
  {
  }

  // Of those the complete table gives the well-known value, complemented, and the table as shipped zero.
  lemma CheckValue()
    ensures Intended(CHECK_DATA, 0xFFFF_FFFF) == 0x340BC6D9 && Xor(0x340BC6D9, 0xFFFF_FFFF) == 0xCBF43926
    ensures Shipped(CHECK_DATA, 0xFFFF_FFFF) == 0
  {
    hide CHECK_DATA, Shift, Intended, Shipped, Xor;
    CheckEnds();
    FinalComplement();
    IntendedOfNothing(0x340BC6D9);
    CheckPartA();
    CheckPartB();
    CheckPartC();
    ShippedIsBlind(CHECK_DATA);
  }

  // ----- linearity

  lemma XorThree(a: bv32, b: bv32, d: bv32)
    ensures Xor(Xor(a, b), d) == 0 <==> d == Xor(a, b)
  {
    hide Xor;
    XorZero(Xor(a, b), d);
  }

  // How far two runs and the run on their sum miss different things.
  function MissedTogether(x: seq<bv8>, y: seq<bv8>, i: bv32, j: bv32): (s: seq<bv8>)
    requires |x| == |y|
  {
    XorBytes(XorBytes(Skipped(x, i), Skipped(y, j)), Skipped(XorBytes(x, y), Xor(i, j)))
  }

  lemma SumsAgree(a: bv32, b: bv32, sa: bv32, sb: bv32, s: bv32)
    ensures Xor(Xor(a, b), s) == Xor(Xor(a, sa), Xor(b, sb)) <==> Xor(Xor(sa, sb), s) == 0
  {
    RegroupSums(a, b, sa, sb);
    hide Xor;
    XorCancel(Xor(a, b), s, Xor(sa, sb));
    XorThree(sa, sb, s);
  }

  // The shipped loop is linear on two buffers and start values exactly when the intended CRC of that
  // difference vanishes.
  lemma ShippedLinearExact(x: seq<bv8>, y: seq<bv8>, i: bv32, j: bv32)
    requires |x| == |y|
    ensures Shipped(XorBytes(x, y), Xor(i, j)) == Xor(Shipped(x, i), Shipped(y, j))
       <==> Intended(MissedTogether(x, y, i, j), 0) == 0
  {
    CompleteTableFacts();
    XorTwice(i, 0);
    XorTwice(j, 0);
    XorTwice(Xor(i, j), 0);
    XorTwice(0, 0);
    hide Crc, Skipped, CompleteTable, Xor, XorBytes, Shipped;
    var sx, sy, sxy := Skipped(x, i), Skipped(y, j), Skipped(XorBytes(x, y), Xor(i, j));
    ShippedSplits(x, i, 0);
    ShippedSplits(y, j, 0);
    ShippedSplits(XorBytes(x, y), Xor(i, j), 0);
    Linear(CompleteTable(), x, y, i, j);
    Linear(CompleteTable(), sx, sy, 0, 0);
    Linear(CompleteTable(), XorBytes(sx, sy), sxy, 0, 0);
    SumsAgree(Intended(x, i), Intended(y, j), Intended(sx, 0), Intended(sy, 0), Intended(sxy, 0));
  }

  // The entry the shipped table holds at an index.
  function Entry(i: bv8): bv32 {
    if i < 0x10 then Shift(i as bv32, 8) else 0
  }

  // The shipped table is linear at two indices exactly when both are among the literals, or one is
  // zero, or they are equal, or both and their sum are all missing.
  predicate LinearAt(p: bv8, q: bv8) {
    (p < 0x10 && q < 0x10) || p == 0 || q == 0 || p == q || (p >= 0x10 && q >= 0x10 && p ^ q >= 0x10)
  }

  lemma LiteralLooksUp(c: bv32, b: bv8)
    requires TableIndex(c, b) < 16
    ensures TableStep(SHIPPED_TABLE, c, b) == Xor(Shift(LookedUp(c, b) as bv32, 8), c >> 8)
  {
    var i := (c ^ (b as bv32)) & 0xFF;
    assert i < 256 && LookedUp(c, b) as bv32 == i;
    ShippedStepExact(c, b);
    CompleteTableIsComplete();
    hide Xor, Shift, CompleteTable, SHIPPED_TABLE;
    assert CompleteTable()[i as int] == Shift(i, 8);
  }

  lemma EntryLooksUp(c: bv32, b: bv8)
    ensures TableStep(SHIPPED_TABLE, c, b) == Xor(Entry(LookedUp(c, b)), c >> 8)
  {
    ByteIndex(c, b);
    if LookedUp(c, b) < 0x10 {
      LiteralLooksUp(c, b);
    } else {
      hide Xor, TableIndex, LookedUp;
      assert SHIPPED_TABLE[TableIndex(c, b)] == 0;
    }
  }

  lemma LookedUpIsSum(c: bv32, b: bv8)
    ensures LookedUp(c, b) == LowByte(c) ^ b
  {
  }

  lemma LowByteSum(c: bv32, d: bv32)
    ensures LowByte(Xor(c, d)) == LowByte(c) ^ LowByte(d)
  {
  }

  lemma FourBytesSum(x: bv8, y: bv8, a: bv8, b: bv8)
    ensures (x ^ y) ^ XorByte(a, b) == (x ^ a) ^ (y ^ b)
  {
  }

  lemma IndexSum(c: bv32, d: bv32, a: bv8, b: bv8)
    ensures LookedUp(Xor(c, d), XorByte(a, b)) == LookedUp(c, a) ^ LookedUp(d, b)
  {
    LookedUpIsSum(c, a);
    LookedUpIsSum(d, b);
    LookedUpIsSum(Xor(c, d), XorByte(a, b));
    hide LookedUp, LowByte, Xor, XorByte;
    LowByteSum(c, d);
    FourBytesSum(LowByte(c), LowByte(d), a, b);
  }

  lemma EntryVanishes(i: bv8)
    ensures Entry(i) == 0 <==> i == 0 || i >= 0x10
  {
    assert Shift(0, 8) == 0;
    assert i as bv32 == 0 <==> i == 0;
    hide Shift;
    ShiftInjective(i as bv32, 0, 8);
  }

  lemma LiteralSumBelow(p: bv8, q: bv8)
    requires p < 0x10 && q < 0x10
    ensures p ^ q < 0x10 && (p ^ q) as bv32 == Xor(p as bv32, q as bv32)
  {
    assert p & 0x0F == p && q & 0x0F == q;
    assert (p & 0x0F) ^ (q & 0x0F) <= 0x0F;
  }

  lemma SumOfLiterals(p: bv8, q: bv8)
    requires p < 0x10 && q < 0x10
    ensures p ^ q < 0x10 && Entry(p ^ q) == Xor(Entry(p), Entry(q))
  {
    LiteralSumBelow(p, q);
    hide Xor, Shift;
    ShiftLinear(p as bv32, q as bv32, 8);
  }

  lemma MixedSum(p: bv8, q: bv8)
    requires p < 0x10 && q >= 0x10
    ensures p ^ q >= 0x10 && q ^ p >= 0x10
  {
    assert q & 0xF0 != 0 && p & 0xF0 == 0;
    assert (p ^ q) & 0xF0 == q & 0xF0;
  }

  lemma SumVanishes(p: bv8, q: bv8)
    ensures p ^ q == 0 <==> p == q
    ensures p ^ 0 == p && 0 ^ p == p
  {
  }

  lemma EntryLinearExact(p: bv8, q: bv8)
    ensures Entry(p ^ q) == Xor(Entry(p), Entry(q)) <==> LinearAt(p, q)
  {
    hide Entry, Xor;
    EntryVanishes(p);
    EntryVanishes(q);
    EntryVanishes(p ^ q);
    SumVanishes(p, q);
    SumVanishes(q, p);
    XorZero(Entry(p), Entry(q));
    XorTwice(Entry(p), 0);
    XorTwice(Entry(q), Entry(q));
    XorTwice(0, 0);
    if p < 0x10 && q < 0x10 {
      SumOfLiterals(p, q);
    } else if p < 0x10 {
      MixedSum(p, q);
    } else if q < 0x10 {
      MixedSum(q, p);
      XorTwice(0, Entry(q));
    }
  }

  // One turn of the shipped loop is linear exactly when the table is at the two indices looked up.
  lemma ShippedStepLinearExact(c: bv32, d: bv32, a: bv8, b: bv8)
    ensures TableStep(SHIPPED_TABLE, Xor(c, d), XorByte(a, b)) == Xor(TableStep(SHIPPED_TABLE, c, a), TableStep(SHIPPED_TABLE, d, b))
       <==> LinearAt(LookedUp(c, a), LookedUp(d, b))
  {
    var p, q := LookedUp(c, a), LookedUp(d, b);
    IndexSum(c, d, a, b);
    HighPartSum(c, d);
    EntryLinearExact(p, q);
    hide Xor, XorByte, LookedUp, Entry, TableStep, LinearAt;
    EntryLooksUp(c, a);
    EntryLooksUp(d, b);
    EntryLooksUp(Xor(c, d), XorByte(a, b));
    RegroupSums(Entry(p), Entry(q), c >> 8, d >> 8);
    XorCancel(Xor(c >> 8, d >> 8), Entry(p ^ q), Xor(Entry(p), Entry(q)));
  }

  // The indices 16 and 17 are missing and their sum is not, so linearity fails on this pair.
  lemma ShippedNotLinear()
    ensures Shipped(XorBytes([0x10], [0x11]), Xor(0, 0)) != Xor(Shipped([0x10], 0), Shipped([0x11], 0))
  {
    XorTwice(0, 0);
    assert LookedUp(0, 0x10) == 0x10 && LookedUp(0, 0x11) == 0x11;
    ShippedStepLinearExact(0, 0, 0x10, 0x11);
    assert XorBytes([0x10], [0x11]) == [XorByte(0x10, 0x11)];
    hide Xor, XorByte, TableStep, LookedUp;
    OneByte(SHIPPED_TABLE, 0x10, 0);
    OneByte(SHIPPED_TABLE, 0x11, 0);
    OneByte(SHIPPED_TABLE, XorByte(0x10, 0x11), Xor(0, 0));
  }
}
