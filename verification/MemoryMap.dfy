/** The memory map and the two region scans. */
module MemoryMap {
  import opened CTypes
  import opened CfsConfig

  datatype Region = Region(startAddr: uint64, endAddr: uint64, memType: uint8, name: string, writable: bool, executable: bool)

  const REGIONS: seq<Region> := [
    Region(0x20000000, 0x2007FFFF, MM_RAM, "SRAM_MAIN", true, true),
    Region(0x20080000, 0x200FFFFF, MM_RAM, "SRAM_BACKUP", true, false),
    Region(0x60000000, 0x67FFFFFF, MM_RAM, "SDRAM_EXTERNAL", true, true),
    Region(0x08080000, 0x080FFFFF, MM_EEPROM, "EEPROM_CONFIG", true, false),
    Region(0x08100000, 0x081FFFFF, MM_EEPROM, "EEPROM_DATA", true, false),
    Region(0x08000000, 0x0807FFFF, MM_FLASH, "FLASH_BOOT", false, true),
    Region(0x08200000, 0x087FFFFF, MM_FLASH, "FLASH_APP", false, true)]

  // addr + size - 1 in 64-bit unsigned arithmetic.
  function LastAddress(addr: uint64, size: uint32): uint64 {
    (addr + size - 1) % TWO_64
  }

  // The condition both scans test on a region.
  predicate Matches(region: Region, addr: uint64, memType: uint8, size: uint32) {
    region.memType == memType && addr >= region.startAddr && LastAddress(addr, size) <= region.endAddr
  }

  ghost predicate SomeRegionMatches(addr: uint64, memType: uint8, size: uint32) {
    exists i :: 0 <= i < |REGIONS| && Matches(REGIONS[i], addr, memType, size)
  }

  // CFS_IsValidMemoryAddress
  method IsValidMemoryAddress(addr: uint64, memType: uint8, size: uint32) returns (valid: bool)
    ensures valid <==> SomeRegionMatches(addr, memType, size)
  {
    for i := 0 to |REGIONS|
      invariant forall j :: 0 <= j < i ==> !Matches(REGIONS[j], addr, memType, size)
    {
      if Matches(REGIONS[i], addr, memType, size) {
        return true;
      }
    }
    return false;
  }

  // The least index of a matching region, or |REGIONS|.
  ghost function FirstMatch(addr: uint64, memType: uint8, size: uint32, from: nat): (i: nat)
    requires from <= |REGIONS|
    ensures from <= i <= |REGIONS|
    ensures i < |REGIONS| ==> Matches(REGIONS[i], addr, memType, size)
    ensures forall j :: from <= j < i ==> !Matches(REGIONS[j], addr, memType, size)
    decreases |REGIONS| - from
  {
    if from == |REGIONS| || Matches(REGIONS[from], addr, memType, size) then from
    else FirstMatch(addr, memType, size, from + 1)
  }

  lemma FirstMatchIs(addr: uint64, memType: uint8, size: uint32, i: nat)
    requires i < |REGIONS| && Matches(REGIONS[i], addr, memType, size)
    requires forall j :: 0 <= j < i ==> !Matches(REGIONS[j], addr, memType, size)
    ensures FirstMatch(addr, memType, size, 0) == i
  {
  }

  ghost function RegionVerdict(addr: uint64, size: uint32, memType: uint8, writeAccess: bool): int {
    var i := FirstMatch(addr, memType, size, 0);
    if i == |REGIONS| then CFS_MM_ERROR_INVALID_ADDR
    else if writeAccess && !REGIONS[i].writable then CFS_MM_ERROR_PERMISSION
    else CFE_SUCCESS
  }

  // CFS_ValidateMemoryRegion
  method ValidateMemoryRegion(addr: uint64, size: uint32, memType: uint8, writeAccess: bool) returns (status: int)
    ensures status == RegionVerdict(addr, size, memType, writeAccess)
  {
    var valid := IsValidMemoryAddress(addr, memType, size);
    if !valid {
      return CFS_MM_ERROR_INVALID_ADDR;
    }
    if writeAccess {
      for i := 0 to |REGIONS|
        invariant forall j :: 0 <= j < i ==> !Matches(REGIONS[j], addr, memType, size)
      {
        if Matches(REGIONS[i], addr, memType, size) {
          FirstMatchIs(addr, memType, size, i);
          if !REGIONS[i].writable {
            return CFS_MM_ERROR_PERMISSION;
          }
          break;
        }
      }
    }
    return CFE_SUCCESS;
  }

  // ----- what acceptance means

  predicate InRegion(region: Region, a: int) {
    region.startAddr <= a <= region.endAddr
  }

  ghost predicate Holds(region: Region, addr: uint64, memType: uint8, size: uint32) {
    region.memType == memType && forall a :: addr <= a < addr + size ==> InRegion(region, a)
  }

  // Every byte of [addr, addr + size) lies in one region of the given type.
  ghost predicate InOneRegion(addr: uint64, memType: uint8, size: uint32) {
    exists i :: 0 <= i < |REGIONS| && Holds(REGIONS[i], addr, memType, size)
  }

  lemma MatchMeansHolds(region: Region, addr: uint64, memType: uint8, size: uint32)
    requires size > 0 && addr + size <= TWO_64
    ensures Matches(region, addr, memType, size) <==> Holds(region, addr, memType, size)
  {
    assert LastAddress(addr, size) == addr + size - 1;
    if Holds(region, addr, memType, size) {
      assert InRegion(region, addr) && InRegion(region, addr + size - 1);
    }
  }

  // Where an empty range is accepted: from a region's start up to one past its end.
  ghost predicate TouchesRegion(addr: uint64, memType: uint8) {
    exists i :: 0 <= i < |REGIONS| && REGIONS[i].memType == memType && REGIONS[i].startAddr <= addr <= REGIONS[i].endAddr + 1
  }

  // A range that wraps past zero ends below the end of some region of the type.
  ghost predicate WrapsBelowEnd(addr: uint64, memType: uint8, size: uint32) {
    exists i :: 0 <= i < |REGIONS| && REGIONS[i].memType == memType && addr + size - 1 - TWO_64 <= REGIONS[i].endAddr
  }

  lemma EmptyRange(addr: uint64, memType: uint8)
    ensures SomeRegionMatches(addr, memType, 0) <==> TouchesRegion(addr, memType)
  {
    forall i | 0 <= i < |REGIONS|
      ensures Matches(REGIONS[i], addr, memType, 0)
         <==> REGIONS[i].memType == memType && REGIONS[i].startAddr <= addr <= REGIONS[i].endAddr + 1
    {
      assert REGIONS[i].startAddr > 0;
    }
  }

  lemma WrappingRange(addr: uint64, memType: uint8, size: uint32)
    requires addr + size > TWO_64
    ensures SomeRegionMatches(addr, memType, size) <==> WrapsBelowEnd(addr, memType, size)
    ensures !InOneRegion(addr, memType, size)
  {
    assert LastAddress(addr, size) == addr + size - 1 - TWO_64;
    forall i | 0 <= i < |REGIONS|
      ensures REGIONS[i].startAddr <= addr && !Holds(REGIONS[i], addr, memType, size)
    {
      assert REGIONS[i].startAddr <= TWO_64 - TWO_32;
      assert !InRegion(REGIONS[i], addr);
    }
    forall i | 0 <= i < |REGIONS|
      ensures Matches(REGIONS[i], addr, memType, size)
         <==> REGIONS[i].memType == memType && addr + size - 1 - TWO_64 <= REGIONS[i].endAddr
    {
    }
  }

  // What the check accepts, for every range: a non-empty range that does not wrap exactly when it
  // lies in one region of the type; an empty one exactly when it touches such a region; one that
  // wraps, which never lies in a region, exactly when its wrapped end is low enough.
  lemma AcceptanceExact(addr: uint64, memType: uint8, size: uint32)
    ensures size > 0 && addr + size <= TWO_64 ==> (SomeRegionMatches(addr, memType, size) <==> InOneRegion(addr, memType, size))
    ensures size == 0 ==> (SomeRegionMatches(addr, memType, size) <==> TouchesRegion(addr, memType))
    ensures addr + size > TWO_64 ==> (SomeRegionMatches(addr, memType, size) <==> WrapsBelowEnd(addr, memType, size))
    ensures addr + size > TWO_64 ==> !InOneRegion(addr, memType, size)
  {
    if size == 0 {
      EmptyRange(addr, memType);
    } else if addr + size <= TWO_64 {
      forall i | 0 <= i < |REGIONS|
        ensures Matches(REGIONS[i], addr, memType, size) <==> Holds(REGIONS[i], addr, memType, size)
      {
        MatchMeansHolds(REGIONS[i], addr, memType, size);
      }
    } else {
      WrappingRange(addr, memType, size);
    }
  }

  // One past the end of the last RAM region an empty range is accepted, although no region holds it.
  lemma EmptyRangePastEnd()
    ensures SomeRegionMatches(0x68000000, MM_RAM, 0)
    ensures forall i :: 0 <= i < |REGIONS| ==> !InRegion(REGIONS[i], 0x68000000)
  {
    assert Matches(REGIONS[2], 0x68000000, MM_RAM, 0);
  }

  // A range at the top of the address space wraps past zero and is accepted although it lies in no region.
  lemma WrappingRangeAccepted()
    ensures SomeRegionMatches(TWO_64 - 1, MM_RAM, 2) && !InOneRegion(TWO_64 - 1, MM_RAM, 2)
  {
    assert Matches(REGIONS[0], TWO_64 - 1, MM_RAM, 2);
    AcceptanceExact(TWO_64 - 1, MM_RAM, 2);
  }

  lemma RegionsDisjoint(i: nat, j: nat)
    requires i < |REGIONS| && j < |REGIONS| && i != j
    ensures REGIONS[i].startAddr <= REGIONS[i].endAddr
    ensures REGIONS[i].endAddr < REGIONS[j].startAddr || REGIONS[j].endAddr < REGIONS[i].startAddr
  {
  }

  // At most one region matches a non-empty range that does not wrap, so the permission scan looks
  // at the very region that made the range valid.
  lemma MatchIsUnique(addr: uint64, memType: uint8, size: uint32, i: nat, j: nat)
    requires size > 0 && addr + size <= TWO_64 && i < |REGIONS| && j < |REGIONS|
    requires Matches(REGIONS[i], addr, memType, size) && Matches(REGIONS[j], addr, memType, size)
    ensures i == j
  {
  }

  lemma WritableByType()
    ensures forall i :: 0 <= i < |REGIONS| ==> (REGIONS[i].writable <==> REGIONS[i].memType != MM_FLASH)
  {
  }

  // The whole verdict, for every range; and, for a non-empty range that does not wrap, the containment
  // and writability each status stands for.
  lemma VerdictExact(addr: uint64, size: uint32, memType: uint8, writeAccess: bool)
    ensures var v := RegionVerdict(addr, size, memType, writeAccess);
      && (v == CFS_MM_ERROR_INVALID_ADDR <==> !SomeRegionMatches(addr, memType, size))
      && (v == CFS_MM_ERROR_PERMISSION <==> SomeRegionMatches(addr, memType, size) && writeAccess && memType == MM_FLASH)
      && (v == CFE_SUCCESS <==> SomeRegionMatches(addr, memType, size) && !(writeAccess && memType == MM_FLASH))
    ensures var v := RegionVerdict(addr, size, memType, writeAccess);
      size > 0 && addr + size <= TWO_64 ==>
        && (v == CFS_MM_ERROR_INVALID_ADDR <==> !InOneRegion(addr, memType, size))
        && (v == CFE_SUCCESS <==> exists i :: 0 <= i < |REGIONS| && Holds(REGIONS[i], addr, memType, size) && (writeAccess ==> REGIONS[i].writable))
        && (v == CFS_MM_ERROR_PERMISSION <==> writeAccess && exists i :: 0 <= i < |REGIONS| && Holds(REGIONS[i], addr, memType, size) && !REGIONS[i].writable)
  {
    var f := FirstMatch(addr, memType, size, 0);
    WritableByType();
    if size > 0 && addr + size <= TWO_64 {
      hide REGIONS, Matches, Holds;
      forall i | 0 <= i < |REGIONS|
        ensures Matches(REGIONS[i], addr, memType, size) <==> Holds(REGIONS[i], addr, memType, size)
      {
        MatchMeansHolds(REGIONS[i], addr, memType, size);
      }
      forall i | 0 <= i < |REGIONS| && Holds(REGIONS[i], addr, memType, size)
        ensures i == f
      {
        MatchIsUnique(addr, memType, size, i, f);
      }
    }
  }

  // RAM and EEPROM are writable throughout, flash nowhere: the write check only ever refuses flash.
  lemma WriteAccessByType(addr: uint64, size: uint32, memType: uint8)
    ensures RegionVerdict(addr, size, memType, true) ==
      if memType == MM_FLASH && SomeRegionMatches(addr, memType, size) then CFS_MM_ERROR_PERMISSION
      else RegionVerdict(addr, size, memType, false)
  {
  }

  // ----- the map in numbers

  // Some region of the type holds the address.
  ghost predicate Held(a: int, memType: uint8) {
    exists i :: 0 <= i < |REGIONS| && REGIONS[i].memType == memType && InRegion(REGIONS[i], a)
  }

  // The addresses each memory type holds: 1 is RAM, 2 EEPROM, 3 flash, and there is no other.
  lemma AddressesHeld(a: int)
    ensures Held(a, 1) <==> 0x20000000 <= a <= 0x200FFFFF || 0x60000000 <= a <= 0x67FFFFFF
    ensures Held(a, 2) <==> 0x08080000 <= a <= 0x081FFFFF
    ensures Held(a, 3) <==> 0x08000000 <= a <= 0x0807FFFF || 0x08200000 <= a <= 0x087FFFFF
    ensures forall memType: uint8 :: Held(a, memType) ==> 1 <= memType <= 3
  {
    assert REGIONS[0].memType == 1 && REGIONS[1].memType == 1 && REGIONS[2].memType == 1;
    assert REGIONS[3].memType == 2 && REGIONS[4].memType == 2 && REGIONS[5].memType == 3 && REGIONS[6].memType == 3;
    assert InRegion(REGIONS[0], a) || InRegion(REGIONS[1], a) || InRegion(REGIONS[2], a)
      <==> 0x20000000 <= a <= 0x200FFFFF || 0x60000000 <= a <= 0x67FFFFFF;
    assert InRegion(REGIONS[3], a) || InRegion(REGIONS[4], a) <==> 0x08080000 <= a <= 0x081FFFFF;
    assert InRegion(REGIONS[5], a) || InRegion(REGIONS[6], a)
      <==> 0x08000000 <= a <= 0x0807FFFF || 0x08200000 <= a <= 0x087FFFFF;
  }

  // The addresses from first up to but not including past, inside [low, high).
  predicate Within(first: int, past: int, low: int, high: int) {
    low <= first && past <= high
  }

  lemma HoldsInNumbers(region: Region, addr: uint64, memType: uint8, size: uint32)
    requires size > 0
    ensures Holds(region, addr, memType, size)
       <==> region.memType == memType && Within(addr, addr + size, region.startAddr, region.endAddr + 1)
  {
    if Holds(region, addr, memType, size) {
      assert InRegion(region, addr) && InRegion(region, addr + size - 1);
    }
  }

  // The ranges that lie in one region, for each memory type. Where two regions of a type meet, at
  // 0x20080000 and at 0x08100000, a range may end or begin but not continue.
  lemma RangesHeld(addr: uint64, size: uint32)
    requires size > 0
    ensures var past := addr + size;
      && (InOneRegion(addr, 1, size)
          <==> (Within(addr, past, 0x20000000, 0x20080000) || Within(addr, past, 0x20080000, 0x20100000)
                || Within(addr, past, 0x60000000, 0x68000000)))
      && (InOneRegion(addr, 2, size)
          <==> (Within(addr, past, 0x08080000, 0x08100000) || Within(addr, past, 0x08100000, 0x08200000)))
      && (InOneRegion(addr, 3, size)
          <==> (Within(addr, past, 0x08000000, 0x08080000) || Within(addr, past, 0x08200000, 0x08800000)))
  {
    forall i, memType: uint8 | 0 <= i < |REGIONS|
      ensures Holds(REGIONS[i], addr, memType, size)
         <==> REGIONS[i].memType == memType && Within(addr, addr + size, REGIONS[i].startAddr, REGIONS[i].endAddr + 1)
    {
      HoldsInNumbers(REGIONS[i], addr, memType, size);
    }
    hide Holds;
    assert forall memType: uint8 :: InOneRegion(addr, memType, size) <==>
      || Holds(REGIONS[0], addr, memType, size) || Holds(REGIONS[1], addr, memType, size) || Holds(REGIONS[2], addr, memType, size)
      || Holds(REGIONS[3], addr, memType, size) || Holds(REGIONS[4], addr, memType, size)
      || Holds(REGIONS[5], addr, memType, size) || Holds(REGIONS[6], addr, memType, size);
  }

  // Both default base addresses are the first address of a region of their type.
  lemma BasesStartRegions()
    ensures CFS_DEFAULT_RAM_ADDR == 0x20000000 && Held(0x20000000, 1) && !Held(0x1FFFFFFF, 1)
    ensures CFS_DEFAULT_EEPROM_ADDR == 0x08080000 && Held(0x08080000, 2) && !Held(0x0807FFFF, 2)
    ensures BaseAddress(1) == CFS_DEFAULT_RAM_ADDR && BaseAddress(2) == CFS_DEFAULT_EEPROM_ADDR
  {
    AddressesHeld(0x20000000);
    AddressesHeld(0x1FFFFFFF);
    AddressesHeld(0x08080000);
    AddressesHeld(0x0807FFFF);
  }

  // The verdict in numbers: the codes, and flash as the only type that cannot be written.
  lemma VerdictInNumbers(addr: uint64, size: uint32, memType: uint8, writeAccess: bool)
    ensures var v := RegionVerdict(addr, size, memType, writeAccess);
      v == if !SomeRegionMatches(addr, memType, size) then -3 else if writeAccess && memType == 3 then -10 else 0
  {
    hide SomeRegionMatches;
    VerdictExact(addr, size, memType, writeAccess);
  }

  // A non-empty part of an accepted range is accepted, in the same region.
  lemma SubRangeInherits(addr: uint64, memType: uint8, size: uint32, addr': uint64, size': uint32, i: nat)
    requires i < |REGIONS| && Matches(REGIONS[i], addr, memType, size)
    requires addr + size <= TWO_64 && addr <= addr' && 0 < size' && addr' + size' <= addr + size
    ensures Matches(REGIONS[i], addr', memType, size')
  {
  }

  // A range reaching from one region into another is rejected, even when the two are adjacent and of
  // the same type.
  lemma SpanningRangeRejected(addr: uint64, memType: uint8, size: uint32, i: nat, j: nat)
    requires i < |REGIONS| && j < |REGIONS| && i != j && size > 0 && addr + size <= TWO_64
    requires InRegion(REGIONS[i], addr) && InRegion(REGIONS[j], addr + size - 1)
    ensures !SomeRegionMatches(addr, memType, size)
  {
  }
}
