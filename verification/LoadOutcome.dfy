/** The outcome of every constructed command, and what a successful load means. */
module LoadOutcome {
  import opened CTypes
  import opened CfsConfig
  import opened CString
  import opened SymbolAddress
  import opened MemoryMap
  import opened FileName
  import opened LoadCommand
  import opened LoadTheory

  // ----- constructed commands are canonical

  // No two neighbouring characters are dots, not even where the path and the suffix meet.
  lemma OnlyOneDot(p: string)
    requires '.' !in p
    ensures var name := p + FILE_SUFFIX; forall k :: 0 <= k < |name| - 1 ==> !(name[k] == '.' && name[k + 1] == '.')
  {
    var name := p + FILE_SUFFIX;
    assert forall j :: 0 <= j < |FILE_SUFFIX| && FILE_SUFFIX[j] == '.' ==> j == 8;
    assert forall j :: 0 <= j < |p| ==> p[j] != '.';
    forall k | 0 <= k < |name| - 1 && name[k] == '.'
      ensures name[k + 1] != '.'
    {
      assert k >= |p| && FILE_SUFFIX[k - |p|] == '.';
    }
  }

  lemma NoTwoDots(name: string)
    requires forall k :: 0 <= k < |name| - 1 ==> !(name[k] == '.' && name[k + 1] == '.')
    ensures !HasTraversal(name)
  {
    forall k: nat
      ensures !OccursAt(name, "../", k) && !OccursAt(name, "..\\", k)
    {
      if k + 3 <= |name| {
        assert name[k..k + 3][0] == name[k] && name[k..k + 3][1] == name[k + 1];
      }
    }
  }

  lemma FileNameAccepted(path: nat)
    ensures Accepted(PathAt(path) + FILE_SUFFIX)
  {
    var i := path % NUM_VALID_PATHS;
    PathFacts(i);
    var p := PathAt(path);
    var name := p + FILE_SUFFIX;
    assert VALID_PATHS[i] <= name;
    hide VALID_PATHS, PathAt;
    OnlyOneDot(p);
    NoTwoDots(name);
    hide Contains;
  }

  lemma SuffixIsOneComponent()
    ensures Components(FILE_SUFFIX, {'/'}) == [FILE_SUFFIX]
  {
    hide Components;
    FirstComponent(FILE_SUFFIX, {'/'});
    assert forall k :: 0 <= k < |FILE_SUFFIX| ==> FILE_SUFFIX[k] != '/';
  }

  lemma SuffixStays(choice: nat)
    ensures StaysUnder(PathAt(choice), PathAt(choice) + FILE_SUFFIX, {'/'})
  {
    var i := choice % NUM_VALID_PATHS;
    var p := PathAt(choice);
    assert p == VALID_PATHS[i] && i < |VALID_PATHS|;
    FileNameAccepted(choice);
    SuffixIsOneComponent();
    assert FILE_SUFFIX != "..";
    hide VALID_PATHS, PathAt, Components, StaysUnder, Accepted, FILE_SUFFIX;
    var name := p + FILE_SUFFIX;
    AcceptedStaysUnder(i, name, {'/'});
    assert name[|p|..] == FILE_SUFFIX;
  }

  // Both strings of a constructed command are terminated and untruncated, and its file name passes
  // MM_VerifyFileName and resolves to a place under the table path it was built from.
  lemma ConstructedIsCanonical(data: seq<uint8>)
    requires |data| >= PACKET_SIZE
    ensures var c := Decode(data); var path := PathAt(if IsSymbolic(data) then data[11] else data[18]);
      && TerminatedCommand(c)
      && CStr(c.symName) == (if IsSymbolic(data) then SymbolAt(data[10]) else "")
      && CStr(c.fileName) == path + FILE_SUFFIX
      && Accepted(CStr(c.fileName))
      && StaysUnder(path, CStr(c.fileName), {'/'})
  {
    NoDefaultTaken(data);
    var choice := if IsSymbolic(data) then data[11] else data[18];
    var name := PathAt(choice) + FILE_SUFFIX;
    FileNameAccepted(choice);
    SuffixStays(choice);
    LiteralsNoNul();
    hide SymbolAt, PathAt, Accepted, CStr, Components, PadTo, Decode;
    PaddedString(name, OS_MAX_PATH_LEN);
    PaddedString(if IsSymbolic(data) then SymbolAt(data[10]) else "", OS_MAX_API_NAME);
  }

  // ----- the exact outcome of every input that is long enough

  lemma SymbolicTarget(name: string)
    requires 10 <= |name| < OS_MAX_API_NAME
    ensures AddressFrom(CFS_DEFAULT_RAM_ADDR, name, 0) == CFS_DEFAULT_RAM_ADDR + 0x1000 * |name|
  {
  }

  // A symbol's address lies in the first RAM region, so only the size can keep a range out of it.
  lemma SymbolicRange(length: nat, memType: uint8, size: uint32)
    requires 10 <= length < OS_MAX_API_NAME && (memType == MM_RAM || memType == MM_EEPROM)
    requires 1 <= size <= MaxLoadSize(memType)
    ensures var addr := CFS_DEFAULT_RAM_ADDR + 0x1000 * length;
      SomeRegionMatches(addr, memType, size) <==> memType == MM_RAM && size <= 0x80000 - 0x1000 * length
  {
    var addr: uint64 := CFS_DEFAULT_RAM_ADDR + 0x1000 * length;
    assert LastAddress(addr, size) == addr + size - 1;
    assert Matches(REGIONS[0], addr, memType, size) <==> memType == MM_RAM && size <= 0x80000 - 0x1000 * length;
    assert forall i :: 1 <= i < |REGIONS| ==> !Matches(REGIONS[i], addr, memType, size);
  }

  // With the first checks out of the way, only the address decides.
  lemma VerdictByAddress(c: Command, name: string, file: string)
    requires (c.memType == MM_RAM || c.memType == MM_EEPROM) && 1 <= c.numOfBytes <= MaxLoadSize(c.memType)
    requires CStr(c.symName) == name && CStr(c.fileName) == file && Accepted(file)
    ensures var addr := AddressFrom(CFS_DEFAULT_RAM_ADDR, name, c.offset);
      Verdict(c) == if !SomeRegionMatches(addr, c.memType, c.numOfBytes) then CFS_MM_ERROR_INVALID_ADDR
                    else if addr % 4 != 0 then CFS_MM_ERROR_ALIGNMENT
                    else CFE_SUCCESS
  {
    hide CStr, Contains, SomeRegionMatches, AddressFrom;
  }

  lemma ConstructedFields(data: seq<uint8>)
    requires |data| >= PACKET_SIZE
    ensures var c := Decode(data);
      && c.memType == data[0] % 2 + 1 && 1 <= c.numOfBytes <= MaxLoadSize(c.memType)
      && (if IsSymbolic(data) then c.offset == 0
          else c.offset == BaseAddress(c.memType) + Field(data, 10, 8) % 0x80000000)
  {
    NoDefaultTaken(data);
    hide Decode, SymbolAt, PathAt, PadTo, Field, Pow256, FromLittleEndian;
  }

  // Nothing but SUCCESS, INVALID_ADDR and ALIGNMENT comes out. A symbolic destination succeeds
  // exactly in RAM and within the room its symbol leaves in the first region, and is never
  // misaligned; a direct one succeeds exactly when its range lies in one region of its memory type
  // and its address is a multiple of four.
  lemma OutcomeExact(data: seq<uint8>)
    requires |data| >= PACKET_SIZE
    ensures var c := Decode(data); var v := Verdict(c);
      if IsSymbolic(data) then
        v == if c.memType == MM_RAM && c.numOfBytes <= 0x80000 - 0x1000 * |SymbolAt(data[10])| then CFE_SUCCESS
             else CFS_MM_ERROR_INVALID_ADDR
      else
        v == if !InOneRegion(c.offset, c.memType, c.numOfBytes) then CFS_MM_ERROR_INVALID_ADDR
             else if c.offset % 4 != 0 then CFS_MM_ERROR_ALIGNMENT
             else CFE_SUCCESS
  {
    hide Decode, CStr, SymbolAt, PathAt, StaysUnder, PadTo, Accepted, SomeRegionMatches, InOneRegion, Verdict, Packet;
    ConstructedIsCanonical(data);
    ConstructedFields(data);
    var c := Decode(data);
    VerdictByAddress(c, CStr(c.symName), CStr(c.fileName));
    if IsSymbolic(data) {
      SymbolicTarget(SymbolAt(data[10]));
      SymbolicRange(|SymbolAt(data[10])|, c.memType, c.numOfBytes);
    } else {
      AcceptanceExact(c.offset, c.memType, c.numOfBytes);
    }
  }

  // The same outcome in terms of a command's fields, for every command the decoder can produce.
  lemma LegalOutcome(memType: uint8, numOfBytes: uint32, crc: uint32, t: Target, path: nat)
    requires LegalFields(memType, numOfBytes, t, path)
    ensures var v := Verdict(Packet(memType, numOfBytes, crc, t, path));
      match t
      case Symbol(i) => v == if memType == MM_RAM && numOfBytes <= 0x80000 - 0x1000 * |SymbolAt(i)| then CFE_SUCCESS
                             else CFS_MM_ERROR_INVALID_ADDR
      case Address(a) => v == if !InOneRegion(a, memType, numOfBytes) then CFS_MM_ERROR_INVALID_ADDR
                              else if a % 4 != 0 then CFS_MM_ERROR_ALIGNMENT
                              else CFE_SUCCESS
  {
    var tail: seq<uint8> := seq(PACKET_SIZE, _ => 0);
    var data := Encode(memType, numOfBytes, crc, t, path) + tail;
    DecodeEncode(memType, numOfBytes, crc, t, path, tail);
    EncodeFields(memType, numOfBytes, crc, t, path, tail);
    hide Decode, Verdict, Encode, SymbolAt, InOneRegion, PathAt, PadTo;
    OutcomeExact(data);
  }

  // Every one of the three outcomes does occur.
  lemma EachOutcomeOccurs()
    ensures LegalFields(MM_RAM, 1, Symbol(0), 0) && Verdict(Packet(MM_RAM, 1, 0, Symbol(0), 0)) == CFE_SUCCESS
    ensures LegalFields(MM_EEPROM, 1, Symbol(0), 0) && Verdict(Packet(MM_EEPROM, 1, 0, Symbol(0), 0)) == CFS_MM_ERROR_INVALID_ADDR
    ensures LegalFields(MM_RAM, 1, Address(0x20000001), 0) && Verdict(Packet(MM_RAM, 1, 0, Address(0x20000001), 0)) == CFS_MM_ERROR_ALIGNMENT
  {
    hide Verdict, Packet, SymbolAt;
    LegalOutcome(MM_RAM, 1, 0, Symbol(0), 0);
    LegalOutcome(MM_EEPROM, 1, 0, Symbol(0), 0);
    LegalOutcome(MM_RAM, 1, 0, Address(0x20000001), 0);
    assert Holds(REGIONS[0], 0x20000001, MM_RAM, 1);
  }

  // ----- safety of accepted commands

  // Both loadable memory types have a region that reaches beyond any load size.
  lemma SmallWrapsBelow(addr: uint64, memType: uint8, size: uint32)
    requires memType == MM_RAM || memType == MM_EEPROM
    ensures size <= MaxLoadSize(memType) ==> WrapsBelowEnd(addr, memType, size)
  {
    assert REGIONS[0].memType == MM_RAM && REGIONS[3].memType == MM_EEPROM;
  }

  // An arbitrary command is accepted exactly when its type, size, name and alignment pass and its
  // target either lies in one region of its memory type or wraps past 2^64; the file name then has no
  // ".." component other than its last.
  lemma AcceptedExactly(c: Command)
    ensures Verdict(c) == CFE_SUCCESS <==>
      && (c.memType == MM_RAM || c.memType == MM_EEPROM) && 1 <= c.numOfBytes <= MaxLoadSize(c.memType)
      && CStr(c.fileName) != "" && !HasTraversal(CStr(c.fileName)) && TargetAddress(c) % 4 == 0
      && (InOneRegion(TargetAddress(c), c.memType, c.numOfBytes) || TargetAddress(c) + c.numOfBytes > TWO_64)
    ensures Verdict(c) == CFE_SUCCESS ==>
      var parts := Components(CStr(c.fileName), {'/'}); forall k :: 0 <= k < |parts| - 1 ==> parts[k] != ".."
  {
    hide CStr, Components, Contains, SomeRegionMatches, InOneRegion, AddressFrom, WrapsBelowEnd, TouchesRegion;
    AcceptanceExact(TargetAddress(c), c.memType, c.numOfBytes);
    if c.memType == MM_RAM || c.memType == MM_EEPROM {
      SmallWrapsBelow(TargetAddress(c), c.memType, c.numOfBytes);
    }
    if Verdict(c) == CFE_SUCCESS {
      forall k | 0 <= k < |Components(CStr(c.fileName), {'/'})| - 1
        ensures Components(CStr(c.fileName), {'/'})[k] != ".."
      {
        InnerComponentsSafe(CStr(c.fileName), {'/'}, k);
      }
    }
  }

  lemma FirstWordInRam()
    ensures InOneRegion(0x20000000, MM_RAM, 4)
  {
    assert Holds(REGIONS[0], 0x20000000, MM_RAM, 4);
  }

  // The fields of a command made from legal ones, its buffers read as strings.
  lemma PacketStrings(memType: uint8, numOfBytes: uint32, crc: uint32, t: Target, path: nat)
    ensures var c := Packet(memType, numOfBytes, crc, t, path);
      && c.memType == memType && c.numOfBytes == numOfBytes && c.offset == TargetOffset(t)
      && CStr(c.symName) == TargetSymbol(t) && CStr(c.fileName) == PathAt(path) + FILE_SUFFIX
  {
    LiteralsNoNul();
    hide CStr, PathAt, PadTo, SymbolAt;
    PaddedString(PathAt(path) + FILE_SUFFIX, OS_MAX_PATH_LEN);
    PaddedString(TargetSymbol(t), OS_MAX_API_NAME);
  }

  // A command with legal type, size and name whose target wraps, and which is accepted all the same.
  lemma WrappingCommandAccepted()
    ensures var c := Packet(MM_RAM, 5, 0, Address(TWO_64 - 4), 0);
      Verdict(c) == CFE_SUCCESS && TargetAddress(c) + c.numOfBytes > TWO_64 && !InOneRegion(TargetAddress(c), c.memType, c.numOfBytes)
  {
    hide CStr, PathAt, PadTo, Verdict, Accepted, InOneRegion, SomeRegionMatches, WrapsBelowEnd, Packet;
    var name := PathAt(0) + FILE_SUFFIX;
    FileNameAccepted(0);
    PacketStrings(MM_RAM, 5, 0, Address(TWO_64 - 4), 0);
    WrappingRange(TWO_64 - 4, MM_RAM, 5);
    SmallWrapsBelow(TWO_64 - 4, MM_RAM, 5);
    VerdictByAddress(Packet(MM_RAM, 5, 0, Address(TWO_64 - 4), 0), "", name);
  }

  // For an arbitrary command the simulation accepts, the target range lies in one region of the
  // command's memory type exactly when its end does not wrap past 2^64.
  lemma AcceptedIsContained(c: Command)
    requires Verdict(c) == CFE_SUCCESS
    ensures InOneRegion(TargetAddress(c), c.memType, c.numOfBytes) <==> TargetAddress(c) + c.numOfBytes <= TWO_64
  {
    AcceptanceExact(TargetAddress(c), c.memType, c.numOfBytes);
  }

  // The decoder's clamps rule wrapping out: whatever a constructed command that is accepted would
  // load lies in one region of its memory type.
  lemma ConstructedIsContained(data: seq<uint8>)
    requires |data| >= PACKET_SIZE
    ensures var c := Decode(data);
      Verdict(c) == CFE_SUCCESS ==> TargetAddress(c) + c.numOfBytes <= TWO_64 && InOneRegion(TargetAddress(c), c.memType, c.numOfBytes)
  {
    hide Decode, CStr, SymbolAt, PathAt, StaysUnder, PadTo, InOneRegion, Verdict, Accepted;
    ConstructedIsCanonical(data);
    ConstructedFields(data);
    if IsSymbolic(data) {
      SymbolicTarget(SymbolAt(data[10]));
    }
    if Verdict(Decode(data)) == CFE_SUCCESS {
      AcceptedIsContained(Decode(data));
    }
  }

  // For a command the simulation accepts, the symbol resolver gives the same address, and the region
  // check grants write access to it.
  lemma AcceptedByUtilities(c: Command)
    requires Verdict(c) == CFE_SUCCESS
    ensures AddressFrom(LOOKUP_BASE, CStr(c.symName), c.offset) == TargetAddress(c)
    ensures RegionVerdict(TargetAddress(c), c.numOfBytes, c.memType, true) == CFE_SUCCESS
  {
    WriteAccessByType(TargetAddress(c), c.numOfBytes, c.memType);
  }

  // The file name is another matter: the simulation does not look at the path table, so the name of an
  // accepted command passes MM_VerifyFileName exactly when it is under a table path.
  lemma AcceptedNameExact(c: Command)
    requires |c.fileName| == OS_MAX_PATH_LEN && Terminated(c.fileName)
    ensures Verdict(c) == CFE_SUCCESS ==> (Accepted(CStr(c.fileName)) <==> UnderTablePath(CStr(c.fileName)))
  {
    hide CStr, Contains, UnderTablePath, SomeRegionMatches, AddressFrom;
  }

  lemma ShortNameClean()
    ensures !HasTraversal("x") && !UnderTablePath("x")
  {
    forall i | 0 <= i < |VALID_PATHS|
      ensures !(VALID_PATHS[i] <= "x")
    {
      PathFacts(i);
    }
  }

  // A command in RAM with the file name "x" is accepted; MM_VerifyFileName rejects that name.
  lemma AcceptedNameRejected()
    ensures var c := Command(LOAD_HEADER, MM_RAM, 4, 0, PadTo("", OS_MAX_API_NAME), 0x20000000, PadTo("x", OS_MAX_PATH_LEN));
      Verdict(c) == CFE_SUCCESS && CStr(c.fileName) == "x" && !Accepted("x")
  {
    var c := Command(LOAD_HEADER, MM_RAM, 4, 0, PadTo("", OS_MAX_API_NAME), 0x20000000, PadTo("x", OS_MAX_PATH_LEN));
    ShortNameClean();
    hide CStr, PadTo, Verdict, HasTraversal, UnderTablePath, InOneRegion;
    PaddedString("x", OS_MAX_PATH_LEN);
    PaddedString("", OS_MAX_API_NAME);
    AcceptedExactly(c);
    FirstWordInRam();
  }

  // ----- the fuzzer entry point

  method TestOneInput(data: seq<uint8>, available: bool) returns (rc: int, ghost status: int)
    ensures rc == 0
    ensures |data| >= 120 && available ==> status == Verdict(Decode(data)) && status in {CFE_SUCCESS, CFS_MM_ERROR_INVALID_ADDR, CFS_MM_ERROR_ALIGNMENT}
  {
    rc, status := 0, 0;
    if |data| < PACKET_SIZE {
      return;
    }
    var packet := ConstructPacket(data, available);
    if packet == null {
      return;
    }
    ConstructedIsCanonical(data);
    OutcomeExact(data);
    var result := LoadMemFromFileSimulation(packet);
    status := result;
  }

  // ----- the memory type

  // The decoder takes the memory type as the first byte modulo two plus one, so no input is decoded to
  // the memory type its first byte names.
  lemma FirstByteIsNotMemType(data: seq<uint8>)
    requires data != []
    ensures Decode(data).memType != data[0]
  {
    hide PadTo, SymbolAt, PathAt, FromLittleEndian;
  }
}
