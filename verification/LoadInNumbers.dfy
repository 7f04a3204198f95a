/** Decoding and simulation once more, in numbers: offsets into the input, base addresses, limits, region
    bounds and status codes are written out, so that nothing below rests on the named constants. */
module LoadInNumbers {
  import opened CTypes
  import opened CfsConfig
  import opened CString
  import opened CommandHeader
  import opened SymbolAddress
  import opened MemoryMap
  import opened FileName
  import opened LoadCommand
  import opened LoadTheory
  import opened LoadOutcome

  // ----- the fields of a decoded command

  // Four bytes of the input as a number, the first with weight one.
  function Word(data: seq<uint8>, at: nat): nat
    requires at + 4 <= |data|
  {
    data[at] as nat + 0x100 * data[at + 1] as nat + 0x1_0000 * data[at + 2] as nat + 0x100_0000 * data[at + 3] as nat
  }

  function DoubleWord(data: seq<uint8>, at: nat): nat
    requires at + 8 <= |data|
  {
    Word(data, at) + 0x1_0000_0000 * Word(data, at + 4)
  }

  lemma FieldIsWord(data: seq<uint8>, at: nat)
    requires at + 4 <= |data|
    ensures Field(data, at, 4) == Word(data, at)
  {
    hide FromLittleEndian;
    assert data[at..at + 4] == [data[at], data[at + 1], data[at + 2], data[at + 3]];
    FourByteWeights(data[at], data[at + 1], data[at + 2], data[at + 3]);
  }

  lemma FieldIsDoubleWord(data: seq<uint8>, at: nat)
    requires at + 8 <= |data|
    ensures Field(data, at, 8) == DoubleWord(data, at)
  {
    hide FromLittleEndian, Word;
    var bytes := data[at..at + 8];
    EightByteWeights(bytes);
    assert bytes[..4] == data[at..at + 4] && bytes[4..] == data[at + 4..at + 4 + 4];
    FieldIsWord(data, at);
    FieldIsWord(data, at + 4);
  }

  // Where an input of n bytes says what kind of destination it has. A field that does not fit takes no
  // room, so that in a short input the choice is read from a byte that would else belong to a field.
  function DestinationAt(n: nat): nat {
    if n == 0 then 0 else if n < 5 then 1 else if n < 9 then 5 else 9
  }

  // The file name buffer, chosen by the byte at the given position if there is one.
  function FileNameFrom(data: seq<uint8>, at: nat): string {
    PadTo(if at < |data| then PathAt(data[at]) + "testfile.bin" else "/cf/apps/default.bin", 64)
  }

  lemma FieldFrom(data: seq<uint8>, at: nat, width: nat)
    requires at + width <= |data|
    ensures FromLittleEndian(data[at..at + width]) == Field(data, at, width)
  {
    hide FromLittleEndian;
  }

  lemma DestinationInNumbers(data: seq<uint8>, p: nat, memType: uint8)
    requires p <= |data|
    ensures var d := DecodeDestination(data, p, memType); var n := |data|;
      && (p == n ==> d == Destination("", 0, n))
      && (p < n && data[p] % 2 == 0 ==> d == if p + 1 < n then Destination(SymbolAt(data[p + 1]), 0, p + 2) else Destination("", 0, n))
      && (p < n && data[p] % 2 == 1 ==>
            var base := if memType == 1 then 0x20000000 else 0x08080000;
            d == if p + 9 <= n then Destination("", base + DoubleWord(data, p + 1) % 0x80000000, p + 9)
                 else Destination("", base, p + 1))
  {
    hide SymbolAt, FromLittleEndian, Pow256, DoubleWord, Field;
    if p + 9 <= |data| {
      FieldIsDoubleWord(data, p + 1);
      FieldFrom(data, p + 1, 8);
    }
  }

  lemma WordsInNumbers(data: seq<uint8>)
    ensures var n := |data|; var memType := DecodeMemType(data); var c1 := if n > 0 then 1 else 0; var c2 := SkipWord(data, c1);
      && SkipWord(data, c2) == DestinationAt(n)
      && memType == (if n == 0 || data[0] % 2 == 0 then 1 else 2)
      && DecodeNumOfBytes(data, c1, memType) ==
           (if n < 5 then 1024 else Word(data, 1) % (if memType == 1 then 1048576 else 131072) + 1)
      && DecodeCrc(data, c2) == (if n < 9 then 0 else Word(data, 5))
  {
    hide FromLittleEndian, Pow256, Word, Field;
    if |data| >= 5 {
      FieldIsWord(data, 1);
      FieldFrom(data, 1, 4);
    }
    if |data| >= 9 {
      FieldIsWord(data, 5);
      FieldFrom(data, 5, 4);
    }
  }

  // Every position past the input stands for the default file.
  lemma NoFile(data: seq<uint8>, at: nat)
    requires at >= |data|
    ensures FileNameFrom(data, at) == FileNameFrom(data, |data|)
  {
  }

  lemma FileInNumbers(data: seq<uint8>, at: nat)
    requires at <= |data|
    ensures PadTo(DecodeFileName(data, at), 64) == FileNameFrom(data, at)
  {
    hide PathAt, PadTo;
  }

  // Every field of the command decoded from an input of any length, defaults included.
  lemma DecodeInNumbers(data: seq<uint8>)
    ensures var c := Decode(data); var n := |data|; var p := DestinationAt(n); var ram := n == 0 || data[0] % 2 == 0;
      && p <= n && c.header == HeaderFields(0x1888, 0xC000, 120, 0)
      && c.memType == (if ram then 1 else 2)
      && c.numOfBytes == (if n < 5 then 1024 else Word(data, 1) % (if ram then 1048576 else 131072) + 1)
      && c.crc == (if n < 9 then 0 else Word(data, 5))
      && (p == n ==> c.symName == Nuls(20) && c.offset == 0 && c.fileName == FileNameFrom(data, n))
      && (p < n && data[p] % 2 == 0 ==>
            c.symName == (if p + 1 < n then PadTo(SymbolAt(data[p + 1]), 20) else Nuls(20)) && c.offset == 0
            && c.fileName == FileNameFrom(data, p + 2))
      && (p < n && data[p] % 2 == 1 ==>
            var whole := p + 9 <= n;
            c.symName == Nuls(20)
            && c.offset == (if ram then 0x20000000 else 0x08080000) + (if whole then DoubleWord(data, p + 1) % 0x80000000 else 0)
            && c.fileName == FileNameFrom(data, if whole then p + 9 else p + 1))
  {
    var p, memType := DestinationAt(|data|), DecodeMemType(data);
    assert PadTo("", 20) == Nuls(20);
    WordsInNumbers(data);
    DestinationInNumbers(data, p, memType);
    FileInNumbers(data, DecodeDestination(data, p, memType).cursor);
    hide SymbolAt, PathAt, PadTo, Nuls, Word, DoubleWord, DecodeDestination, DecodeFileName, FileNameFrom;
    hide DecodeMemType, DecodeNumOfBytes, DecodeCrc, SkipWord, DestinationAt;
    if p < |data| && data[p] % 2 == 0 && p + 1 == |data| {
      NoFile(data, p + 1);
      NoFile(data, p + 2);
    }
  }

  // In the inputs that become commands every field is in its place.
  lemma FieldsInNumbers(data: seq<uint8>)
    requires |data| >= 120
    ensures var c := Decode(data); var ram := data[0] % 2 == 0; var symbolic := data[9] % 2 == 0;
      && c.header == HeaderFields(0x1888, 0xC000, 120, 0)
      && c.memType == (if ram then 1 else 2)
      && c.numOfBytes == Word(data, 1) % (if ram then 1048576 else 131072) + 1
      && c.crc == Word(data, 5)
      && c.offset == (if symbolic then 0 else (if ram then 0x20000000 else 0x08080000) + DoubleWord(data, 10) % 0x80000000)
      && c.symName == (if symbolic then PadTo(SymbolAt(data[10]), 20) else Nuls(20))
      && c.fileName == PadTo(PathAt(if symbolic then data[11] else data[18]) + "testfile.bin", 64)
  {
    hide Decode, SymbolAt, PathAt, PadTo, Nuls, Word, DoubleWord;
    DecodeInNumbers(data);
  }

  // What each choice byte stands for; both tables are counted round.
  lemma ChoicesWrap(x: nat)
    ensures SymbolAt(x) == SymbolAt(x % 24) && PathAt(x) == PathAt(x % 15)
  {
    ChoicesReduce(x);
  }

  lemma PathChoices()
    ensures PathAt(0) == "/cf/apps/" && PathAt(1) == "/cf/download/" && PathAt(2) == "/cf/upload/" && PathAt(3) == "/cf/log/"
    ensures PathAt(4) == "/cf/tmp/"
  {
  }

  lemma OtherPathChoices()
    ensures PathAt(5) == "/ram/" && PathAt(6) == "/rom/" && PathAt(7) == "/vol/"
    ensures PathAt(8) == "/data/tables/" && PathAt(9) == "/data/scripts/" && PathAt(10) == "/data/config/"
    ensures PathAt(11) == "/mission/apps/" && PathAt(12) == "/mission/data/"
    ensures PathAt(13) == "/platform/boot/" && PathAt(14) == "/platform/config/"
  {
  }

  lemma CoreSymbols()
    ensures SymbolAt(0) == "CFE_ES_Global" && SymbolAt(1) == "CFE_TBL_Global" && SymbolAt(2) == "CFE_EVS_Global"
  {
  }

  lemma MoreCoreSymbols()
    ensures SymbolAt(3) == "CFE_SB_Global" && SymbolAt(4) == "CFE_TIME_Global"
  {
  }

  lemma MemoryManagerSymbols()
    ensures SymbolAt(5) == "MM_AppData" && SymbolAt(6) == "MM_ResetArea" && SymbolAt(7) == "MM_CmdCounter"
    ensures SymbolAt(8) == "MM_ErrCounter"
  {
  }

  lemma ApplicationSymbols()
    ensures SymbolAt(9) == "CS_AppData" && SymbolAt(10) == "DS_AppData" && SymbolAt(11) == "FM_AppData"
    ensures SymbolAt(12) == "HK_AppData" && SymbolAt(13) == "LC_AppData" && SymbolAt(14) == "MD_AppData"
    ensures SymbolAt(15) == "SC_AppData" && SymbolAt(16) == "SCH_AppData"
  {
  }

  lemma PlatformSymbols()
    ensures SymbolAt(17) == "OS_VolumeTable" && SymbolAt(18) == "PSP_MemoryTable" && SymbolAt(19) == "CFE_PSP_MemoryTable"
    ensures SymbolAt(20) == "BSP_RAM_START" && SymbolAt(21) == "BSP_RAM_END" && SymbolAt(22) == "BSP_EEPROM_START"
    ensures SymbolAt(23) == "BSP_EEPROM_END"
  {
  }

  // ----- the status of a decoded command

  // Both default bases are the start of a region of 0x80000 bytes; the room behind them, by offset.
  lemma RoomBehindBase(ram: bool, r: nat, n: uint32)
    requires r < 0x80000000 && n > 0
    ensures InOneRegion((if ram then 0x20000000 else 0x08080000) + r, if ram then 1 else 2, n)
       <==> r + n <= 0x80000 || (0x80000 <= r && r + n <= if ram then 0x100000 else 0x180000)
              || (ram && 0x40000000 <= r && r + n <= 0x48000000)
  {
    hide InOneRegion;
    RangesHeld((if ram then 0x20000000 else 0x08080000) + r, n);
  }

  lemma DirectTarget(data: seq<uint8>)
    requires |data| >= 120 && data[9] % 2 == 1
    ensures var c := Decode(data); var ram := data[0] % 2 == 0;
      c.memType == (if ram then 1 else 2) && c.numOfBytes > 0
      && c.offset == (if ram then 0x20000000 else 0x08080000) + DoubleWord(data, 10) % 0x80000000
  {
    hide Decode, SymbolAt, PathAt, PadTo, Word, DoubleWord;
    FieldsInNumbers(data);
  }

  // The status of an input with a direct destination at offset r from the base of its memory type.
  lemma DirectInNumbers(data: seq<uint8>)
    requires |data| >= 120 && data[9] % 2 == 1
    ensures var ram := data[0] % 2 == 0; var r, n := DoubleWord(data, 10) % 0x80000000, Decode(data).numOfBytes;
      Verdict(Decode(data)) ==
        if !(r + n <= 0x80000 || (0x80000 <= r && r + n <= if ram then 0x100000 else 0x180000)
               || (ram && 0x40000000 <= r && r + n <= 0x48000000)) then -3
        else if r % 4 != 0 then -9
        else 0
  {
    hide Decode, Verdict, InOneRegion, SymbolAt, PathAt, PadTo, Word, DoubleWord;
    OutcomeExact(data);
    DirectTarget(data);
    RoomBehindBase(data[0] % 2 == 0, DoubleWord(data, 10) % 0x80000000, Decode(data).numOfBytes);
  }

  // At offset zero from its base a load is accepted exactly when it fits in the first region.
  lemma BaseInNumbers(data: seq<uint8>)
    requires |data| >= 120 && data[9] % 2 == 1 && DoubleWord(data, 10) % 0x80000000 == 0
    ensures var c := Decode(data);
      && c.offset == (if data[0] % 2 == 0 then 0x20000000 else 0x08080000)
      && Verdict(c) == if c.numOfBytes <= 0x80000 then 0 else -3
  {
    hide Decode, Verdict, DoubleWord, SymbolAt, PathAt, PadTo;
    DirectInNumbers(data);
    FieldsInNumbers(data);
    ConstructedFields(data);
  }

  // The status of an input with a symbolic destination.
  lemma SymbolicInNumbers(data: seq<uint8>)
    requires |data| >= 120 && data[9] % 2 == 0
    ensures var n := Decode(data).numOfBytes;
      Verdict(Decode(data)) == if data[0] % 2 == 0 && n + 4096 * |SymbolAt(data[10])| <= 0x80000 then 0 else -3
  {
    hide Decode, Verdict, SymbolAt, PathAt, PadTo, Word;
    OutcomeExact(data);
    FieldsInNumbers(data);
  }

  // ----- the status of an arbitrary command

  // The memory type is one of the two that can be loaded, and the size within its limit.
  predicate TypePasses(c: Command) {
    c.memType == 1 || c.memType == 2
  }

  predicate SizePasses(c: Command) {
    1 <= c.numOfBytes <= if c.memType == 1 then 1048576 else 131072
  }

  ghost predicate NamePasses(c: Command) {
    CStr(c.fileName) != "" && forall k: nat :: !DotsAt(CStr(c.fileName), k)
  }

  // Where the command would load: by name, 4096 bytes a character from 0x20000000, and the offset.
  function Target(c: Command): nat {
    var name := CStr(c.symName);
    ((if name == "" then 0 else 0x20000000 + 4096 * |name|) + c.offset) % 0x1_0000_0000_0000_0000
  }

  ghost predicate TargetPasses(c: Command) {
    var past := Target(c) + c.numOfBytes;
    || past > 0x1_0000_0000_0000_0000
    || (c.memType == 1 && (Within(Target(c), past, 0x20000000, 0x20080000) || Within(Target(c), past, 0x20080000, 0x20100000)
                           || Within(Target(c), past, 0x60000000, 0x68000000)))
    || (c.memType == 2 && (Within(Target(c), past, 0x08080000, 0x08100000) || Within(Target(c), past, 0x08100000, 0x08200000)))
  }

  // Wrapping after every addition or once at the end is the same.
  lemma SumsWrap(a: nat, b: nat, d: nat)
    ensures ((a + b % TWO_64) % TWO_64 + d) % TWO_64 == (a + b + d) % TWO_64
  {
    WrapFirst(a + b % TWO_64, d);
    WrapFirst(b, a + d);
  }

  lemma TargetIsAddress(c: Command)
    ensures Target(c) == TargetAddress(c)
  {
    hide CStr;
    var name := CStr(c.symName);
    if name != "" {
      SumsWrap(0x20000000, 4096 * |name|, c.offset);
    } else {
      SmallMod(c.offset, TWO_64);
    }
  }

  lemma TargetScanned(c: Command)
    requires TypePasses(c) && SizePasses(c)
    ensures SomeRegionMatches(TargetAddress(c), c.memType, c.numOfBytes) <==> TargetPasses(c)
  {
    hide SomeRegionMatches, InOneRegion, TargetAddress, Target, WrapsBelowEnd;
    TargetIsAddress(c);
    AcceptanceExact(TargetAddress(c), c.memType, c.numOfBytes);
    RangesHeld(TargetAddress(c), c.numOfBytes);
    SmallWrapsBelow(TargetAddress(c), c.memType, c.numOfBytes);
  }

  // Each status, exactly when the simulation returns it, for every command whatsoever.
  lemma StatusExact(c: Command)
    ensures Verdict(c) == -1 <==> !TypePasses(c)
    ensures Verdict(c) == -2 <==> TypePasses(c) && !SizePasses(c)
    ensures Verdict(c) == -4 <==> TypePasses(c) && SizePasses(c) && !NamePasses(c)
    ensures Verdict(c) == -3 <==> TypePasses(c) && SizePasses(c) && NamePasses(c) && !TargetPasses(c)
    ensures Verdict(c) == -9 <==> TypePasses(c) && SizePasses(c) && NamePasses(c) && TargetPasses(c) && Target(c) % 4 != 0
    ensures Verdict(c) == 0 <==> TypePasses(c) && SizePasses(c) && NamePasses(c) && TargetPasses(c) && Target(c) % 4 == 0
  {
    hide CStr, Contains, SomeRegionMatches, TargetAddress, Target, TargetPasses, DotsAt;
    TraversalExact(CStr(c.fileName));
    TargetIsAddress(c);
    if TypePasses(c) && SizePasses(c) {
      TargetScanned(c);
    }
  }

  // A command with the given type, size, symbol, offset and file name.
  function Plain(memType: uint8, numOfBytes: uint32, symbol: string, offset: uint64, file: string): Command
    requires |symbol| < 20 && |file| < 64
  {
    Command(HeaderFields(0x1888, 0xC000, 120, 0), memType, numOfBytes, 0, PadTo(symbol, 20), offset, PadTo(file, 64))
  }

  lemma PlainStrings(memType: uint8, numOfBytes: uint32, symbol: string, offset: uint64, file: string)
    requires |symbol| < 20 && |file| < 64 && NoNul(symbol) && NoNul(file)
    ensures var c := Plain(memType, numOfBytes, symbol, offset, file);
      c.memType == memType && c.numOfBytes == numOfBytes && c.offset == offset && CStr(c.symName) == symbol && CStr(c.fileName) == file
  {
    hide CStr, PadTo;
    PaddedString(symbol, 20);
    PaddedString(file, 64);
  }

  lemma PlainStatus(memType: uint8, numOfBytes: uint32, symbol: string, offset: uint64)
    requires |symbol| < 20 && NoNul(symbol)
    ensures var c := Plain(memType, numOfBytes, symbol, offset, "/ram/x");
      CStr(c.symName) == symbol && NamePasses(c)
  {
    assert NoNul("/ram/x");
    assert forall k: nat :: !DotsAt("/ram/x", k);
    hide CStr, Plain, DotsAt;
    PlainStrings(memType, numOfBytes, symbol, offset, "/ram/x");
  }

  lemma LimitsOccur()
    ensures Verdict(Plain(1, 1048577, "", 0x60000000, "/ram/x")) == -2 && Verdict(Plain(1, 1048576, "", 0x60000000, "/ram/x")) == 0
    ensures Verdict(Plain(2, 131073, "", 0x08080000, "/ram/x")) == -2 && Verdict(Plain(2, 131072, "", 0x08080000, "/ram/x")) == 0
  {
    hide CStr, Verdict, PadTo, NamePasses;
    assert NoNul("");
    PlainStatus(1, 1048577, "", 0x60000000);
    StatusExact(Plain(1, 1048577, "", 0x60000000, "/ram/x"));
    PlainStatus(1, 1048576, "", 0x60000000);
    StatusExact(Plain(1, 1048576, "", 0x60000000, "/ram/x"));
    PlainStatus(2, 131073, "", 0x08080000);
    StatusExact(Plain(2, 131073, "", 0x08080000, "/ram/x"));
    PlainStatus(2, 131072, "", 0x08080000);
    StatusExact(Plain(2, 131072, "", 0x08080000, "/ram/x"));
  }

  lemma TraversalOccurs()
    ensures Verdict(Plain(1, 4, "", 0x20000000, "/ram/../x")) == -4
  {
    assert NoNul("") && NoNul("/ram/../x");
    assert DotsAt("/ram/../x", 5);
    hide CStr, Verdict, PadTo, DotsAt;
    PlainStrings(1, 4, "", 0x20000000, "/ram/../x");
    StatusExact(Plain(1, 4, "", 0x20000000, "/ram/../x"));
  }

  // One command for each status: an unknown type, sizes just outside the limits, a traversal, an
  // address in no region, a misaligned symbol and a good load.
  lemma EachStatusOccurs()
    ensures Verdict(Plain(3, 4, "", 0x20000000, "/ram/x")) == -1
    ensures Verdict(Plain(1, 0, "", 0x20000000, "/ram/x")) == -2
    ensures Verdict(Plain(1, 1048577, "", 0x60000000, "/ram/x")) == -2 && Verdict(Plain(1, 1048576, "", 0x60000000, "/ram/x")) == 0
    ensures Verdict(Plain(2, 131073, "", 0x08080000, "/ram/x")) == -2 && Verdict(Plain(2, 131072, "", 0x08080000, "/ram/x")) == 0
    ensures Verdict(Plain(1, 4, "", 0x20000000, "/ram/../x")) == -4
    ensures Verdict(Plain(1, 4, "", 0, "/ram/x")) == -3
    ensures Verdict(Plain(1, 4, "MM_AppData", 2, "/ram/x")) == -9 && Verdict(Plain(1, 4, "MM_AppData", 0, "/ram/x")) == 0
  {
    hide CStr, Verdict, PadTo, NamePasses;
    assert NoNul("") && NoNul("MM_AppData");
    PlainStatus(3, 4, "", 0x20000000);
    StatusExact(Plain(3, 4, "", 0x20000000, "/ram/x"));
    PlainStatus(1, 0, "", 0x20000000);
    StatusExact(Plain(1, 0, "", 0x20000000, "/ram/x"));
    LimitsOccur();
    TraversalOccurs();
    PlainStatus(1, 4, "", 0);
    StatusExact(Plain(1, 4, "", 0, "/ram/x"));
    PlainStatus(1, 4, "MM_AppData", 2);
    StatusExact(Plain(1, 4, "MM_AppData", 2, "/ram/x"));
    PlainStatus(1, 4, "MM_AppData", 0);
    StatusExact(Plain(1, 4, "MM_AppData", 0, "/ram/x"));
  }

  // A null command and a command of the wrong size give the same code.
  lemma NullIsNotDistinguished()
    ensures OS_INVALID_POINTER == -2 && Verdict(Plain(1, 0, "", 0x20000000, "/ram/x")) == OS_INVALID_POINTER
  {
    hide Verdict;
    EachStatusOccurs();
  }

  // ----- the seed files

  function Zeros(n: nat): (zeros: seq<uint8>)
    ensures |zeros| == n
  {
    seq(n, _ => 0)
  }

  // The three seeds the build writes, byte by byte; each has 200 bytes.
  function SeedValidRam(): (data: seq<uint8>)
    ensures |data| == 200
  {
    [1, 0x00, 0x04, 0, 0, 0, 0, 0, 0, 0, 0, 0] + Zeros(188)
  }

  function SeedValidEeprom(): (data: seq<uint8>)
    ensures |data| == 200
  {
    [2, 0x00, 0x00, 0x01, 0x00, 0x78, 0x56, 0x34, 0x12, 1, 0x00, 0x00, 0x08, 0x08, 0, 0, 0, 0, 1] + Zeros(181)
  }

  function SeedMaxSize(): (data: seq<uint8>)
    ensures |data| == 200
  {
    [1, 0x00, 0x00, 0x10, 0x00, 0, 0, 0, 0, 0, 0, 2] + Zeros(188)
  }

  lemma ValidRamInFull()
    ensures Decode(SeedValidRam()) == Command(HeaderFields(0x1888, 0xC000, 120, 0), 2, 1025, 0,
      PadTo("CFE_ES_Global", 20), 0, PadTo("/cf/apps/" + "testfile.bin", 64))
  {
    hide Decode, SymbolAt, PathAt, PadTo, Nuls;
    PathChoices();
    CoreSymbols();
    FieldsInNumbers(SeedValidRam());
  }

  lemma ValidEepromInFull()
    ensures Decode(SeedValidEeprom()) == Command(HeaderFields(0x1888, 0xC000, 120, 0), 1, 65537, 0x12345678,
      Nuls(20), 0x28080000, PadTo("/cf/download/" + "testfile.bin", 64))
  {
    hide Decode, SymbolAt, PathAt, PadTo, Nuls;
    PathChoices();
    FieldsInNumbers(SeedValidEeprom());
  }

  lemma MaxSizeInFull()
    ensures Decode(SeedMaxSize()) == Command(HeaderFields(0x1888, 0xC000, 120, 0), 2, 1, 0,
      PadTo("CFE_ES_Global", 20), 0, PadTo("/cf/upload/" + "testfile.bin", 64))
  {
    hide Decode, SymbolAt, PathAt, PadTo, Nuls;
    PathChoices();
    CoreSymbols();
    FieldsInNumbers(SeedMaxSize());
  }

  // The three seeds: each is for the memory type it was not named after, because the decoder takes the
  // type as the first byte modulo two plus one, and the largest is for one byte. None is accepted.
  lemma SeedsAreRejected()
    ensures Decode(SeedValidRam()).memType == 2 && Verdict(Decode(SeedValidRam())) == -3
    ensures Decode(SeedValidEeprom()).memType == 1 && Verdict(Decode(SeedValidEeprom())) == -3
    ensures Decode(SeedMaxSize()).numOfBytes == 1 && Verdict(Decode(SeedMaxSize())) == -3
  {
    hide Decode, Verdict, SymbolAt, PathAt, PadTo, Nuls;
    SymbolicInNumbers(SeedValidRam());
    SymbolicInNumbers(SeedMaxSize());
    ValidRamInFull();
    ValidEepromInFull();
    MaxSizeInFull();
    DirectInNumbers(SeedValidEeprom());
  }
}
