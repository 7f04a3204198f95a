/** The load command: decoding fuzzer input into a command and simulating its execution. */
module LoadCommand {
  import opened CTypes
  import opened CfsConfig
  import opened CString
  import opened CommandHeader
  import opened SymbolAddress
  import opened MemoryMap
  import opened FileName

  const PACKET_SIZE := 120
  const FILE_SUFFIX := "testfile.bin"
  const DEFAULT_FILE := "/cf/apps/default.bin"
  const OFFSET_MASK := 0x7FFFFFFF

  // A command's contents: the character buffers are given in full, NULs included.
  datatype Command = Command(
    header: HeaderFields, memType: uint8, numOfBytes: uint32, crc: uint32,
    symName: seq<char>, offset: uint64, fileName: seq<char>)

  // A string in a buffer of n characters, NUL-padded.
  function PadTo(s: string, n: nat): (buffer: seq<char>)
    requires |s| <= n
    ensures |buffer| == n
  {
    s + Nuls(n - |s|)
  }

  const LOAD_HEADER := HeaderFields(0x1888, 0xC000, 120, 0)

  class LoadMemFromFileCmd {
    const cmdHeader: Header
    var memType: uint8
    var numOfBytes: uint32
    var crc: uint32
    const symName: array<char>
    var offset: uint64
    const fileName: array<char>

    ghost predicate Valid()
      reads this
    {
      symName.Length == OS_MAX_API_NAME && fileName.Length == OS_MAX_PATH_LEN && symName != fileName
    }

    ghost function View(): Command
      reads this, cmdHeader, symName, fileName
    {
      Command(cmdHeader.Fields(), memType, numOfBytes, crc, symName[..], offset, fileName[..])
    }

    // malloc and memset to zero
    constructor Zeroed()
      ensures Valid() && fresh(cmdHeader) && fresh(symName) && fresh(fileName)
      ensures View() == Command(ZEROED, 0, 0, 0, Nuls(OS_MAX_API_NAME), 0, Nuls(OS_MAX_PATH_LEN))
    {
      cmdHeader := new Header.Zeroed();
      memType, numOfBytes, crc, offset := 0, 0, 0, 0;
      symName := new char[OS_MAX_API_NAME](_ => '\0');
      fileName := new char[OS_MAX_PATH_LEN](_ => '\0');
      new;
      assert symName[..] == Nuls(OS_MAX_API_NAME) && fileName[..] == Nuls(OS_MAX_PATH_LEN);
    }
  }

  // ----- what the decoder computes, for input of any length

  datatype Destination = Destination(symbol: string, offset: uint64, cursor: nat)

  // Clamping an address to the 2 GiB above the base of its memory type.
  function ClampOffset(memType: uint8, raw: uint64): uint64 {
    BaseAddress(memType) + raw % 0x80000000
  }

  function DecodeDestination(data: seq<uint8>, cursor: nat, memType: uint8): (d: Destination)
    requires cursor <= |data|
    ensures cursor <= d.cursor <= |data|
    ensures |d.symbol| < OS_MAX_API_NAME
  {
    if cursor == |data| then Destination("", 0, cursor)
    else if data[cursor] % 2 == 0 then
      if cursor + 1 < |data| then
        Destination(SymbolAt(data[cursor + 1]), 0, cursor + 2)
      else Destination("", 0, cursor + 1)
    else
      if cursor + 9 <= |data| then
        Pow256Values();
        Destination("", ClampOffset(memType, FromLittleEndian(data[cursor + 1..cursor + 9])), cursor + 9)
      else Destination("", BaseAddress(memType), cursor + 1)
  }

  function DecodeFileName(data: seq<uint8>, cursor: nat): (name: string)
    requires cursor <= |data|
    ensures |name| < OS_MAX_PATH_LEN
  {
    if cursor < |data| then PathAt(data[cursor]) + FILE_SUFFIX else DEFAULT_FILE
  }

  function DecodeMemType(data: seq<uint8>): uint8 {
    if |data| > 0 then data[0] % 2 + 1 else MM_RAM
  }

  function DecodeNumOfBytes(data: seq<uint8>, cursor: nat, memType: uint8): uint32 {
    if cursor + 4 <= |data| then FromLittleEndian(data[cursor..cursor + 4]) % MaxLoadSize(memType) + 1 else 1024
  }

  function DecodeCrc(data: seq<uint8>, cursor: nat): uint32 {
    Pow256Values();
    if cursor + 4 <= |data| then FromLittleEndian(data[cursor..cursor + 4]) else 0
  }

  // The cursor after an optional four-byte field.
  function SkipWord(data: seq<uint8>, cursor: nat): (next: nat)
    requires cursor <= |data|
    ensures cursor <= next <= |data|
  {
    if cursor + 4 <= |data| then cursor + 4 else cursor
  }

  function Decode(data: seq<uint8>): Command {
    var memType := DecodeMemType(data);
    var c1 := if |data| > 0 then 1 else 0;
    var c2 := SkipWord(data, c1);
    var c3 := SkipWord(data, c2);
    var dest := DecodeDestination(data, c3, memType);
    Command(LOAD_HEADER, memType, DecodeNumOfBytes(data, c1, memType), DecodeCrc(data, c2),
            PadTo(dest.symbol, OS_MAX_API_NAME), dest.offset,
            PadTo(DecodeFileName(data, dest.cursor), OS_MAX_PATH_LEN))
  }

  // ----- MM_Load_ConstructPacket

  lemma MaskIsModulo(raw: nat)
    ensures And(raw, OFFSET_MASK) == raw % 0x80000000
  {
    assert Pow2(8) == 0x100;
    assert Pow2(16) == 0x10000;
    assert Pow2(24) == 0x1000000;
    assert Pow2(31) == 0x80000000;
    AndLowMask(raw, 31);
  }

  method SetDestination(packet: LoadMemFromFileCmd, data: seq<uint8>, start: nat) returns (dataOffset: nat)
    requires packet.Valid() && start <= |data|
    requires packet.symName[..] == Nuls(OS_MAX_API_NAME) && packet.offset == 0
    modifies packet`offset, packet.symName
    ensures var d := DecodeDestination(data, start, packet.memType);
      dataOffset == d.cursor && packet.offset == d.offset && packet.symName[..] == PadTo(d.symbol, OS_MAX_API_NAME)
  {
    hide CStr, And, FromLittleEndian, Pow256, SymbolAt, NoNul;
    dataOffset := start;
    if dataOffset < |data| {
      var choiceByte := data[dataOffset];
      dataOffset := dataOffset + 1;
      if choiceByte % 2 == 0 {
        if NUM_VALID_SYMBOLS > 0 && dataOffset < |data| {
          SafeStrNCpy(packet.symName, Some(SymbolAt(data[dataOffset])), OS_MAX_API_NAME);
          packet.offset := 0;
          dataOffset := dataOffset + 1;
        }
      } else {
        packet.symName[0] := '\0';
        assert packet.symName[..] == Nuls(OS_MAX_API_NAME);
        if dataOffset + 8 <= |data| {
          Pow256Values();
          var raw := FromLittleEndian(data[dataOffset..dataOffset + 8]);
          MaskIsModulo(raw);
          packet.offset := BaseAddress(packet.memType) + And(raw, OFFSET_MASK);
          dataOffset := dataOffset + 8;
        } else {
          packet.offset := BaseAddress(packet.memType);
        }
      }
    }
  }

  lemma LiteralsNoNul()
    ensures NoNul(FILE_SUFFIX) && NoNul(DEFAULT_FILE)
  {
  }

  // The suffix fits behind every table path, and the append count does not cut it.
  lemma SuffixFits(path: string)
    requires |path| <= 17
    ensures |path| + |FILE_SUFFIX| < OS_MAX_PATH_LEN && |FILE_SUFFIX| < OS_MAX_PATH_LEN - |path| - 1
    ensures Added(path, FILE_SUFFIX, OS_MAX_PATH_LEN) == FILE_SUFFIX
  {
    AppendExact(path, FILE_SUFFIX, OS_MAX_PATH_LEN);
    UptoAll(FILE_SUFFIX, OS_MAX_PATH_LEN - |path| - 1);
  }

  lemma DefaultFits()
    ensures |DEFAULT_FILE| < OS_MAX_PATH_LEN
  {
  }

  lemma PaddedString(s: string, n: nat)
    requires |s| < n && NoNul(s)
    ensures Terminated(PadTo(s, n)) && CStr(PadTo(s, n)) == s
  {
    assert PadTo(s, n) == s + ['\0'] + Nuls(n - |s| - 1);
    CStrIs(s, Nuls(n - |s| - 1));
  }

  lemma AppendToPadded(s: string, added: string, n: nat)
    requires NoNul(s) && |s| + |added| < n
    ensures CStr(PadTo(s, n)) == s && Appended(PadTo(s, n), added) == PadTo(s + added, n)
  {
    PaddedString(s, n);
    hide CStr;
  }

  // What the copy macro leaves when the text fits.
  lemma CopyThatFits(s: string, n: nat, rest: string)
    requires |s| < n && rest == ""
    ensures Upto(s, n - 1) == s && Upto(s, n - 1) + Nuls(n - |Upto(s, n - 1)|) + rest == PadTo(s, n)
  {
  }

  method SetFileName(packet: LoadMemFromFileCmd, data: seq<uint8>, dataOffset: nat)
    requires packet.Valid() && dataOffset <= |data|
    modifies packet.fileName
    ensures packet.fileName[..] == PadTo(DecodeFileName(data, dataOffset), OS_MAX_PATH_LEN)
  {
    LiteralsNoNul();
    hide CStr, PathAt, NoNul, Terminated, PadTo, Appended, Upto, Nuls, FILE_SUFFIX, DEFAULT_FILE;
    if dataOffset < |data| {
      var path := PathAt(data[dataOffset]);
      CopyThatFits(path, OS_MAX_PATH_LEN, packet.fileName[OS_MAX_PATH_LEN..]);
      SafeStrNCpy(packet.fileName, Some(path), OS_MAX_PATH_LEN);
      SuffixFits(path);
      AppendToPadded(path, FILE_SUFFIX, OS_MAX_PATH_LEN);
      var currentLen := StrLen(packet.fileName);
      var remaining := OS_MAX_PATH_LEN - currentLen - 1;
      if remaining > |FILE_SUFFIX| {
        SafeStrNCat(packet.fileName, Some(FILE_SUFFIX), OS_MAX_PATH_LEN);
      }
    } else {
      DefaultFits();
      CopyThatFits(DEFAULT_FILE, OS_MAX_PATH_LEN, packet.fileName[OS_MAX_PATH_LEN..]);
      SafeStrNCpy(packet.fileName, Some(DEFAULT_FILE), OS_MAX_PATH_LEN);
    }
  }

  method SetLoadHeader(header: Header)
    requires header.Fields() == ZEROED
    modifies header
    ensures header.Fields() == LOAD_HEADER
  {
    SetMsgId(header, MM_CMD_MID);
    SetSize(header, 120);
    SetSequenceCount(header, 0);
    SetSegmentationFlag(header, COMPLETE_PACKET);
    FlagFields(0, COMPLETE_PACKET);
  }

  // Everything after the size check, for input of any length.
  method FillFromInput(packet: LoadMemFromFileCmd, data: seq<uint8>)
    requires packet.Valid()
    requires packet.View() == Command(ZEROED, 0, 0, 0, Nuls(OS_MAX_API_NAME), 0, Nuls(OS_MAX_PATH_LEN))
    modifies packet, packet.cmdHeader, packet.symName, packet.fileName
    ensures packet.Valid() && packet.View() == Decode(data)
  {
    hide FromLittleEndian, Pow256, DecodeDestination, DecodeFileName;
    SetLoadHeader(packet.cmdHeader);
    var dataOffset := 0;
    if dataOffset < |data| {
      packet.memType := data[dataOffset] % 2 + 1;
      dataOffset := dataOffset + 1;
    } else {
      packet.memType := MM_RAM;
    }
    var maxBytes := MaxLoadSize(packet.memType);
    Pow256Values();
    if dataOffset + 4 <= |data| {
      packet.numOfBytes := FromLittleEndian(data[dataOffset..dataOffset + 4]);
      packet.numOfBytes := packet.numOfBytes % maxBytes + 1;
      dataOffset := dataOffset + 4;
    } else {
      packet.numOfBytes := 1024;
    }
    if dataOffset + 4 <= |data| {
      packet.crc := FromLittleEndian(data[dataOffset..dataOffset + 4]);
      dataOffset := dataOffset + 4;
    } else {
      packet.crc := 0;
    }
    dataOffset := SetDestination(packet, data, dataOffset);
    SetFileName(packet, data, dataOffset);
  }

  // Whether malloc finds memory available is a parameter.
  method ConstructPacket(data: seq<uint8>, available: bool) returns (packet: LoadMemFromFileCmd?)
    ensures packet == null <==> |data| < 120 || !available
    ensures packet != null ==> fresh(packet) && fresh(packet.cmdHeader) && fresh(packet.symName) && fresh(packet.fileName)
    ensures packet != null ==> packet.Valid() && packet.View() == Decode(data)
  {
    if |data| < PACKET_SIZE {
      return null;
    }
    if !available {
      return null;
    }
    packet := new LoadMemFromFileCmd.Zeroed();
    FillFromInput(packet, data);
  }

  // ----- MM_LoadMemFromFileCmd_Simulation

  ghost predicate TerminatedCommand(c: Command) {
    Terminated(c.symName) && Terminated(c.fileName)
  }

  function TargetAddress(c: Command): uint64 {
    AddressFrom(CFS_DEFAULT_RAM_ADDR, CStr(c.symName), c.offset)
  }

  ghost function Verdict(c: Command): int {
    if c.memType != MM_RAM && c.memType != MM_EEPROM then CFS_MM_ERROR_INVALID_MEMTYPE
    else if c.numOfBytes == 0 || c.numOfBytes > MaxLoadSize(c.memType) then CFS_MM_ERROR_INVALID_SIZE
    else if CStr(c.fileName) == "" || HasTraversal(CStr(c.fileName)) then CFS_MM_ERROR_INVALID_FILE
    else if !SomeRegionMatches(TargetAddress(c), c.memType, c.numOfBytes) then CFS_MM_ERROR_INVALID_ADDR
    else if TargetAddress(c) % CFS_MEMORY_ALIGNMENT != 0 then CFS_MM_ERROR_ALIGNMENT
    else CFE_SUCCESS
  }

  method LoadMemFromFileSimulation(cmd: LoadMemFromFileCmd?) returns (status: int)
    requires cmd != null ==> cmd.Valid() && TerminatedCommand(cmd.View())
    ensures cmd == null ==> status == OS_INVALID_POINTER
    ensures cmd != null ==> status == Verdict(cmd.View())
  {
    hide CStr, Contains, SymbolBase;
    if cmd == null {
      return OS_INVALID_POINTER;
    }
    if cmd.memType != MM_RAM && cmd.memType != MM_EEPROM {
      return CFS_MM_ERROR_INVALID_MEMTYPE;
    }
    if cmd.numOfBytes == 0 {
      return CFS_MM_ERROR_INVALID_SIZE;
    }
    var maxSize := MaxLoadSize(cmd.memType);
    if cmd.numOfBytes > maxSize {
      return CFS_MM_ERROR_INVALID_SIZE;
    }
    var fileLen := StrLen(cmd.fileName);
    if fileLen == 0 {
      return CFS_MM_ERROR_INVALID_FILE;
    }
    var up := StrStr(cmd.fileName, "../");
    var upBackslash := StrStr(cmd.fileName, "..\\");
    if up != -1 || upBackslash != -1 {
      return CFS_MM_ERROR_INVALID_FILE;
    }
    var resolvedAddr: uint64 := 0;
    var symLen := StrLen(cmd.symName);
    if symLen > 0 {
      resolvedAddr := SymbolBase(CFS_DEFAULT_RAM_ADDR, symLen);
      resolvedAddr := (resolvedAddr + cmd.offset) % TWO_64;
    } else {
      resolvedAddr := cmd.offset;
    }
    var valid := IsValidMemoryAddress(resolvedAddr, cmd.memType, cmd.numOfBytes);
    if !valid {
      return CFS_MM_ERROR_INVALID_ADDR;
    }
    if resolvedAddr % CFS_MEMORY_ALIGNMENT != 0 {
      return CFS_MM_ERROR_ALIGNMENT;
    }
    return CFE_SUCCESS;
  }
}
