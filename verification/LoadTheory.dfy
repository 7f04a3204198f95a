/** What decoding and simulating a load command guarantee together. */
module LoadTheory {
  import opened CTypes
  import opened CfsConfig
  import opened CString
  import opened LoadCommand

  // ----- which part of the input matters

  // A symbolic destination is chosen by an even byte at position 9.
  predicate IsSymbolic(data: seq<uint8>)
    requires |data| > 9
  {
    data[9] % 2 == 0
  }

  // How much of the input the decoder reads.
  function Needed(data: seq<uint8>): (n: nat)
    requires |data| > 9
    ensures n == 12 || n == 19
  {
    if IsSymbolic(data) then 12 else 19
  }

  function Field(data: seq<uint8>, at: nat, width: nat): (n: nat)
    requires at + width <= |data|
    ensures n < Pow256(width)
  {
    FromLittleEndian(data[at..at + width])
  }

  // The command laid out by position: no default value and no cursor.
  function Positional(data: seq<uint8>): Command
    requires |data| > 9 && |data| >= Needed(data)
  {
    Pow256Values();
    var memType := data[0] % 2 + 1;
    var symbol := if IsSymbolic(data) then SymbolAt(data[10]) else "";
    var offset: uint64 := if IsSymbolic(data) then 0 else BaseAddress(memType) + Field(data, 10, 8) % 0x80000000;
    var path := PathAt(if IsSymbolic(data) then data[11] else data[18]);
    Command(LOAD_HEADER, memType, Field(data, 1, 4) % MaxLoadSize(memType) + 1, Field(data, 5, 4),
            PadTo(symbol, OS_MAX_API_NAME), offset, PadTo(path + FILE_SUFFIX, OS_MAX_PATH_LEN))
  }

  // With 12 bytes for a symbolic destination, or 19 for a direct one, no default is ever taken.
  lemma NoDefaultTaken(data: seq<uint8>)
    requires |data| > 9 && |data| >= Needed(data)
    ensures Decode(data) == Positional(data)
  {
    hide FromLittleEndian, Pow256, SymbolAt, PathAt;
    assert SkipWord(data, 1) == 5 && SkipWord(data, 5) == 9;
  }

  lemma FieldAgrees(data: seq<uint8>, other: seq<uint8>, n: nat, at: nat, width: nat)
    requires at + width <= n <= |data| && n <= |other| && data[..n] == other[..n]
    ensures Field(data, at, width) == Field(other, at, width)
  {
    assert data[at..at + width] == data[..n][at..at + width] == other[..n][at..at + width] == other[at..at + width];
  }

  // Inputs long enough to be decoded that agree on the part that is read give the same command.
  lemma PrefixDetermines(data: seq<uint8>, other: seq<uint8>)
    requires |data| >= PACKET_SIZE && |other| >= PACKET_SIZE
    requires data[..Needed(data)] == other[..Needed(data)]
    ensures Decode(data) == Decode(other) && Verdict(Decode(data)) == Verdict(Decode(other))
  {
    hide Field, SymbolAt, PathAt, PadTo, Decode, Verdict;
    var n := Needed(data);
    assert forall k :: 0 <= k < n ==> data[k] == data[..n][k] == other[..n][k] == other[k];
    FieldAgrees(data, other, n, 1, 4);
    FieldAgrees(data, other, n, 5, 4);
    if !IsSymbolic(data) {
      FieldAgrees(data, other, n, 10, 8);
    }
    NoDefaultTaken(data);
    NoDefaultTaken(other);
  }

  // ----- the decoder's image and its right inverse

  datatype Target = Symbol(index: nat) | Address(address: uint64)

  ghost predicate LegalTarget(t: Target, memType: uint8) {
    match t
    case Symbol(i) => i < NUM_VALID_SYMBOLS
    case Address(a) => BaseAddress(memType) <= a <= BaseAddress(memType) + 0x7FFFFFFF
  }

  function TargetSymbol(t: Target): (s: string)
    ensures |s| < OS_MAX_API_NAME
  {
    if t.Symbol? then SymbolAt(t.index) else ""
  }

  function TargetOffset(t: Target): uint64 {
    if t.Address? then t.address else 0
  }

  // The command with the given fields.
  function Packet(memType: uint8, numOfBytes: uint32, crc: uint32, t: Target, path: nat): Command {
    Command(LOAD_HEADER, memType, numOfBytes, crc, PadTo(TargetSymbol(t), OS_MAX_API_NAME), TargetOffset(t),
            PadTo(PathAt(path) + FILE_SUFFIX, OS_MAX_PATH_LEN))
  }

  ghost predicate LegalFields(memType: uint8, numOfBytes: uint32, t: Target, path: nat) {
    (memType == MM_RAM || memType == MM_EEPROM) && 1 <= numOfBytes <= MaxLoadSize(memType)
    && LegalTarget(t, memType) && path < NUM_VALID_PATHS
  }

  ghost predicate Legal(c: Command) {
    exists memType: uint8, numOfBytes: uint32, crc: uint32, t: Target, path: nat ::
      LegalFields(memType, numOfBytes, t, path) && c == Packet(memType, numOfBytes, crc, t, path)
  }

  // The seed layout: memory type byte, two little-endian words, destination bytes, path byte.
  function Layout(first: uint8, count: uint32, crc: uint32, target: seq<uint8>, path: uint8): (data: seq<uint8>)
    ensures |data| == 10 + |target|
  {
    [first] + ToLittleEndian(count, 4) + ToLittleEndian(crc, 4) + target + [path]
  }

  function TargetBytes(t: Target, memType: uint8): (bytes: seq<uint8>)
    requires LegalTarget(t, memType)
    ensures |bytes| == if t.Symbol? then 2 else 9
  {
    match t
    case Symbol(i) => [0, i]
    case Address(a) => [1] + ToLittleEndian(a - BaseAddress(memType), 8)
  }

  function Encode(memType: uint8, numOfBytes: uint32, crc: uint32, t: Target, path: nat): (data: seq<uint8>)
    requires LegalFields(memType, numOfBytes, t, path)
    ensures |data| == if t.Symbol? then 12 else 19
  {
    Layout(memType - 1, numOfBytes - 1, crc, TargetBytes(t, memType), path)
  }

  lemma LayoutSlices(first: uint8, count: uint32, crc: uint32, target: seq<uint8>, path: uint8, tail: seq<uint8>)
    requires target != []
    ensures var data := Layout(first, count, crc, target, path) + tail; var n := 9 + |target|;
      data[0] == first && data[1..5] == ToLittleEndian(count, 4) && data[5..9] == ToLittleEndian(crc, 4)
      && data[9] == target[0] && data[10..n] == target[1..] && data[n] == path
  {
    hide ToLittleEndian;
  }

  lemma LayoutFields(first: uint8, count: uint32, crc: uint32, target: seq<uint8>, path: uint8, tail: seq<uint8>)
    requires target != []
    ensures var data := Layout(first, count, crc, target, path) + tail; var n := 9 + |target|;
      data[0] == first && Field(data, 1, 4) == count && Field(data, 5, 4) == crc
      && data[9] == target[0] && data[10..n] == target[1..] && data[n] == path
  {
    hide ToLittleEndian, Layout, Pow256, FromLittleEndian;
    LayoutSlices(first, count, crc, target, path, tail);
    Pow256Values();
    LittleEndianRoundTrip(count, 4);
    LittleEndianRoundTrip(crc, 4);
  }

  lemma EncodeFields(memType: uint8, numOfBytes: uint32, crc: uint32, t: Target, path: nat, tail: seq<uint8>)
    requires LegalFields(memType, numOfBytes, t, path)
    ensures var data := Encode(memType, numOfBytes, crc, t, path) + tail;
      && data[0] == memType - 1 && Field(data, 1, 4) == numOfBytes - 1 && Field(data, 5, 4) == crc
      && (t.Symbol? ==> IsSymbolic(data) && data[10] == t.index && data[11] == path)
      && (t.Address? ==> !IsSymbolic(data) && Field(data, 10, 8) == t.address - BaseAddress(memType) && data[18] == path)
  {
    hide ToLittleEndian, Layout, Pow256, FromLittleEndian, BaseAddress, MaxLoadSize;
    var target := TargetBytes(t, memType);
    var data := Layout(memType - 1, numOfBytes - 1, crc, target, path) + tail;
    LayoutFields(memType - 1, numOfBytes - 1, crc, target, path, tail);
    match t
    case Symbol(i) =>
      assert data[10..11][0] == data[10];
    case Address(a) =>
      Pow256Values();
      LittleEndianRoundTrip(a - BaseAddress(memType), 8);
  }

  // Encoding any legal command and decoding it again, whatever follows in the input, gives it back.
  lemma DecodeEncode(memType: uint8, numOfBytes: uint32, crc: uint32, t: Target, path: nat, tail: seq<uint8>)
    requires LegalFields(memType, numOfBytes, t, path)
    ensures Decode(Encode(memType, numOfBytes, crc, t, path) + tail) == Packet(memType, numOfBytes, crc, t, path)
  {
    hide FromLittleEndian, ToLittleEndian, Pow256, SymbolAt, PathAt, PadTo, Decode, Encode, Field;
    var data := Encode(memType, numOfBytes, crc, t, path) + tail;
    EncodeFields(memType, numOfBytes, crc, t, path, tail);
    assert |data| >= Needed(data);
    NoDefaultTaken(data);
    SmallMod(numOfBytes - 1, MaxLoadSize(memType));
    if t.Address? {
      SmallMod(t.address - BaseAddress(memType), 0x80000000);
    }
  }

  lemma ChoicesReduce(x: nat)
    ensures SymbolAt(x) == SymbolAt(x % NUM_VALID_SYMBOLS) && PathAt(x) == PathAt(x % NUM_VALID_PATHS)
  {
    hide VALID_SYMBOLS, VALID_PATHS;
  }

  // The destination and the path an input chooses.
  function TargetOf(data: seq<uint8>): Target
    requires |data| > 9 && |data| >= Needed(data)
  {
    if IsSymbolic(data) then Symbol(data[10] % NUM_VALID_SYMBOLS)
    else Address(BaseAddress(data[0] % 2 + 1) + Field(data, 10, 8) % 0x80000000)
  }

  function PathOf(data: seq<uint8>): nat
    requires |data| > 9 && |data| >= Needed(data)
  {
    (if IsSymbolic(data) then data[11] else data[18]) % NUM_VALID_PATHS
  }

  // The fields the decoder reads out of an input.
  lemma DecodeIsPacket(data: seq<uint8>)
    requires |data| > 9 && |data| >= Needed(data)
    ensures var c := Decode(data);
      && c.memType == data[0] % 2 + 1 && c.crc == Field(data, 5, 4)
      && c.numOfBytes == Field(data, 1, 4) % MaxLoadSize(c.memType) + 1
      && LegalFields(c.memType, c.numOfBytes, TargetOf(data), PathOf(data))
      && c == Packet(c.memType, c.numOfBytes, c.crc, TargetOf(data), PathOf(data))
  {
    NoDefaultTaken(data);
    ChoicesReduce(data[10]);
    ChoicesReduce(if IsSymbolic(data) then data[11] else data[18]);
    hide FromLittleEndian, Pow256, SymbolAt, PathAt, PadTo, Decode, Field;
  }

  // The commands the decoder produces are exactly the legal ones.
  lemma ImageExact(c: Command)
    ensures Legal(c) <==> exists data: seq<uint8> :: |data| >= PACKET_SIZE && Decode(data) == c
  {
    hide Decode, Packet, LegalFields, Encode;
    if Legal(c) {
      var memType: uint8, numOfBytes: uint32, crc: uint32, t: Target, path: nat :|
        LegalFields(memType, numOfBytes, t, path) && c == Packet(memType, numOfBytes, crc, t, path);
      var tail: seq<uint8> := seq(PACKET_SIZE, _ => 0);
      DecodeEncode(memType, numOfBytes, crc, t, path, tail);
      var data := Encode(memType, numOfBytes, crc, t, path) + tail;
      assert |data| >= PACKET_SIZE && Decode(data) == c;
    }
    if data: seq<uint8> :| |data| >= PACKET_SIZE && Decode(data) == c {
      DecodeIsPacket(data);
    }
  }
  // ----- when two inputs give the same command

  lemma PadToInjective(s: string, t: string, n: nat)
    requires NoNul(s) && NoNul(t) && |s| < n && |t| < n && PadTo(s, n) == PadTo(t, n)
    ensures s == t
  {
    hide CStr, PadTo;
    PaddedString(s, n);
    PaddedString(t, n);
  }

  lemma SymbolIsChoice(t: Target, u: Target, memType: uint8)
    requires LegalTarget(t, memType) && LegalTarget(u, memType)
    requires TargetSymbol(t) == TargetSymbol(u) && TargetOffset(t) == TargetOffset(u)
    ensures t == u
  {
    TableSizes();
    hide VALID_SYMBOLS;
    if t.Symbol? && u.Symbol? {
      SymbolsDistinct(t.index, u.index);
    }
  }

  lemma PathIsChoice(path: nat, other: nat)
    requires path < NUM_VALID_PATHS && other < NUM_VALID_PATHS && PathAt(path) + FILE_SUFFIX == PathAt(other) + FILE_SUFFIX
    ensures path == other
  {
    TableSizes();
    hide VALID_PATHS;
    PathsPrefixFree(path, other, PathAt(path) + FILE_SUFFIX);
  }

  // A legal command has only one set of legal fields.
  lemma PacketInjective(memType: uint8, numOfBytes: uint32, crc: uint32, t: Target, path: nat,
                        memType': uint8, numOfBytes': uint32, crc': uint32, t': Target, path': nat)
    ensures LegalFields(memType, numOfBytes, t, path) && LegalFields(memType', numOfBytes', t', path')
      && Packet(memType, numOfBytes, crc, t, path) == Packet(memType', numOfBytes', crc', t', path')
      ==> memType == memType' && numOfBytes == numOfBytes' && crc == crc' && t == t' && path == path'
  {
    LiteralsNoNul();
    hide PadTo, PathAt, SymbolAt, CStr;
    if LegalFields(memType, numOfBytes, t, path) && LegalFields(memType', numOfBytes', t', path')
      && Packet(memType, numOfBytes, crc, t, path) == Packet(memType', numOfBytes', crc', t', path') {
      PadToInjective(TargetSymbol(t), TargetSymbol(t'), OS_MAX_API_NAME);
      PadToInjective(PathAt(path) + FILE_SUFFIX, PathAt(path') + FILE_SUFFIX, OS_MAX_PATH_LEN);
      SymbolIsChoice(t, t', memType);
      PathIsChoice(path, path');
    }
  }

  // Two inputs make the same choices: what is left of each after the decoder's remainders agrees.
  predicate SameChoices(data: seq<uint8>, other: seq<uint8>)
    requires |data| >= PACKET_SIZE && |other| >= PACKET_SIZE
  {
    && data[0] % 2 == other[0] % 2
    && Field(data, 1, 4) % MaxLoadSize(data[0] % 2 + 1) == Field(other, 1, 4) % MaxLoadSize(other[0] % 2 + 1)
    && Field(data, 5, 4) == Field(other, 5, 4)
    && TargetOf(data) == TargetOf(other)
    && PathOf(data) == PathOf(other)
  }

  // The decoder's kernel: two inputs of sufficient length give the same command exactly when they make
  // the same choices.
  lemma KernelExact(data: seq<uint8>, other: seq<uint8>)
    requires |data| >= PACKET_SIZE && |other| >= PACKET_SIZE
    ensures Decode(data) == Decode(other) <==> SameChoices(data, other)
  {
    hide Decode, Packet, Field, TargetOf, PathOf, LegalFields;
    DecodeIsPacket(data);
    DecodeIsPacket(other);
    var c, d := Decode(data), Decode(other);
    if c == d {
      PacketInjective(c.memType, c.numOfBytes, c.crc, TargetOf(data), PathOf(data),
                      d.memType, d.numOfBytes, d.crc, TargetOf(other), PathOf(other));
    }
  }
}
