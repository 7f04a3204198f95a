/** The hex-dump printer, with its output collected in a string, and a reader that undoes it. */
module HexDump {
  import opened CTypes

  function HexDigit(d: nat): (c: char)
    requires d < 16
    ensures c != ' '
  {
    "0123456789ABCDEF"[d]
  }

  function HexUpper(n: nat): (s: string)
    ensures |s| > 0
  {
    if n < 16 then [HexDigit(n)] else HexUpper(n / 16) + [HexDigit(n % 16)]
  }

  function Zeros(n: nat): (s: string)
    ensures |s| == n
  {
    seq(n, _ => '0')
  }

  // printf's %0<width>X
  function PadHex(n: nat, width: nat): (s: string)
    ensures |s| >= width
  {
    var digits := HexUpper(n);
    if |digits| >= width then digits else Zeros(width - |digits|) + digits
  }

  // ----- the text of a dump

  function Cell(chunk: seq<uint8>, j: nat): string {
    if j < |chunk| then PadHex(chunk[j], 2) + " " else "   "
  }

  // The first j of a line's sixteen hex cells.
  function Cells(chunk: seq<uint8>, j: nat): string {
    if j == 0 then "" else Cells(chunk, j - 1) + Cell(chunk, j - 1)
  }

  function Printable(c: uint8): char {
    if 32 <= c <= 126 then c as char else '.'
  }

  function Ascii(chunk: seq<uint8>): (s: string)
    ensures |s| == |chunk|
  {
    seq(|chunk|, i requires 0 <= i < |chunk| => Printable(chunk[i]))
  }

  function Line(prefix: string, offset: nat, chunk: seq<uint8>): string {
    prefix + PadHex(offset, 4) + ": " + Cells(chunk, 16) + " " + Ascii(chunk) + "\n"
  }

  function ChunkLength(bytes: seq<uint8>): nat {
    if |bytes| < 16 then |bytes| else 16
  }

  function Dump(prefix: string, bytes: seq<uint8>, offset: nat): string {
    if bytes == [] then ""
    else
      var n := ChunkLength(bytes);
      Line(prefix, offset, bytes[..n]) + Dump(prefix, bytes[n..], offset + 16)
  }

  function PrefixText(prefix: Option<string>): string {
    match prefix
    case None => ""
    case Some(text) => text
  }

  function Chunk(bytes: seq<uint8>, i: nat): seq<uint8> {
    if i + 16 <= |bytes| then bytes[i..i + 16] else if i <= |bytes| then bytes[i..] else []
  }

  lemma CellText(bytes: seq<uint8>, i: nat, j: nat)
    requires i < |bytes| && j < 16
    ensures Cell(Chunk(bytes, i), j) == if i + j < |bytes| then PadHex(bytes[i + j], 2) + " " else "   "
  {
    hide PadHex;
  }

  lemma CellsStep(chunk: seq<uint8>, n: nat)
    ensures Cells(chunk, n + 1) == Cells(chunk, n) + Cell(chunk, n)
  {
  }

  lemma NoCells(chunk: seq<uint8>)
    ensures Cells(chunk, 0) == ""
  {
  }

  // The two inner loops of CFS_HexDump.
  method HexColumns(bytes: seq<uint8>, i: nat) returns (cells: string)
    requires i < |bytes|
    ensures cells == Cells(Chunk(bytes, i), 16)
  {
    ghost var chunk := Chunk(bytes, i);
    hide Chunk, Cell, Cells, PadHex;
    cells := "";
    NoCells(chunk);
    for j := 0 to 16
      invariant cells == Cells(chunk, j)
    {
      CellsStep(chunk, j);
      CellText(bytes, i, j);
      if i + j < |bytes| {
        cells := cells + (PadHex(bytes[i + j], 2) + " ");
      } else {
        cells := cells + "   ";
      }
    }
  }

  method AsciiColumn(bytes: seq<uint8>, i: nat) returns (ascii: string)
    requires i < |bytes|
    ensures ascii == Ascii(Chunk(bytes, i))
  {
    ghost var chunk := Chunk(bytes, i);
    ascii := "";
    var j := 0;
    while j < 16 && i + j < |bytes|
      invariant 0 <= j <= |chunk| && ascii == Ascii(chunk)[..j]
    {
      var c := bytes[i + j];
      ascii := ascii + [if 32 <= c <= 126 then c as char else '.'];
      j := j + 1;
    }
  }

  // One turn of the outer loop of CFS_HexDump.
  method FormatLine(bytes: seq<uint8>, i: nat, prefix: Option<string>) returns (line: string)
    requires i < |bytes|
    ensures line == Line(PrefixText(prefix), i, Chunk(bytes, i))
  {
    hide PadHex, Cells, Ascii, Chunk;
    if prefix.Some? {
      line := prefix.value + PadHex(i, 4) + ": ";
    } else {
      line := PadHex(i, 4) + ": ";
      assert line == "" + PadHex(i, 4) + ": ";
    }
    var cells := HexColumns(bytes, i);
    line := line + cells;
    line := line + " ";
    var ascii := AsciiColumn(bytes, i);
    line := line + ascii;
    line := line + "\n";
  }

  // What is left to print once the lines before offset i are out.
  function Remaining(bytes: seq<uint8>, i: nat): seq<uint8> {
    if i <= |bytes| then bytes[i..] else []
  }

  lemma NothingPrinted(prefix: string, whole: seq<uint8>)
    ensures "" + Dump(prefix, Remaining(whole, 0), 0) == Dump(prefix, whole, 0)
  {
    assert whole[0..] == whole;
  }

  lemma AllPrinted(prefix: string, whole: seq<uint8>, i: nat)
    requires i >= |whole|
    ensures Dump(prefix, Remaining(whole, i), i) == ""
  {
  }

  lemma NextLine(prefix: string, whole: seq<uint8>, i: nat, out: string, line: string)
    requires i < |whole|
    requires line == Line(prefix, i, Chunk(whole, i))
    ensures out + line + Dump(prefix, Remaining(whole, i + 16), i + 16) == out + Dump(prefix, Remaining(whole, i), i)
  {
    hide Line;
    var rest := Remaining(whole, i);
    assert rest[..ChunkLength(rest)] == Chunk(whole, i);
    assert rest[ChunkLength(rest)..] == Remaining(whole, i + 16);
  }

  // CFS_HexDump
  method HexDump(data: array?<uint8>, length: nat, prefix: Option<string>) returns (out: string)
    requires data != null ==> length <= data.Length
    ensures data == null ==> out == ""
    ensures data != null ==> out == Dump(PrefixText(prefix), data[..length], 0)
  {
    out := "";
    if data == null || length == 0 {
      return;
    }
    hide Dump, PadHex, Line, Cells, Ascii, Chunk, Remaining;
    ghost var p := PrefixText(prefix);
    var bytes := data[..length];
    NothingPrinted(p, bytes);
    var i := 0;
    while i < length
      invariant out + Dump(p, Remaining(bytes, i), i) == Dump(p, bytes, 0)
      decreases length - i
    {
      var line := FormatLine(bytes, i, prefix);
      NextLine(p, bytes, i, out, line);
      out := out + line;
      i := i + 16;
    }
    AllPrinted(p, bytes, i);
  }

  // ----- reading a dump back

  function DigitValue(c: char): (d: nat)
    ensures d < 16
  {
    if '0' <= c <= '9' then c as int - '0' as int
    else if 'A' <= c <= 'F' then c as int - 'A' as int + 10
    else 0
  }

  function HexValue(s: string): nat {
    if s == "" then 0 else 16 * HexValue(s[..|s| - 1]) + DigitValue(s[|s| - 1])
  }

  predicate BlankCell(cells: string, j: nat)
    requires |cells| == 48 && j < 16
  {
    cells[3 * j] == ' '
  }

  function CellValue(cells: string, j: nat): nat
    requires |cells| == 48 && j < 16
  {
    16 * DigitValue(cells[3 * j]) + DigitValue(cells[3 * j + 1])
  }

  // The bytes in the hex cells from the j-th on, up to the first blank cell.
  function ReadCells(cells: string, j: nat): (bytes: seq<uint8>)
    requires |cells| == 48 && j <= 16
    ensures |bytes| <= 16 - j
    decreases 16 - j
  {
    if j == 16 || BlankCell(cells, j) then [] else [CellValue(cells, j)] + ReadCells(cells, j + 1)
  }

  // Reads the hex columns of a dump whose lines start with a prefix of the given length; the offset
  // decides how wide its own column is. The ASCII column is skipped unread.
  function Read(prefixLength: nat, offset: nat, text: string): seq<uint8>
    decreases |text|
  {
    var start := prefixLength + |PadHex(offset, 4)| + 2;
    if |text| < start + 48 then []
    else
      var chunk := ReadCells(text[start..start + 48], 0);
      var next := start + 48 + 1 + |chunk| + 1;
      if |text| < next then chunk else chunk + Read(prefixLength, offset + 16, text[next..])
  }

  lemma DigitRoundTrip(d: nat)
    requires d < 16
    ensures DigitValue(HexDigit(d)) == d
  {
  }

  lemma {:induction false} HexUpperRoundTrip(n: nat)
    ensures HexValue(HexUpper(n)) == n
  {
    if n < 16 {
      DigitRoundTrip(n);
      assert [HexDigit(n)][..0] == "";
    } else {
      HexUpperRoundTrip(n / 16);
      DigitRoundTrip(n % 16);
      assert HexUpper(n)[..|HexUpper(n)| - 1] == HexUpper(n / 16);
    }
  }

  lemma {:induction false} LeadingZeros(k: nat, s: string)
    ensures HexValue(Zeros(k) + s) == HexValue(s)
  {
    var z := Zeros(k) + s;
    if s == "" {
      if k > 0 {
        LeadingZeros(k - 1, "");
        assert z[..|z| - 1] == Zeros(k - 1) + "";
      }
    } else {
      LeadingZeros(k, s[..|s| - 1]);
      assert z[..|z| - 1] == Zeros(k) + s[..|s| - 1];
    }
  }

  // The offset column reads back as the offset, also beyond four digits.
  lemma OffsetRoundTrip(n: nat, width: nat)
    ensures HexValue(PadHex(n, width)) == n
  {
    hide HexUpper, HexValue, Zeros;
    HexUpperRoundTrip(n);
    LeadingZeros(width - (if |HexUpper(n)| < width then |HexUpper(n)| else width), HexUpper(n));
  }

  lemma TwoDigits(b: uint8)
    ensures PadHex(b, 2) == [HexDigit(b / 16), HexDigit(b % 16)]
  {
    if b < 16 {
      assert Zeros(1) == ['0'] == [HexDigit(b / 16)];
    } else {
      assert HexUpper(b) == HexUpper(b / 16) + [HexDigit(b % 16)];
      assert HexUpper(b / 16) == [HexDigit(b / 16)];
    }
  }

  lemma CellLength(chunk: seq<uint8>, j: nat)
    ensures |Cell(chunk, j)| == 3
  {
    if j < |chunk| {
      TwoDigits(chunk[j]);
    }
  }

  lemma {:induction false} CellsLength(chunk: seq<uint8>, j: nat)
    ensures |Cells(chunk, j)| == 3 * j
  {
    hide Cell;
    if j == 0 {
    } else {
      CellsLength(chunk, j - 1);
      CellLength(chunk, j - 1);
    }
  }

  lemma SliceOfConcat(a: string, b: string, i: nat, k: nat)
    requires i <= k <= |a|
    ensures (a + b)[i..k] == a[i..k] && (a + b)[|a|..|a| + |b|] == b
  {
  }

  lemma {:induction false} CellAt(chunk: seq<uint8>, j: nat, n: nat)
    requires j < n
    ensures |Cells(chunk, n)| == 3 * n && Cells(chunk, n)[3 * j..3 * j + 3] == Cell(chunk, j)
    decreases n
  {
    hide Cells, Cell;
    CellsLength(chunk, n);
    CellsLength(chunk, n - 1);
    CellLength(chunk, n - 1);
    CellsStep(chunk, n - 1);
    var before, last := Cells(chunk, n - 1), Cell(chunk, n - 1);
    if j < n - 1 {
      CellAt(chunk, j, n - 1);
      SliceOfConcat(before, last, 3 * j, 3 * j + 3);
    } else {
      SliceOfConcat(before, last, 0, 0);
    }
  }

  // What the first two characters of a cell say.
  lemma CellReads(chunk: seq<uint8>, cells: string, j: nat)
    requires cells == Cells(chunk, 16) && |cells| == 48 && j < 16
    ensures BlankCell(cells, j) <==> j >= |chunk|
    ensures j < |chunk| ==> CellValue(cells, j) == chunk[j]
  {
    hide Cells, PadHex, HexDigit, DigitValue;
    CellAt(chunk, j, 16);
    var cell := cells[3 * j..3 * j + 3];
    assert cell[0] == cells[3 * j] && cell[1] == cells[3 * j + 1];
    if j < |chunk| {
      TwoDigits(chunk[j]);
      DigitRoundTrip(chunk[j] / 16);
      DigitRoundTrip(chunk[j] % 16);
    }
  }

  lemma {:induction false} ReadCellsBack(chunk: seq<uint8>, cells: string, j: nat)
    requires |chunk| <= 16 && cells == Cells(chunk, 16) && |cells| == 48 && j <= 16
    ensures ReadCells(cells, j) == if j <= |chunk| then chunk[j..] else []
    decreases 16 - j
  {
    hide Cells, BlankCell, CellValue;
    if j == 16 {
    } else {
      CellReads(chunk, cells, j);
      if j < |chunk| {
        ReadCellsBack(chunk, cells, j + 1);
      }
    }
  }

  lemma Pieces(prefix: string, offset: string, cells: string, ascii: string)
    ensures var line := prefix + offset + ": " + cells + " " + ascii + "\n";
      var start := |prefix| + |offset| + 2; var column := start + |cells| + 1;
      && |line| == column + |ascii| + 1
      && line[..|prefix|] == prefix && line[|prefix|..|prefix| + |offset|] == offset
      && line[start - 2..start] == ": "
      && line[start..start + |cells|] == cells && line[start + |cells|] == ' '
      && line[column..column + |ascii|] == ascii
      && line[column + |ascii|] == '\n'
  {
  }

  lemma AsciiReads(chunk: seq<uint8>, ascii: string)
    requires ascii == Ascii(chunk)
    ensures forall k :: 0 <= k < |chunk| ==> ascii[k] as int == if 32 <= chunk[k] <= 126 then chunk[k] else '.' as int
  {
  }

  lemma OneMoreDigit(n: nat, k: nat)
    requires n < 16 || |HexUpper(n / 16)| <= k
    ensures |HexUpper(n)| <= k + 1
  {
  }

  // Offsets below 0x10000 take exactly four digits.
  lemma OffsetWidth(offset: nat)
    ensures offset < 0x1_0000 ==> |PadHex(offset, 4)| == 4
  {
    hide HexUpper;
    if offset < 0x1_0000 {
      assert offset / 16 / 16 / 16 < 16;
      OneMoreDigit(offset / 16 / 16 / 16, 0);
      OneMoreDigit(offset / 16 / 16, 1);
      OneMoreDigit(offset / 16, 2);
      OneMoreDigit(offset, 3);
    }
  }

  // Where everything is in a line: the prefix, the offset, a colon, the sixteen cells, the ASCII column with a
  // dot for each unprintable byte, and the end of the line.
  lemma LineLayout(prefix: string, offset: nat, chunk: seq<uint8>)
    ensures var line := Line(prefix, offset, chunk);
      var start := |prefix| + |PadHex(offset, 4)| + 2; var column := start + 49;
      && |line| == column + |chunk| + 1
      && line[..|prefix|] == prefix && HexValue(line[|prefix|..start - 2]) == offset
      && line[start - 2..start] == ": " && (offset < 0x1_0000 ==> start == |prefix| + 6)
      && line[start..start + 48] == Cells(chunk, 16) && line[start + 48] == ' '
      && (forall k :: 0 <= k < |chunk| ==> line[column..][k] as int == if 32 <= chunk[k] <= 126 then chunk[k] else '.' as int)
      && line[column + |chunk|] == '\n'
  {
    hide HexValue, PadHex, Cells;
    CellsLength(chunk, 16);
    OffsetWidth(offset);
    OffsetRoundTrip(offset, 4);
    Pieces(prefix, PadHex(offset, 4), Cells(chunk, 16), Ascii(chunk));
    AsciiReads(chunk, Ascii(chunk));
    var line := Line(prefix, offset, chunk);
    hide Line, Ascii;
    var column := |prefix| + |PadHex(offset, 4)| + 2 + 49;
    assert line[column..][..|chunk|] == line[column..column + |chunk|];
  }

  // What the reader needs of a line with more text behind it.
  lemma LineParts(prefix: string, offset: nat, chunk: seq<uint8>, tail: string)
    requires |chunk| <= 16
    ensures var text := Line(prefix, offset, chunk) + tail; var start := |prefix| + |PadHex(offset, 4)| + 2;
      && |text| >= start + 48 + 1 + |chunk| + 1
      && text[start..start + 48] == Cells(chunk, 16)
      && text[start + 48 + 1 + |chunk| + 1..] == tail
  {
    hide HexValue, Line, Cells, PadHex;
    LineLayout(prefix, offset, chunk);
    var line, start := Line(prefix, offset, chunk), |prefix| + |PadHex(offset, 4)| + 2;
    assert (line + tail)[start..start + 48] == line[start..start + 48];
    assert (line + tail)[|line|..] == tail;
  }

  // Reading one line leaves its bytes and the rest of the text.
  lemma ReadLine(prefix: string, offset: nat, chunk: seq<uint8>, tail: string)
    requires |chunk| <= 16
    ensures Read(|prefix|, offset, Line(prefix, offset, chunk) + tail) == chunk + Read(|prefix|, offset + 16, tail)
  {
    hide PadHex, Cells, Line, ReadCells;
    LineParts(prefix, offset, chunk, tail);
    CellsLength(chunk, 16);
    ReadCellsBack(chunk, Cells(chunk, 16), 0);
  }

  lemma DumpStep(prefix: string, bytes: seq<uint8>, offset: nat)
    requires bytes != []
    ensures var n := ChunkLength(bytes);
      Dump(prefix, bytes, offset) == Line(prefix, offset, bytes[..n]) + Dump(prefix, bytes[n..], offset + 16)
  {
    hide Line;
  }

  // The dump is lossless: its hex columns give back exactly the bytes, and so their number.
  lemma {:induction false} ReadDump(prefix: string, bytes: seq<uint8>, offset: nat)
    ensures Read(|prefix|, offset, Dump(prefix, bytes, offset)) == bytes
    decreases |bytes|
  {
    if bytes == [] {
      hide PadHex;
      assert Dump(prefix, bytes, offset) == "";
    } else {
      hide Read, Line, Dump, PadHex;
      var n := ChunkLength(bytes);
      DumpStep(prefix, bytes, offset);
      ReadLine(prefix, offset, bytes[..n], Dump(prefix, bytes[n..], offset + 16));
      ReadDump(prefix, bytes[n..], offset + 16);
      assert bytes == bytes[..n] + bytes[n..];
    }
  }

  // For a fixed prefix, two byte arrays with the same dump are the same.
  lemma DumpInjective(prefix: string, a: seq<uint8>, b: seq<uint8>)
    ensures Dump(prefix, a, 0) == Dump(prefix, b, 0) <==> a == b
  {
    hide *;
    ReadDump(prefix, a, 0);
    ReadDump(prefix, b, 0);
  }
  lemma SampleOffset()
    ensures PadHex(0, 4) == "0000"
  {
    assert HexUpper(0) == "0" && Zeros(3) == "000";
  }

  function Spaces(n: nat): (s: string)
    ensures |s| == n
  {
    seq(n, _ => ' ')
  }

  lemma ThreeMore(n: nat)
    ensures Spaces(n) + "   " == Spaces(n + 3)
  {
  }

  lemma {:induction false} BlankCells(chunk: seq<uint8>, n: nat)
    requires n >= |chunk|
    ensures Cells(chunk, n) == Cells(chunk, |chunk|) + Spaces(3 * (n - |chunk|))
    decreases n
  {
    hide Cells, Spaces;
    if n == |chunk| {
      assert Spaces(0) == "";
    } else {
      BlankCells(chunk, n - 1);
      CellsStep(chunk, n - 1);
      ThreeMore(3 * (n - 1 - |chunk|));
    }
  }

  lemma SampleCells()
    ensures Cells([0xAB, 0x41], 16) == "AB 41 " + Spaces(42)
  {
    var chunk: seq<uint8> := [0xAB, 0x41];
    hide Cells, Spaces, PadHex;
    TwoDigits(0xAB);
    TwoDigits(0x41);
    NoCells(chunk);
    CellsStep(chunk, 0);
    CellsStep(chunk, 1);
    BlankCells(chunk, 16);
    assert Cells(chunk, 2) == "AB 41 ";
  }

  lemma SampleLine(spaces: string)
    ensures "> " + "0000" + ": " + ("AB 41 " + spaces) + " " + ".A" + "\n" == "> 0000: AB 41 " + spaces + " .A\n"
  {
    assert "> " + "0000" + ": " + "AB 41 " == "> 0000: AB 41 ";
    assert " " + ".A" + "\n" == " .A\n";
  }

  lemma SampleText(chunk: seq<uint8>)
    requires chunk == [0xAB, 0x41]
    ensures Line("> ", 0, chunk) == "> " + PadHex(0, 4) + ": " + Cells(chunk, 16) + " " + ".A" + "\n"
    ensures Dump("> ", [], 16) == ""
  {
    hide PadHex, Cells;
    assert Ascii(chunk) == ".A";
  }

  // One dump in full: the bytes AB and 41 at offset zero, with a prefix.
  lemma SampleDump()
    ensures Dump("> ", [0xAB, 0x41], 0) == "> 0000: AB 41 " + Spaces(42) + " .A\n"
  {
    var chunk: seq<uint8> := [0xAB, 0x41];
    hide Cells, PadHex, Spaces, Dump, Line;
    SampleCells();
    SampleOffset();
    SampleLine(Spaces(42));
    DumpStep("> ", chunk, 0);
    assert chunk[..2] == chunk && chunk[2..] == [];
    SampleText(chunk);
  }
}
