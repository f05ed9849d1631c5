/** The hex dump that dis prints, and the reader of such dumps in the CPU test fixture. */
module HexDump {
  import opened Machine
  import opened Hex

  const CHUNK := 1024
  const ROW := 16
  const HEX_COLUMN := 48

  // ----- The printer

  function HexDigits(n: nat, width: nat): (s: string)
    ensures |s| == width
  {
    if width == 0 then "" else HexDigits(n / 16, width - 1) + [LowerDigit(n % 16)]
  }

  /** {:08x} of a non-negative int, which has at most eight digits. */
  function RowNumber(row: nat): (s: string)
    ensures |s| == 8
  {
    HexDigits(row, 8)
  }

  /** What a string of hex digits stands for. */
  function HexValue(s: string): nat {
    if s == "" then 0 else 16 * HexValue(s[..|s| - 1]) + DigitValue(s[|s| - 1])
  }

  predicate AllLowerHex(s: string) {
    forall i :: 0 <= i < |s| ==> s[i] in "0123456789abcdef"
  }

  function Power16(n: nat): nat {
    if n == 0 then 1 else 16 * Power16(n - 1)
  }

  lemma {:induction false} HexDigitsReadBack(n: nat, width: nat)
    requires n < Power16(width)
    ensures HexValue(HexDigits(n, width)) == n && AllLowerHex(HexDigits(n, width))
  {
    if width > 0 {
      var s := HexDigits(n / 16, width - 1);
      HexDigitsReadBack(n / 16, width - 1);
      DigitsAre(n % 16);
      assert HexDigits(n, width) == s + [LowerDigit(n % 16)];
      assert (s + [LowerDigit(n % 16)])[..|s|] == s;
    }
  }

  lemma RowNumberReadsBack(row: nat)
    requires row < 0x1_0000_0000
    ensures HexValue(RowNumber(row)) == row && AllLowerHex(RowNumber(row))
  {
    assert Power16(4) == 0x1_0000;
    assert Power16(6) == 0x100_0000;
    assert Power16(8) == 0x1_0000_0000;
    HexDigitsReadBack(row, 8);
  }

  function HexColumn(bytes: seq<u8>): string {
    if bytes == [] then "" else Byte(bytes[0]) + " " + HexColumn(bytes[1..])
  }

  function Printable(b: u8): char {
    if 32 <= b <= 127 then b as char else '.'
  }

  function TextColumn(bytes: seq<u8>): string {
    if bytes == [] then "" else [Printable(bytes[0])] + TextColumn(bytes[1..])
  }

  function Spaces(n: nat): string { seq(n, _ => ' ') }

  /** {:48.48} */
  function Column48(s: string): (r: string)
    ensures |r| == HEX_COLUMN
  {
    if |s| >= HEX_COLUMN then s[..HEX_COLUMN] else s + Spaces(HEX_COLUMN - |s|)
  }

  function Line(row: nat, hex: string, text: string): string {
    RowNumber(row) + "  " + Column48(hex) + "  " + text
  }

  function RowText(bytes: seq<u8>, row: nat): string {
    Line(row, HexColumn(bytes), TextColumn(bytes)) + "\r\n"
  }

  /** How many bytes the first row shows. */
  function FirstRow(bytes: seq<u8>): nat {
    if |bytes| < ROW then |bytes| else ROW
  }

  /** One row after the other, 16 bytes in each and what is left in the last. */
  function Rows(bytes: seq<u8>, row: nat, text: (seq<u8>, nat) -> string): seq<string>
    decreases |bytes|
  {
    if bytes == [] then []
    else
      var n := FirstRow(bytes);
      [text(bytes[..n], row)] + Rows(bytes[n..], row + n, text)
  }

  lemma FullRowFirst(bytes: seq<u8>, row: nat, text: (seq<u8>, nat) -> string)
    requires |bytes| >= ROW
    ensures Rows(bytes, row, text) == [text(bytes[..ROW], row)] + Rows(bytes[ROW..], row + ROW, text)
  {
  }

  lemma {:induction false} RowsAppend(a: seq<u8>, b: seq<u8>, k: nat, row: nat, text: (seq<u8>, nat) -> string)
    requires |a| == ROW * k
    ensures Rows(a + b, row, text) == Rows(a, row, text) + Rows(b, row + |a|, text)
    decreases k
  {
    hide Rows;
    if k == 0 {
      assert a + b == b;
      NoRows(row, text);
    } else {
      FullRowFirst(a, row, text);
      FullRowFirst(a + b, row, text);
      assert (a + b)[..ROW] == a[..ROW] && (a + b)[ROW..] == a[ROW..] + b;
      RowsAppend(a[ROW..], b, k - 1, row + ROW, text);
    }
  }

  lemma {:induction false} ColumnsAppend(a: seq<u8>, x: u8)
    ensures HexColumn(a + [x]) == HexColumn(a) + Byte(x) + " "
    ensures TextColumn(a + [x]) == TextColumn(a) + [Printable(x)]
  {
    if a == [] {
      assert a + [x] == [x] && [x][1..] == [];
    } else {
      assert (a + [x])[1..] == a[1..] + [x];
      ColumnsAppend(a[1..], x);
    }
  }

  // ----- A printed row, column by column

  /** Row k of a dump of bytes from an offset on: its offset in eight lower-case hex digits, the bytes from there in two
      upper-case digits each, and each as itself or a dot. */
  ghost predicate ShowsRow(line: string, bytes: seq<u8>, offset: nat, k: nat) {
    && 16 * k < |bytes|
    && var n := if |bytes| - 16 * k < 16 then |bytes| - 16 * k else 16;
       && |line| == 62 + n
       && AllLowerHex(line[..8]) && HexValue(line[..8]) == offset + 16 * k
       && line[8..10] == "  " && line[58..60] == "  " && line[60 + n..] == "\r\n"
       && (forall j :: 0 <= j < n ==> ShowsByte(line[10 + 3 * j], line[11 + 3 * j], line[60 + j], bytes[16 * k + j]))
       && (forall j :: 0 <= j < n ==> line[12 + 3 * j] == ' ')
       && (forall i :: 10 + 3 * n <= i < 58 ==> line[i] == ' ')
  }

  predicate ShowsByte(high: char, low: char, text: char, b: u8) {
    && IsByteText(high, low, b)
    && text == if 32 <= b <= 127 then b as char else '.'
  }

  lemma {:induction false} ColumnsShow(bytes: seq<u8>, j: nat)
    requires j < |bytes|
    ensures |HexColumn(bytes)| == 3 * |bytes| && |TextColumn(bytes)| == |bytes|
    ensures ShowsByte(HexColumn(bytes)[3 * j], HexColumn(bytes)[3 * j + 1], TextColumn(bytes)[j], bytes[j])
    ensures HexColumn(bytes)[3 * j + 2] == ' '
  {
    if |bytes| > 1 {
      ColumnsShow(bytes[1..], if j == 0 then 0 else j - 1);
    } else {
      assert bytes[1..] == [];
    }
  }

  /** The parts of a line, cut out of it again. */
  lemma LineParts(bytes: seq<u8>, row: nat)
    requires 0 < |bytes| <= 16
    ensures
      var (n, line) := (|bytes|, RowText(bytes, row));
      && |line| == 62 + n && |HexColumn(bytes)| == 3 * n && |TextColumn(bytes)| == n
      && line[..8] == RowNumber(row) && line[8..10] == "  " && line[58..60] == "  " && line[60 + n..] == "\r\n"
      && line[10..58] == HexColumn(bytes) + Spaces(48 - 3 * n) && line[60..60 + n] == TextColumn(bytes)
  {
    hide RowNumber, HexColumn, TextColumn;
    ColumnsShow(bytes, 0);
    var (n, hex) := (|bytes|, HexColumn(bytes));
    assert Column48(hex) == hex + Spaces(48 - 3 * n);
    assert RowText(bytes, row)
        == RowNumber(row) + "  " + (hex + Spaces(48 - 3 * n)) + "  " + TextColumn(bytes) + "\r\n";
  }

  lemma LineShows(bytes: seq<u8>, row: nat)
    requires 0 < |bytes| <= 16 && row < 0x1_0000_0000
    ensures ShowsRow(RowText(bytes, row), bytes, row, 0)
  {
    hide RowText, RowNumber, HexColumn, TextColumn, ShowsByte, HexValue, AllLowerHex;
    var (n, line) := (|bytes|, RowText(bytes, row));
    var (hex, text) := (HexColumn(bytes), TextColumn(bytes));
    RowNumberReadsBack(row);
    LineParts(bytes, row);
    forall j | 0 <= j < n
      ensures ShowsByte(line[10 + 3 * j], line[11 + 3 * j], line[60 + j], bytes[j]) && line[12 + 3 * j] == ' '
    {
      ColumnsShow(bytes, j);
      assert line[10..58][3 * j] == hex[3 * j] && line[10..58][3 * j + 1] == hex[3 * j + 1];
      assert line[10..58][3 * j + 2] == hex[3 * j + 2] && line[60..60 + n][j] == text[j];
    }
    forall i | 10 + 3 * n <= i < 58 ensures line[i] == ' ' {
      assert line[10..58][i - 10] == ' ';
    }
  }

  lemma ShowsPrefix(line: string, bytes: seq<u8>, offset: nat, n: nat)
    requires n <= |bytes| && ShowsRow(line, bytes[..n], offset, 0) && (n == 16 || n == |bytes|)
    ensures ShowsRow(line, bytes, offset, 0)
  {
    hide ShowsByte, HexValue, AllLowerHex;
  }

  lemma ShowsFurtherOn(line: string, bytes: seq<u8>, offset: nat, k: nat)
    requires 16 <= |bytes| && ShowsRow(line, bytes[16..], offset + 16, k)
    ensures ShowsRow(line, bytes, offset, k + 1)
  {
    hide ShowsByte, HexValue, AllLowerHex;
  }

  /** Every row of a dump shows its offset and its bytes. */
  lemma {:induction false} RowsShow(bytes: seq<u8>, row: nat, k: nat)
    requires row + |bytes| < 0x1_0000_0000 && k < |Rows(bytes, row, RowText)|
    ensures ShowsRow(Rows(bytes, row, RowText)[k], bytes, row, k)
    decreases k
  {
    hide RowText, ShowsRow;
    var n := FirstRow(bytes);
    if k == 0 {
      LineShows(bytes[..n], row);
      ShowsPrefix(RowText(bytes[..n], row), bytes, row, n);
    } else {
      RowsShow(bytes[n..], row + n, k - 1);
      assert Rows(bytes[n..], row + n, RowText) != [];
      ShowsFurtherOn(Rows(bytes, row, RowText)[k], bytes, row, k - 1);
    }
  }

  lemma {:induction false} RowCount(bytes: seq<u8>, row: nat, text: (seq<u8>, nat) -> string)
    ensures |Rows(bytes, row, text)| == (|bytes| + 15) / 16
    decreases |bytes|
  {
    if bytes != [] {
      RowCount(bytes[FirstRow(bytes)..], row + FirstRow(bytes), text);
    }
  }

  /** All of it: one row for every 16 bytes begun. */
  ghost predicate ShowsAll(rows: seq<string>, bytes: seq<u8>, offset: nat) {
    |rows| == (|bytes| + 15) / 16 && forall k :: 0 <= k < |rows| ==> ShowsRow(rows[k], bytes, offset, k)
  }

  lemma DumpShowsAll(bytes: seq<u8>, row: nat)
    requires row + |bytes| < 0x1_0000_0000
    ensures ShowsAll(Rows(bytes, row, RowText), bytes, row)
  {
    hide Rows, RowText, ShowsRow;
    RowCount(bytes, row, RowText);
    forall k | 0 <= k < |Rows(bytes, row, RowText)| ensures ShowsRow(Rows(bytes, row, RowText)[k], bytes, row, k) {
      RowsShow(bytes, row, k);
    }
  }

  /** Prints the rest of a file from code_offset on, reading it in chunks. The result has one entry for each print. */
  method DisasmHex(file: seq<u8>, codeOffset: nat) returns (out: seq<string>)
    requires codeOffset < 0x8000_0000 && |file| < 0x8000_0000
    ensures
      var data := if codeOffset <= |file| then file[codeOffset..] else [];
      out == Rows(data, codeOffset, RowText) && ShowsAll(out, data, codeOffset)
  {
    hide Rows, RowText, ShowsAll;
    var data := if codeOffset <= |file| then file[codeOffset..] else [];
    var done, rest, row := false, data, codeOffset;
    ghost var read, chunks := [], 0;
    out := [];
    NoRows(codeOffset, RowText);
    while !done
      invariant read + rest == data && out == Rows(read, codeOffset, RowText)
      invariant if done then rest == [] else |read| == CHUNK * chunks && row == codeOffset + |read|
      decreases !done, |rest|
    {
      var numRead := if |rest| < CHUNK then |rest| else CHUNK;
      var buf := rest[..numRead];
      var text, nextRow := PrintChunk(buf, row);
      assert row == codeOffset + |read|;
      RowsAppend(read, buf, 64 * chunks, codeOffset, RowText);
      MoveOver(read, rest, numRead);
      read, chunks := read + buf, chunks + 1;
      out, row, rest := out + text, nextRow, rest[numRead..];
      done := numRead < CHUNK;
    }
    assert read == data;
    DumpShowsAll(data, codeOffset);
  }

  /** One chunk of the dump. A line that is not full is printed at its end, and leaves the row where it was. */
  method PrintChunk(buf: seq<u8>, firstRow: nat) returns (out: seq<string>, row: nat)
    requires |buf| <= CHUNK
    ensures out == Rows(buf, firstRow, RowText)
    ensures firstRow + |buf| < 0x1_0000_0000 ==> ShowsAll(out, buf, firstRow)
    ensures firstRow <= row <= firstRow + |buf| < row + ROW && (row - firstRow) % ROW == 0
  {
    hide Rows, RowText, Line, HexColumn, TextColumn, ShowsAll;
    if firstRow + |buf| < 0x1_0000_0000 {
      DumpShowsAll(buf, firstRow);
    }
    NoRows(firstRow, RowText);
    EmptyColumns([]);
    out, row := [], firstRow;
    var line1, line2, curline := "", "", 0;
    ghost var full, here, k := [], [], 0;
    var i := 0;
    while i < |buf|
      invariant 0 <= i <= |buf| && full + here == buf[..i]
      invariant |full| == ROW * k && |here| == curline < ROW && row == firstRow + |full|
      invariant line1 == HexColumn(here) && line2 == TextColumn(here)
      invariant out == Rows(full, firstRow, RowText)
    {
      var ch := buf[i];
      ColumnsAppend(here, ch);
      TakeOneMore(buf, i, full, here);
      here := here + [ch];
      line1 := line1 + Byte(ch) + " ";
      line2 := line2 + [if 32 <= ch <= 127 then ch as char else '.'];
      curline := curline + 1;
      i := i + 1;
      if curline == ROW {
        EmptyColumns([]);
        RowTextIsLine(here, row);
        RowsSnoc(full, here, k, firstRow, RowText);
        out := out + [Line(row, line1, line2) + "\r\n"];
        row := row + ROW;
        full, here, k := full + here, [], k + 1;
        curline := 0;
        line1, line2 := "", "";
      }
    }
    RowsSnoc(full, here, k, firstRow, RowText);
    RowTextIsLine(here, row);
    EmptyColumns(here);
    assert full + here == buf;
    if line1 != "" {
      out := out + [Line(row, line1, line2) + "\r\n"];
    }
  }

  lemma NoRows(row: nat, text: (seq<u8>, nat) -> string)
    ensures Rows([], row, text) == []
  {
  }

  lemma EmptyColumns(bytes: seq<u8>)
    ensures HexColumn(bytes) == "" <==> bytes == []
    ensures TextColumn(bytes) == "" <==> bytes == []
  {
  }

  lemma RowTextIsLine(bytes: seq<u8>, row: nat)
    ensures RowText(bytes, row) == Line(row, HexColumn(bytes), TextColumn(bytes)) + "\r\n"
  {
  }

  lemma MoveOver<T>(a: seq<T>, b: seq<T>, n: nat)
    requires n <= |b|
    ensures (a + b[..n]) + b[n..] == a + b
  {
  }

  lemma TakeOneMore<T>(s: seq<T>, i: nat, a: seq<T>, b: seq<T>)
    requires i < |s| && s[..i] == a + b
    ensures s[..i + 1] == a + (b + [s[i]])
  {
  }

  /** Full rows, and at most one more. */
  lemma RowsSnoc(full: seq<u8>, last: seq<u8>, k: nat, row: nat, text: (seq<u8>, nat) -> string)
    requires |full| == ROW * k && |last| <= ROW
    ensures Rows(full + last, row, text)
         == Rows(full, row, text) + (if last == [] then [] else [text(last, row + |full|)])
  {
    RowsAppend(full, last, k, row, text);
    assert last[..|last|] == last && last[|last|..] == [];
  }
}
