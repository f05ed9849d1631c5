/** The reader of hex dumps in the CPU test fixture, which takes back the bytes of what dis prints. */
module HexDumpReader {
  import opened Machine
  import opened Hex
  import opened HexDump

  // ----- The string helpers it uses

  predicate IsBreak(c: char) { c == '\r' || c == '\n' }
  predicate IsWhite(c: char) { c == ' ' || c == '\t' || IsBreak(c) }

  function FirstBreak(s: string): (n: nat)
    ensures n <= |s| && (n < |s| ==> IsBreak(s[n]))
    ensures forall i :: 0 <= i < n ==> !IsBreak(s[i])
  {
    if s == "" || IsBreak(s[0]) then 0 else 1 + FirstBreak(s[1..])
  }

  /** SplitString at CR and LF, without the empty pieces. */
  function Lines(s: string): seq<string>
    decreases |s|
  {
    if s == "" then []
    else if IsBreak(s[0]) then Lines(s[1..])
    else var n := FirstBreak(s); [s[..n]] + Lines(s[n..])
  }

  function TrimLeft(s: string): string {
    if s != "" && IsWhite(s[0]) then TrimLeft(s[1..]) else s
  }

  function TrimRight(s: string): string {
    if s != "" && IsWhite(s[|s| - 1]) then TrimRight(s[..|s| - 1]) else s
  }

  function StringTrim(s: string): string {
    TrimRight(TrimLeft(s))
  }

  // ----- The reader

  /** Pairs of characters, each from the next hex digit on. The second one counts as 0 when it is not a hex digit. */
  function Pairs(s: string): seq<u8>
    decreases |s|
  {
    if s == "" then []
    else if !IsHexDigit(s[0]) then Pairs(s[1..])
    else if |s| == 1 then []
    else [DigitValue(s[0]) * 16 + DigitValue(s[1])] + Pairs(s[2..])
  }

  method ParseOpcodesFromLine(s: string, ops: seq<u8>) returns (all: seq<u8>)
    ensures all == ops + Pairs(s)
  {
    all := ops;
    var i := 0;
    while i < |s|
      invariant 0 <= i <= |s| && all + Pairs(s[i..]) == ops + Pairs(s)
    {
      assert s[i..][1..] == s[i + 1..];
      if !IsHexDigit(s[i]) {
        i := i + 1;
        continue;
      }
      var current := DigitValue(s[i]) * 16;
      i := i + 1;
      if i == |s| {
        break;
      }
      assert s[i - 1..][2..] == s[i + 1..];
      current := current + DigitValue(s[i]);
      all := all + [current];
      i := i + 1;
    }
    assert Pairs(s[|s|..]) == [];
  }

  predicate IsDumpLine(l: string) {
    l != "" && IsDigit(l[0]) && |l| >= 60
  }

  function LineBytes(l: string): seq<u8> {
    if IsDumpLine(l) then Pairs(StringTrim(l[10..58])) else []
  }

  function BytesOf(lines: seq<string>): seq<u8> {
    if lines == [] then [] else LineBytes(lines[0]) + BytesOf(lines[1..])
  }

  method ParseOpcodesFromTextdump(s: string) returns (ops: seq<u8>)
    ensures ops == BytesOf(Lines(s))
  {
    hide Lines, BytesOf, LineBytes;
    var lines := Lines(s);
    ops := [];
    NoBytes();
    var i := 0;
    while i < |lines|
      invariant 0 <= i <= |lines| && ops == BytesOf(lines[..i])
    {
      var l := lines[i];
      BytesOfNext(lines, i);
      i := i + 1;
      if l == "" || !IsDigit(l[0]) || |l| < 60 {
        assert !IsDumpLine(l);
        continue;
      }
      ops := ParseOpcodesFromLine(StringTrim(l[10..58]), ops);
    }
    assert lines[..|lines|] == lines;
  }

  lemma NoBytes()
    ensures BytesOf([]) == []
  {
  }

  lemma BytesOfNext(lines: seq<string>, i: nat)
    requires i < |lines|
    ensures BytesOf(lines[..i + 1])
         == BytesOf(lines[..i]) + (if IsDumpLine(lines[i]) then Pairs(StringTrim(lines[i][10..58])) else [])
  {
    hide LineBytes;
    BytesOfSnoc(lines[..i], lines[i]);
    assert lines[..i] + [lines[i]] == lines[..i + 1];
    LineBytesAre(lines[i]);
  }

  lemma LineBytesAre(l: string)
    ensures LineBytes(l) == if IsDumpLine(l) then Pairs(StringTrim(l[10..58])) else []
  {
  }

  lemma {:induction false} BytesOfSnoc(lines: seq<string>, l: string)
    ensures BytesOf(lines + [l]) == BytesOf(lines) + LineBytes(l)
  {
    hide LineBytes;
    if lines == [] {
      assert lines + [l] == [l] && [l][1..] == [];
    } else {
      assert (lines + [l])[1..] == lines[1..] + [l];
      BytesOfSnoc(lines[1..], l);
    }
  }

  // ----- One line reads back

  /** The hex column up to the last digit. */
  function Packed(bytes: seq<u8>): string {
    if bytes == [] then "" else if |bytes| == 1 then Byte(bytes[0])
    else Byte(bytes[0]) + " " + Packed(bytes[1..])
  }

  lemma {:induction false} HexColumnIsPacked(bytes: seq<u8>)
    requires bytes != []
    ensures HexColumn(bytes) == Packed(bytes) + " " && |Packed(bytes)| == 3 * |bytes| - 1
    ensures IsHexDigit(Packed(bytes)[0]) && IsHexDigit(Packed(bytes)[|Packed(bytes)| - 1])
  {
    ByteReadsBack(bytes[0]);
    if |bytes| > 1 {
      HexColumnIsPacked(bytes[1..]);
    } else {
      assert bytes[1..] == [];
    }
  }

  lemma PairReadsBack(b: u8, rest: string)
    ensures Pairs(Byte(b) + rest) == [b] + Pairs(rest)
  {
    ByteReadsBack(b);
    var x, y := Byte(b)[0], Byte(b)[1];
    assert Byte(b) == [x, y];
    hide Byte;
    var s := [x, y] + rest;
    assert s[0] == x && s[1] == y && s[2..] == rest;
  }

  lemma SpaceIsSkipped(rest: string)
    ensures Pairs(" " + rest) == Pairs(rest)
  {
    assert (" " + rest)[1..] == rest;
  }

  lemma {:induction false} PackedReadsBack(bytes: seq<u8>)
    ensures Pairs(Packed(bytes)) == bytes
  {
    hide Byte, Pairs;
    if bytes == [] {
      NoPairs();
    } else {
      PackedReadsBack(bytes[1..]);
      PairReadsBack(bytes[0], "");
      PairReadsBack(bytes[0], " " + Packed(bytes[1..]));
      SpaceIsSkipped(Packed(bytes[1..]));
      assert Byte(bytes[0]) + "" == Byte(bytes[0]);
      assert Byte(bytes[0]) + (" " + Packed(bytes[1..])) == Byte(bytes[0]) + " " + Packed(bytes[1..]);
      assert bytes == [bytes[0]] + bytes[1..];
    }
  }

  lemma NoPairs()
    ensures Pairs("") == []
  {
  }

  lemma {:induction false} TrimRightSpaces(s: string, n: nat)
    requires s != "" && !IsWhite(s[|s| - 1])
    ensures TrimRight(s + Spaces(n)) == s
  {
    if n == 0 {
      assert s + Spaces(0) == s;
    } else {
      var t := s + Spaces(n);
      assert t[..|t| - 1] == s + Spaces(n - 1);
      TrimRightSpaces(s, n - 1);
    }
  }

  /** The hex column of a row, cut from its line and trimmed, reads back as the row's bytes. */
  lemma ColumnReadsBack(bytes: seq<u8>)
    requires 0 < |bytes| <= ROW
    ensures Pairs(StringTrim(Column48(HexColumn(bytes)))) == bytes
  {
    hide Pairs, TrimRight, HexColumn, Packed;
    var p, n := Packed(bytes), 49 - 3 * |bytes|;
    HexColumnIsPacked(bytes);
    assert " " + Spaces(n - 1) == Spaces(n);
    assert Column48(p + " ") == p + " " + Spaces(n - 1) == p + Spaces(n);
    TrimRightSpaces(p, n);
    assert TrimLeft(p + Spaces(n)) == p + Spaces(n);
    PackedReadsBack(bytes);
  }

  /** A dump line reads back as its bytes, whatever its row number and its text column. */
  lemma LineReadsBack(row: nat, bytes: seq<u8>, text: string)
    requires row < 0x8000_0000 && 0 < |bytes| <= ROW
    ensures LineBytes(Line(row, HexColumn(bytes), text)) == bytes
  {
    hide RowNumber, Column48, HexColumn, Pairs, StringTrim;
    var l := Line(row, HexColumn(bytes), text);
    FirstDigitIsDecimal(row);
    assert l[0] == RowNumber(row)[0];
    assert l[10..58] == Column48(HexColumn(bytes));
    ColumnReadsBack(bytes);
  }

  /** A line counts when it begins with a decimal digit and has at least 60 characters, and then for its columns 10 to
      57 only. */
  lemma OnlyDumpLinesCount(l: string, m: string)
    ensures |l| < 60 ==> LineBytes(l) == []
    ensures l != "" && l[0] !in "0123456789" ==> LineBytes(l) == []
    ensures |l| >= 60 && |m| >= 60 && l[0] in "0123456789" && m[0] in "0123456789" && l[10..58] == m[10..58] ==>
      LineBytes(l) == LineBytes(m)
  {
    if l != "" { HexDigitsAre(l[0]); }
    if m != "" { HexDigitsAre(m[0]); }
  }

  lemma {:induction false} ColumnAndDigit(bytes: seq<u8>, d: char)
    requires IsHexDigit(d)
    ensures Pairs(HexColumn(bytes) + [d]) == bytes && |HexColumn(bytes)| == 3 * |bytes|
    ensures bytes != [] ==> IsHexDigit(HexColumn(bytes)[0])
  {
    hide Byte, Pairs;
    if bytes == [] {
      OneDigit(d);
      assert HexColumn([]) + [d] == [d];
    } else {
      var rest := HexColumn(bytes[1..]) + [d];
      ColumnAndDigit(bytes[1..], d);
      PairReadsBack(bytes[0], " " + rest);
      SpaceIsSkipped(rest);
      ByteReadsBack(bytes[0]);
      ByteIsText(bytes[0]);
      assert HexColumn(bytes) + [d] == Byte(bytes[0]) + (" " + rest);
      assert bytes == [bytes[0]] + bytes[1..];
    }
  }

  lemma OneDigit(d: char)
    ensures Pairs([d]) == []
  {
    assert [d][1..] == [];
  }

  /** A digit left alone at the end of the column is dropped, and is not taken for one half of a byte. */
  lemma LoneDigitIsDropped(row: nat, bytes: seq<u8>, d: char, text: string)
    requires row < 0x8000_0000 && |bytes| < ROW && IsHexDigit(d)
    ensures LineBytes(Line(row, HexColumn(bytes) + [d], text)) == bytes
  {
    hide RowNumber, HexColumn, Pairs, StringTrim, Column48;
    var c := HexColumn(bytes) + [d];
    var l := Line(row, c, text);
    FirstDigitIsDecimal(row);
    ColumnAndDigit(bytes, d);
    TrimmedColumn(c);
    assert l[0] == RowNumber(row)[0] && l[10..58] == Column48(c);
  }

  lemma TrimmedColumn(c: string)
    requires c != "" && |c| <= 48 && !IsWhite(c[0]) && !IsWhite(c[|c| - 1])
    ensures StringTrim(Column48(c)) == c
  {
    hide TrimRight;
    assert Column48(c) == c + Spaces(48 - |c|);
    TrimRightSpaces(c, 48 - |c|);
    assert TrimLeft(c + Spaces(48 - |c|)) == c + Spaces(48 - |c|);
  }

  /** 2^31 has seven zeros in base 16, below an 8. */
  function Bound(width: nat): nat {
    if width == 1 then 8 else if width == 0 then 0 else 16 * Bound(width - 1)
  }

  lemma {:induction false} FirstOfHexDigits(n: nat, width: nat)
    requires width > 0 && n < Bound(width)
    ensures IsDigit(HexDigits(n, width)[0])
    decreases width
  {
    if width == 1 {
      assert HexDigits(n, 1) == HexDigits(n / 16, 0) + [LowerDigit(n % 16)];
      DigitsReadBack(n);
    } else {
      FirstOfHexDigits(n / 16, width - 1);
    }
  }

  lemma FirstDigitIsDecimal(row: nat)
    requires row < 0x8000_0000
    ensures IsDigit(RowNumber(row)[0])
  {
    assert Bound(3) == 0x800;
    assert Bound(5) == 0x8_0000;
    assert Bound(7) == 0x800_0000;
    assert Bound(8) == 0x8000_0000;
    FirstOfHexDigits(row, 8);
  }

  // ----- The whole dump reads back

  predicate NoBreaks(s: string) {
    forall i :: 0 <= i < |s| ==> !IsBreak(s[i])
  }

  lemma {:induction false} RowNumberHasNoBreaks(n: nat, width: nat)
    ensures NoBreaks(HexDigits(n, width))
  {
    if width > 0 {
      RowNumberHasNoBreaks(n / 16, width - 1);
    }
  }

  lemma NoBreaksAppend(a: string, b: string)
    requires NoBreaks(a) && NoBreaks(b)
    ensures NoBreaks(a + b)
  {
  }

  lemma ByteHasNoBreaks(b: u8)
    ensures NoBreaks(Byte(b) + " ")
  {
    ByteReadsBack(b);
  }

  lemma {:induction false} ColumnsHaveNoBreaks(bytes: seq<u8>)
    ensures NoBreaks(HexColumn(bytes)) && NoBreaks(TextColumn(bytes))
  {
    if bytes != [] {
      hide Byte, NoBreaks;
      ColumnsHaveNoBreaks(bytes[1..]);
      ByteHasNoBreaks(bytes[0]);
      NoBreaksAppend(Byte(bytes[0]) + " ", HexColumn(bytes[1..]));
      PrintableIsNoBreak(bytes[0]);
      NoBreaksAppend([Printable(bytes[0])], TextColumn(bytes[1..]));
    }
  }

  lemma PrintableIsNoBreak(b: u8)
    ensures NoBreaks([Printable(b)])
  {
  }

  lemma LineHasNoBreaks(row: nat, hex: string, text: string)
    requires NoBreaks(hex) && NoBreaks(text)
    ensures NoBreaks(Line(row, hex, text))
  {
    RowNumberHasNoBreaks(row, 8);
    assert NoBreaks(Column48(hex));
    assert NoBreaks(RowNumber(row) + "  " + Column48(hex));
  }

  /** A line and its CR LF are split off as that line. */
  lemma LineIsSplitOff(line: string, rest: string)
    requires line != "" && NoBreaks(line)
    ensures Lines(line + "\r\n" + rest) == [line] + Lines(rest)
  {
    var s := line + "\r\n" + rest;
    FirstBreakAt(s, |line|);
    assert s[..|line|] == line && s[|line|..] == "\r\n" + rest;
    BreaksAreSkipped(rest);
  }

  lemma BreaksAreSkipped(rest: string)
    ensures Lines("\r\n" + rest) == Lines(rest)
  {
    assert ("\r\n" + rest)[1..] == "\n" + rest;
    assert ("\n" + rest)[1..] == rest;
    assert Lines("\n" + rest) == Lines(rest);
  }

  lemma FirstBreakAt(s: string, n: nat)
    requires n < |s| && IsBreak(s[n]) && forall i :: 0 <= i < n ==> !IsBreak(s[i])
    ensures FirstBreak(s) == n
  {
  }

  /** What the prints put on the screen, one after the other. */
  function Text(prints: seq<string>): string {
    if prints == [] then "" else prints[0] + Text(prints[1..])
  }

  lemma RowReadsBack(row: nat, bytes: seq<u8>, rest: string)
    requires row < 0x8000_0000 && 0 < |bytes| <= ROW
    ensures BytesOf(Lines(RowText(bytes, row) + rest)) == bytes + BytesOf(Lines(rest))
  {
    hide Lines, LineBytes, HexColumn, TextColumn;
    var line := Line(row, HexColumn(bytes), TextColumn(bytes));
    ColumnsHaveNoBreaks(bytes);
    LineHasNoBreaks(row, HexColumn(bytes), TextColumn(bytes));
    LineIsSplitOff(line, rest);
    LineReadsBack(row, bytes, TextColumn(bytes));
    assert RowText(bytes, row) + rest == line + "\r\n" + rest;
    assert ([line] + Lines(rest))[1..] == Lines(rest);
  }

  /** Reading what dis prints gives back exactly the bytes, for every file and start row an int can count. */
  lemma {:induction false} DumpReadsBack(bytes: seq<u8>, row: nat)
    requires row + |bytes| < 0x8000_0000
    ensures BytesOf(Lines(Text(Rows(bytes, row, RowText)))) == bytes
    decreases |bytes|
  {
    hide RowText, Lines, LineBytes;
    var rows := Rows(bytes, row, RowText);
    if bytes == [] {
      NoLines();
    } else {
      var n := FirstRow(bytes);
      assert rows[1..] == Rows(bytes[n..], row + n, RowText);
      RowReadsBack(row, bytes[..n], Text(rows[1..]));
      DumpReadsBack(bytes[n..], row + n);
      assert bytes[..n] + bytes[n..] == bytes;
    }
  }

  lemma NoLines()
    ensures Lines("") == []
  {
  }
}
