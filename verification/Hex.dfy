/** Hexadecimal digits, as fmt prints them and as the readers of text take them back. */
module Hex {
  import opened Machine

  function UpperDigit(d: nat): (c: char)
    requires d < 16
  {
    "0123456789ABCDEF"[d]
  }

  function LowerDigit(d: nat): char
    requires d < 16
  {
    "0123456789abcdef"[d]
  }

  /** {:02X} */
  function Byte(b: u8): string {
    [UpperDigit(b / 16), UpperDigit(b % 16)]
  }

  predicate IsDigit(c: char) { '0' <= c <= '9' }

  predicate IsHexDigit(c: char) {
    IsDigit(c) || 'A' <= c <= 'F' || 'a' <= c <= 'f'
  }

  /** The value of a hex digit, and 0 for any other character. */
  function DigitValue(c: char): (d: nat)
    ensures d < 16
  {
    if IsDigit(c) then c as int - '0' as int
    else if 'A' <= c <= 'F' then c as int - 'A' as int + 10
    else if 'a' <= c <= 'f' then c as int - 'a' as int + 10
    else 0
  }

  /** The digits and their values, in both cases. */
  lemma DigitsAre(d: nat)
    requires d < 16
    ensures UpperDigit(d) == "0123456789ABCDEF"[d] && DigitValue("0123456789ABCDEF"[d]) == d
    ensures LowerDigit(d) == "0123456789abcdef"[d] && DigitValue("0123456789abcdef"[d]) == d
  {
  }

  lemma HexDigitsAre(c: char)
    ensures IsHexDigit(c) <==> c in "0123456789ABCDEFabcdef"
    ensures IsDigit(c) <==> c in "0123456789"
    ensures !IsHexDigit(c) ==> DigitValue(c) == 0
  {
    if '0' <= c <= '9' {
      assert "0123456789ABCDEFabcdef"[c as int - '0' as int] == c && "0123456789"[c as int - '0' as int] == c;
    } else if 'A' <= c <= 'F' {
      assert "0123456789ABCDEFabcdef"[c as int - 'A' as int + 10] == c;
    } else if 'a' <= c <= 'f' {
      assert "0123456789ABCDEFabcdef"[c as int - 'a' as int + 16] == c;
    }
  }

  lemma DigitsReadBack(d: nat)
    requires d < 16
    ensures IsHexDigit(UpperDigit(d)) && DigitValue(UpperDigit(d)) == d
    ensures IsHexDigit(LowerDigit(d)) && DigitValue(LowerDigit(d)) == d
    ensures d < 10 ==> IsDigit(LowerDigit(d))
  {
  }

  lemma ByteReadsBack(b: u8)
    ensures IsHexDigit(Byte(b)[0]) && IsHexDigit(Byte(b)[1])
    ensures 16 * DigitValue(Byte(b)[0]) + DigitValue(Byte(b)[1]) == b
  {
    DigitsReadBack(b / 16);
    DigitsReadBack(b % 16);
  }

  /** A byte in two upper-case digits. */
  predicate IsByteText(high: char, low: char, b: nat)
    requires b < 0x100
  {
    high == "0123456789ABCDEF"[b / 16] && low == "0123456789ABCDEF"[b % 16]
  }

  lemma ByteIsText(b: u8)
    ensures |Byte(b)| == 2 && IsByteText(Byte(b)[0], Byte(b)[1], b)
  {
    DigitsAre(b / 16);
    DigitsAre(b % 16);
  }
}
