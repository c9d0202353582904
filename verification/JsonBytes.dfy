/** The bytes that have a role in JSON text. */
module JsonBytes {
  import opened Bytes
  import Utf8

  const QUOTE: Byte := 0x22
  const PLUS: Byte := 0x2B
  const COMMA: Byte := 0x2C
  const MINUS: Byte := 0x2D
  const POINT: Byte := 0x2E
  const SLASH: Byte := 0x2F
  const ZERO: Byte := 0x30
  const NINE: Byte := 0x39
  const COLON: Byte := 0x3A
  const UPPER_E: Byte := 0x45
  const LEFT_BRACKET: Byte := 0x5B
  const BACKSLASH: Byte := 0x5C
  const RIGHT_BRACKET: Byte := 0x5D
  const LOWER_B: Byte := 0x62
  const LOWER_E: Byte := 0x65
  const LOWER_F: Byte := 0x66
  const LOWER_N: Byte := 0x6E
  const LOWER_R: Byte := 0x72
  const LOWER_T: Byte := 0x74
  const LOWER_U: Byte := 0x75
  const LEFT_BRACE: Byte := 0x7B
  const RIGHT_BRACE: Byte := 0x7D
  /** A byte that the C code, which compares signed chars, takes for EOF. */
  const EOF_BYTE: Byte := 0xFF

  const KEYWORD_NULL: Text := [0x6E, 0x75, 0x6C, 0x6C]
  const KEYWORD_TRUE: Text := [0x74, 0x72, 0x75, 0x65]
  const KEYWORD_FALSE: Text := [0x66, 0x61, 0x6C, 0x73, 0x65]

  predicate IsWhitespace(b: Byte) {
    b == 0x20 || b == 0x09 || b == 0x0A || b == 0x0D
  }

  predicate IsDigit(b: Byte) {
    ZERO <= b <= NINE
  }

  function DigitValue(b: Byte): (d: nat)
    requires IsDigit(b)
    ensures d < 10
  {
    b - ZERO
  }

  predicate IsHex(b: Byte) {
    IsDigit(b) || 0x41 <= b <= 0x46 || 0x61 <= b <= 0x66
  }

  /** pvt_hex_to_dec */
  function HexDigit(b: Byte): (d: int)
    requires IsHex(b)
    ensures 0 <= d < 16
  {
    if IsDigit(b) then b - 0x30
    else if b < 0x61 then b - 0x37
    else b - 0x57
  }

  predicate IsHigh(cp: int) {
    0xD800 <= cp <= 0xDBFF
  }

  predicate IsLow(cp: int) {
    0xDC00 <= cp <= 0xDFFF
  }

  function Combine(high: int, low: int): (cp: int)
    requires IsHigh(high) && IsLow(low)
    ensures Utf8.IsScalar(cp) && 0x10000 <= cp
  {
    0x10000 + (high - 0xD800) * 0x400 + (low - 0xDC00)
  }

  /** The surrogate pair of a scalar value beyond U+FFFF combines to that value. */
  lemma PairCombines(cp: int)
    requires 0x10000 <= cp <= 0x10FFFF
    ensures var high, low := 0xD800 + (cp - 0x10000) / 0x400, 0xDC00 + (cp - 0x10000) % 0x400;
            IsHigh(high) && IsLow(low) && Combine(high, low) == cp
  {
  }

  function Pow(b: nat, e: nat): (r: nat)
    ensures 0 < b ==> 0 < r
  {
    if e == 0 then 1 else b * Pow(b, e - 1)
  }

  /** The value of a run of decimal digits. */
  function DecimalValue(digits: Text): nat
    requires forall i :: 0 <= i < |digits| ==> IsDigit(digits[i])
  {
    if digits == [] then 0
    else DecimalValue(digits[..|digits| - 1]) * 10 + DigitValue(digits[|digits| - 1])
  }

  predicate IsExponentMark(b: Byte) {
    b == LOWER_E || b == UPPER_E
  }
}
