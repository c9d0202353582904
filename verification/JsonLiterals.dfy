/** The bytes of JSON as the characters that the source and RFC 8259 write: what parser, printer and grammar have in
    common is fixed here from outside. */
module JsonLiterals {
  import opened Bytes
  import opened JsonBytes
  import opened JsonValues
  import opened JsonParserSpec
  import opened JsonPrinterSpec
  import opened JsonStrings
  import opened JsonLanguage
  import Bits
  import G = JsonGrammar
  import Utf8

  /** A text in ASCII */
  function Ascii(s: string): (t: Text)
    requires forall i :: 0 <= i < |s| ==> s[i] < 128 as char
    ensures |t| == |s| && forall i :: 0 <= i < |s| ==> t[i] == s[i] as int
  {
    seq(|s|, i requires 0 <= i < |s| => s[i] as int)
  }

  // ---------------------------------------------------------------------------------------------
  //  Characters and names
  // ---------------------------------------------------------------------------------------------

  /** The structural characters of section 2 and the names of section 3 of RFC 8259 */
  lemma StructuralCharacters()
    ensures [LEFT_BRACKET, LEFT_BRACE, RIGHT_BRACKET, RIGHT_BRACE, COLON, COMMA] == Ascii("[{]}:,")
    ensures KEYWORD_NULL == Ascii("null") && KEYWORD_TRUE == Ascii("true") && KEYWORD_FALSE == Ascii("false")
    ensures [QUOTE, BACKSLASH, SLASH] == Ascii("\"\\/")
    ensures [LOWER_B, LOWER_F, LOWER_N, LOWER_R, LOWER_T, LOWER_U] == Ascii("bfnrtu")
    ensures [MINUS, PLUS, POINT, ZERO, NINE] == Ascii("-+.09")
    ensures [SPACE, NEWLINE] == Ascii(" \n")
  {
    var structural := Ascii("[{]}:,");
    var names := [Ascii("null"), Ascii("true"), Ascii("false")];
  }

  /** Which bytes are whitespace, digits, hexadecimal digits and exponent marks */
  lemma ByteClasses(b: Byte)
    ensures IsWhitespace(b) <==> b in Ascii(" \t\n\r")
    ensures IsDigit(b) <==> b in Ascii(DECIMAL)
    ensures IsHex(b) <==> b in Ascii(UPPER) || b in Ascii(LOWER)
    ensures IsExponentMark(b) <==> b in Ascii("eE")
  {
    assert Ascii(" \t\n\r") == [0x20, 0x09, 0x0A, 0x0D];
    assert Ascii("eE") == [0x65, 0x45];
    DigitBytes();
  }

  const DECIMAL := "0123456789"
  const UPPER := "0123456789ABCDEF"
  const LOWER := "0123456789abcdef"

  lemma DigitBytes()
    ensures Ascii(DECIMAL) == [0x30, 0x31, 0x32, 0x33, 0x34, 0x35, 0x36, 0x37, 0x38, 0x39]
    ensures Ascii(UPPER) == Ascii(DECIMAL) + [0x41, 0x42, 0x43, 0x44, 0x45, 0x46]
    ensures Ascii(LOWER) == Ascii(DECIMAL) + [0x61, 0x62, 0x63, 0x64, 0x65, 0x66]
  {
  }

  /** A digit is worth its place among the digits, and is printed in upper case. */
  lemma DigitValues(d: nat)
    ensures d < 10 ==> IsDigit(Ascii(DECIMAL)[d]) && DigitValue(Ascii(DECIMAL)[d]) == d
    ensures d < 16 ==> IsHex(Ascii(UPPER)[d]) && HexDigit(Ascii(UPPER)[d]) == d && UpperHex(d) == Ascii(UPPER)[d]
    ensures d < 16 ==> IsHex(Ascii(LOWER)[d]) && HexDigit(Ascii(LOWER)[d]) == d
  {
    DigitBytes();
  }

  // ---------------------------------------------------------------------------------------------
  //  Escapes
  // ---------------------------------------------------------------------------------------------

  /** A hexadecimal digit in upper or lower case */
  function HexCharacter(d: nat, upper: bool): (h: Byte)
    requires d < 16
    ensures IsHex(h) && HexDigit(h) == d
  {
    DigitValues(d);
    if upper then Ascii(UPPER)[d] else Ascii(LOWER)[d]
  }

  /** n in four hexadecimal digits */
  function Hex4(n: nat, upper: bool): (h: Text)
    requires n < 0x10000
    ensures G.IsFourHex(h)
  {
    [HexCharacter(n / 0x1000, upper), HexCharacter(n / 0x100 % 0x10, upper),
     HexCharacter(n / 0x10 % 0x10, upper), HexCharacter(n % 0x10, upper)]
  }

  lemma Hex4Value(n: nat, upper: bool)
    requires n < 0x10000
    ensures G.HexValue(Hex4(n, upper)) == n
  {
    hide HexCharacter, HexDigit, IsHex;
    HexPlaces(n);
  }

  lemma HexPlaces(n: nat)
    ensures n == n / 0x1000 * 0x1000 + n / 0x100 % 0x10 * 0x100 + n / 0x10 % 0x10 * 0x10 + n % 0x10
  {
    assert n / 0x10 / 0x10 == n / 0x100 && n / 0x100 / 0x10 == n / 0x1000;
  }

  /** "\uXXXX" */
  function Escape4(n: nat, upper: bool): Text
    requires n < 0x10000
  {
    Ascii("\\u") + Hex4(n, upper)
  }

  /** The escapes of a scalar value, section 7 of RFC 8259: beyond U+FFFF it takes the two halves of its UTF-16 form. */
  function EscapeScalar(cp: int, upper: bool): Text
    requires Utf8.IsScalar(cp)
  {
    if cp < 0x10000 then Escape4(cp, upper)
    else Escape4(0xD800 + (cp - 0x10000) / 0x400, upper) + Escape4(0xDC00 + (cp - 0x10000) % 0x400, upper)
  }

  /** A string that spells a scalar value by its escapes is read as the UTF-8 bytes of this value. */
  lemma EscapedScalarIsRead(cp: int, upper: bool, rest: Text, room: nat)
    requires Utf8.IsScalar(cp) && 0 < cp && 4 <= room
    ensures ParseString(Ascii("\"") + (EscapeScalar(cp, upper) + (Ascii("\"") + rest)), room)
         == Ok(Utf8.Encode(cp), rest)
  {
    hide EscapeScalar, Utf8.Encode, ParseString, G.CharScalar;
    var c := EscapedChar(cp, upper, [QUOTE] + rest);
    var cs := [c];
    assert cs[1..] == [];
    assert Ascii("\"") == [QUOTE];
    assert G.SpellChars(cs[1..], [QUOTE] + rest) == [QUOTE] + rest;
    assert G.SpellChars(cs, [QUOTE] + rest) == G.SpellChar(c, [QUOTE] + rest);
    assert G.SpellString(cs, rest) == [QUOTE] + (EscapeScalar(cp, upper) + ([QUOTE] + rest));
    StringBytesStep(cs);
    assert G.StringBytes(cs) == Utf8.Encode(cp) + [] == Utf8.Encode(cp);
    assert |Utf8.Encode(cp)| <= 4;
    ParseStringOf(cs, rest, room);
  }

  /** The char of the grammar that the escapes are */
  lemma EscapedChar(cp: int, upper: bool, rest: Text) returns (c: G.StrChar)
    requires Utf8.IsScalar(cp)
    ensures G.ValidChar(c) && G.CharScalar(c) == cp
    ensures G.SpellChar(c, rest) == EscapeScalar(cp, upper) + rest
  {
    hide Hex4, G.HexValue;
    assert Ascii("\\u") == [BACKSLASH, LOWER_U];
    if cp < 0x10000 {
      Hex4Value(cp, upper);
      c := G.Unicode(Hex4(cp, upper));
    } else {
      PairCombines(cp);
      var high, low := 0xD800 + (cp - 0x10000) / 0x400, 0xDC00 + (cp - 0x10000) % 0x400;
      Hex4Value(high, upper);
      Hex4Value(low, upper);
      c := G.SurrogatePair(Hex4(high, upper), Hex4(low, upper));
      assert G.SpellChar(c, rest) == Escape4(high, upper) + Escape4(low, upper) + rest;
    }
  }

  /** U+1F600 is spelled in twelve characters and read as four bytes. */
  lemma EmojiIsRead(rest: Text, room: nat)
    requires 4 <= room
    ensures ParseString(Ascii("\"\\ud83d\\ude00\"") + rest, room) == Ok([0xF0, 0x9F, 0x98, 0x80], rest)
  {
    hide ParseString, EscapeScalar, Utf8.Encode;
    EscapedScalarIsRead(0x1F600, false, rest, room);
    EmojiDigits();
    EmojiText(rest);
  }

  lemma EmojiText(rest: Text)
    ensures Ascii("\"\\ud83d\\ude00\"") + rest == Ascii("\"") + (Ascii("\\ud83d\\ude00") + (Ascii("\"") + rest))
  {
    assert Ascii("\"\\ud83d\\ude00\"") == Ascii("\"") + Ascii("\\ud83d\\ude00") + Ascii("\"");
  }

  lemma EmojiDigits()
    ensures EscapeScalar(0x1F600, false) == Ascii("\\ud83d\\ude00")
    ensures Utf8.Encode(0x1F600) == [0xF0, 0x9F, 0x98, 0x80]
  {
    hide Hex4;
    EmojiHex();
    assert Ascii("\\ud83d\\ude00") == Ascii("\\u") + Ascii("d83d") + (Ascii("\\u") + Ascii("de00"));
  }

  lemma EmojiHex()
    ensures Hex4(0xD83D, false) == Ascii("d83d") && Hex4(0xDE00, false) == Ascii("de00")
  {
    LowerDigits();
    hide HexCharacter;
  }

  lemma LowerDigits()
    ensures HexCharacter(0xD, false) == 'd' as int && HexCharacter(0x8, false) == '8' as int
    ensures HexCharacter(0x3, false) == '3' as int && HexCharacter(0xE, false) == 'e' as int
    ensures HexCharacter(0x0, false) == '0' as int
  {
  }

  /** The letters of the short escapes, and what they stand for */
  lemma ShortEscapes(i: nat, letter: Byte)
    ensures letter in G.ESCAPES <==> letter in Ascii("\"\\/bfnrt")
    ensures i < 8 ==>
              && Ascii("\"\\/bfnrt")[i] in G.ESCAPES
              && G.ESCAPES[Ascii("\"\\/bfnrt")[i]] == [0x22, 0x5C, 0x2F, 0x08, 0x0C, 0x0A, 0x0D, 0x09][i]
  {
    assert Ascii("\"\\/bfnrt") == [0x22, 0x5C, 0x2F, 0x62, 0x66, 0x6E, 0x72, 0x74];
  }

  /** What jsonp_fprint_string prints for a byte, as the source writes it */
  lemma EscapesAsPrinted(b: Byte)
    ensures EscapeByte(b)
         == if b == 0x08 then Ascii("\\b")
            else if b == 0x09 then Ascii("\\t")
            else if b == 0x0A then Ascii("\\n")
            else if b == 0x0C then Ascii("\\f")
            else if b == 0x0D then Ascii("\\r")
            else if b < 0x20 then Ascii("\\u00") + [Ascii(UPPER)[b / 16], Ascii(UPPER)[b % 16]]
            else if b == '"' as int then Ascii("\\\"")
            else if b == '\\' as int then Ascii("\\\\")
            else [b]
  {
    DigitValues(b / 16);
    DigitValues(b % 16);
  }

  /** A key as it is printed: its first 127 bytes, as they are, between quotes and before a colon */
  lemma KeyAsPrinted(key: CText)
    ensures PrintKey(key) == Ascii("\"") + key[..if |key| < 127 then |key| else 127] + Ascii("\" : ")
  {
    assert Ascii("\"") == [QUOTE] && Ascii("\" : ") == [QUOTE, SPACE, COLON, SPACE];
  }

  // ---------------------------------------------------------------------------------------------
  //  Numbers
  // ---------------------------------------------------------------------------------------------

  /** Every digit counts ten times as much as the next one. */
  lemma {:induction false} DecimalIsPositional(digits: Text)
    requires digits != [] && forall i :: 0 <= i < |digits| ==> IsDigit(digits[i])
    ensures DecimalValue(digits) == (digits[0] - '0' as int) * Pow(10, |digits| - 1) + DecimalValue(digits[1..])
    ensures DecimalValue([]) == 0 && Pow(10, 0) == 1 && Pow(10, |digits|) == 10 * Pow(10, |digits| - 1)
  {
    var n := |digits| - 1;
    if n != 0 {
      DecimalIsPositional(digits[..n]);
      assert digits[..n][1..] == digits[1..][..n - 1];
      ShiftDigits(digits[0] - ZERO, Pow(10, n - 1), DecimalValue(digits[1..][..n - 1]));
    } else {
      assert digits[..n] == [] && digits[1..] == [];
    }
  }

  lemma ShiftDigits(d: int, p: int, v: int)
    ensures (d * p + v) * 10 == d * (10 * p) + v * 10
  {
  }

  /** The largest finite double, and the least power of two beyond it */
  function LargestDouble(): int {
    BeyondDouble() - Pow(2, 971)
  }

  function BeyondDouble(): int {
    Pow(2, 1024)
  }

  /** An integer is a long if it is one of the 2^64 values of the type; a double if it is nearer to the largest finite
      double than to the power of two beyond it; and else the long 0. */
  lemma IntegerMeaningByMagnitude(n: int, lexeme: Text)
    ensures IntegerMeaning(n, lexeme)
         == if -9223372036854775808 <= n <= 9223372036854775807 then Long(n)
            else if 2 * (if n < 0 then 0 - n else n) < LargestDouble() + BeyondDouble() then Double(lexeme)
            else Long(0)
  {
    hide DoubleLimit, LargestDouble, BeyondDouble;
    LimitIsHalfway();
  }

  lemma LimitIsHalfway()
    ensures 2 * DoubleLimit() == LargestDouble() + BeyondDouble()
    ensures 9223372036854775808 <= DoubleLimit()
  {
    hide Pow;
    PowSum(2, 970, 54);
    PowSum(2, 1, 970);
    TwoToThe();
    var p, q := Pow(2, 970), Pow(2, 54);
    assert p * (q - 1) == p * q - p;
  }

  lemma TwoToThe()
    ensures Pow(2, 1) == 2 && Pow(2, 54) == 0x40_0000_0000_0000
    ensures 0x8000_0000_0000_0000 <= Pow(2, 970)
  {
    hide Pow;
    SmallPowers();
    PowSum(2, 6, 6);
    PowSum(2, 12, 12);
    PowSum(2, 24, 24);
    PowSum(2, 48, 6);
    PowSum(2, 54, 6);
    PowSum(2, 60, 3);
    PowSum(2, 63, 907);
    Bits.MulLe(1, Pow(2, 907), Pow(2, 63));
  }

  lemma SmallPowers()
    ensures Pow(2, 1) == 2 && Pow(2, 3) == 8 && Pow(2, 6) == 64
  {
  }

  // ---------------------------------------------------------------------------------------------
  //  Byte order marks
  // ---------------------------------------------------------------------------------------------

  /** The UTF-8 mark is U+FEFF encoded, and is skipped once; the UTF-16 marks are its two bytes in either order. */
  lemma ByteOrderMarks(s: Text)
    ensures Utf8.Encode(0xFEFF) == [0xEF, 0xBB, 0xBF] == UTF8_BOM
    ensures UTF16_BE_BOM == [0xFEFF / 0x100, 0xFEFF % 0x100] && UTF16_LE_BOM == [0xFEFF % 0x100, 0xFEFF / 0x100]
    ensures SkipBom([0xEF, 0xBB, 0xBF] + s) == s
    ensures !([0xEF, 0xBB, 0xBF] <= s) ==> SkipBom(s) == s
  {
    assert ([0xEF, 0xBB, 0xBF] + s)[3..] == s;
  }

  /** With a UTF-8 mark a text is parsed as without. */
  lemma MarkMakesNoDifference(s: Text, max: Limits)
    requires !([0xEF, 0xBB, 0xBF] <= s) && !([0xFE, 0xFF] <= s) && !([0xFF, 0xFE] <= s)
    ensures Parse([0xEF, 0xBB, 0xBF] + s, max) == Parse(s, max)
  {
    hide ParseValue;
    ByteOrderMarks(s);
    var t := [0xEF, 0xBB, 0xBF] + s;
    assert t[0] == 0xEF;
  }
}
