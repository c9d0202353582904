/** What the parsing functions of json_parser.c do to the text ahead of the cursor, as functions.
    The methods of module JsonParser are proved to compute exactly these; JsonGrammar gives them their meaning. */
module JsonParserSpec {
  import opened Bytes
  import opened JsonBytes
  import opened JsonValues
  import Utf8

  /** pvt_current_char: the terminating NUL once the text is used up. */
  function Cur(s: Text): Byte {
    if s == [] then NUL else s[0]
  }

  /** pvt_peek_next_char: EOF, that is 0xFF as a char, past the end. */
  function Peek(s: Text): Byte {
    if |s| < 2 then EOF_BYTE else s[1]
  }

  /** pvt_skip_whitespace */
  function SkipWs(s: Text): (r: Text)
    ensures |r| <= |s|
    ensures !IsWhitespace(Cur(r))
  {
    if IsWhitespace(Cur(s)) then SkipWs(s[1..]) else s
  }

  function SkipDigits(s: Text): (r: Text)
    ensures |r| <= |s|
    ensures !IsDigit(Cur(r))
  {
    if IsDigit(Cur(s)) then SkipDigits(s[1..]) else s
  }

  // ---------------------------------------------------------------------------------------------
  //  Strings
  // ---------------------------------------------------------------------------------------------

  /** pvt_parse_hex_impl, with the value of the digits read so far. */
  function ParseHex(s: Text, count: nat, value: nat): (r: Outcome<nat>)
    ensures |r.rest| <= |s|
    ensures r.Ok? ==> |s| == |r.rest| + count
    decreases count
  {
    if count == 0 then Ok(value, s)
    else if Cur(s) == NUL then Err(UnexpectedEof, s)
    else if !IsHex(s[0]) then Err(InvalidUnicodeEscape, s)
    else ParseHex(s[1..], count - 1, value * 16 + HexDigit(s[0]))
  }

  /** pvt_encode_utf8 through sb_append_char, which ignores NUL. */
  function Kept(cp: int): (r: Text)
    requires Utf8.IsScalar(cp)
    ensures NulFree(r)
  {
    if cp == 0 then [] else Utf8.Encode(cp)
  }

  /** pvt_parse_hex4 returns a uint16_t. */
  function Uint16(n: nat): (r: nat)
    ensures r < 0x10000
    ensures n < 0x10000 ==> r == n
  {
    n % 0x10000
  }

  /** pvt_parse_unicode_escape: s starts at the 'u'. */
  function ParseUnicodeEscape(s: Text): (r: Outcome<Text>)
    requires Cur(s) == LOWER_U
    ensures |r.rest| < |s|
  {
    match ParseHex(s[1..], 4, 0)
    case Err(e, r) => Err(e, r)
    case Ok(n1, r) =>
      var cp1 := Uint16(n1);
      if IsLow(cp1) then Err(NoPrecedingHighSurrogate, r)
      else if !IsHigh(cp1) then Ok(Kept(cp1), r)
      else ParseLowSurrogate(cp1, r)
  }

  /** The second half of pvt_parse_unicode_escape, after a high surrogate. */
  function ParseLowSurrogate(high: nat, s: Text): (r: Outcome<Text>)
    requires IsHigh(high)
    ensures |r.rest| <= |s|
  {
    if Cur(s) != BACKSLASH || Peek(s) != LOWER_U then Err(NoFollowingLowSurrogate, s)
    else
      match ParseHex(s[2..], 4, 0)
      case Err(e, r) => Err(e, r)
      case Ok(n2, r) =>
        var cp2 := Uint16(n2);
        if !IsLow(cp2) then Err(NoFollowingLowSurrogate, r)
        else Ok(Kept(Combine(high, cp2)), r)
  }

  predicate IsShortEscape(b: Byte) {
    || b == QUOTE || b == BACKSLASH || b == SLASH
    || b == LOWER_B || b == LOWER_F || b == LOWER_N || b == LOWER_R || b == LOWER_T
  }

  function ShortEscapeValue(b: Byte): (r: Byte)
    requires IsShortEscape(b)
    ensures r != NUL
  {
    if b == LOWER_B then 0x08
    else if b == LOWER_F then 0x0C
    else if b == LOWER_N then 0x0A
    else if b == LOWER_R then 0x0D
    else if b == LOWER_T then 0x09
    else b
  }

  /** pvt_parse_backlash_escapes: s starts at the backslash; the value is what goes into the string. */
  function ParseEscape(s: Text): (r: Outcome<Text>)
    requires Cur(s) == BACKSLASH
    ensures |r.rest| < |s|
  {
    var t := s[1..];
    if Cur(t) == NUL then Err(UnexpectedEof, t)
    else if IsShortEscape(t[0]) then Ok([ShortEscapeValue(t[0])], t[1..])
    else if t[0] == LOWER_U then ParseUnicodeEscape(t)
    else Err(InvalidEscapeSequence, t)
  }

  /** Consumes n continuation bytes, checked one by one. */
  function ParseTails(s: Text, n: nat): (r: Outcome<Text>)
    ensures |r.rest| <= |s|
    ensures r.Ok? ==> |r.value| == n && s == r.value + r.rest
    decreases n
  {
    if n == 0 then Ok([], s)
    else if !Utf8.IsTail(Cur(s)) then Err(InvalidUtf8ContinuationByte, s)
    else
      match ParseTails(s[1..], n - 1)
      case Err(e, r) => Err(e, r)
      case Ok(ts, r) => Ok([s[0]] + ts, r)
  }

  /** The errors of pvt_validate_utf8 for a bad second byte. */
  function SecondByteError(lead: Byte, b: Byte): ErrorType {
    if lead == 0xE0 && Utf8.Within(b, 0x80, 0x9F) then OverlongSequence
    else if lead == 0xED && Utf8.Within(b, 0xA0, 0xAF) then ReservedForHighSurrogate
    else if lead == 0xED && Utf8.Within(b, 0xB0, 0xBF) then ReservedForLowSurrogate
    else if lead == 0xF0 && Utf8.Within(b, 0x80, 0x8F) then OverlongSequence
    else if lead == 0xF4 && 0x90 <= b then CodepointOutOfRange
    else InvalidUtf8ContinuationByte
  }

  /** The second bytes that pvt_validate_utf8 accepts after a lead byte of a multi-byte sequence. */
  predicate SecondByteOk(lead: Byte, b: Byte) {
    if lead == 0xE0 then Utf8.Within(b, 0xA0, 0xBF)
    else if lead == 0xED then Utf8.Within(b, 0x80, 0x9F)
    else if lead == 0xF0 then Utf8.Within(b, 0x90, 0xBF)
    else if lead == 0xF4 then Utf8.Within(b, 0x80, 0x8F)
    else Utf8.IsTail(b)
  }

  /** The number of bytes that pvt_validate_utf8 expects after a lead byte; 0 for a byte that cannot lead. */
  function TailsAfter(lead: Byte): nat {
    if Utf8.Within(lead, 0xC2, 0xDF) then 1
    else if Utf8.Within(lead, 0xE0, 0xEF) then 2
    else if Utf8.Within(lead, 0xF0, 0xF4) then 3
    else 0
  }

  /** pvt_validate_utf8: s starts at a byte that is neither NUL, a control character, a quote nor a backslash. */
  function ParseUtf8Char(s: Text): (r: Outcome<Text>)
    requires s != []
    ensures |r.rest| <= |s|
    ensures r.Ok? ==> |r.rest| < |s|
  {
    var lead := s[0];
    if lead <= 127 then Ok([lead], s[1..])
    else if TailsAfter(lead) == 0 then
      Err(if lead == 0xC0 || lead == 0xC1 then OverlongSequence else InvalidUtf8StartByte, s)
    else
      var t := s[1..];
      if !SecondByteOk(lead, Cur(t)) then Err(SecondByteError(lead, Cur(t)), t)
      else
        match ParseTails(t[1..], TailsAfter(lead) - 1)
        case Err(e, r) => Err(e, r)
        case Ok(ts, r) => Ok([lead, t[0]] + ts, r)
  }

  /** One turn of the loop of pvt_parse_string; the value is what goes into the StringBuilder. */
  function ParseChar(s: Text): (r: Outcome<Text>)
    requires Cur(s) != NUL
    ensures |r.rest| <= |s|
    ensures r.Ok? ==> |r.rest| < |s|
  {
    if s[0] == BACKSLASH then ParseEscape(s)
    else if s[0] <= 0x1F then Err(UnescapedControlChar, s)
    else ParseUtf8Char(s)
  }

  /** The loop of pvt_parse_string; acc is the content of the StringBuilder, which has room for `room` bytes. */
  function ParseChars(s: Text, acc: Text, room: nat): (r: Outcome<Text>)
    ensures |r.rest| <= |s|
    ensures r.Ok? ==> |r.rest| < |s|
    decreases |s|
  {
    if Cur(s) == NUL then Err(UnterminatedString, s)
    else if s[0] == QUOTE then Ok(acc, s[1..])
    else
      match ParseChar(s)
      case Err(e, r) => Err(e, r)
      case Ok(bytes, r) =>
        if room < |acc| + |bytes| then Err(MemoryOverrun, r) else ParseChars(r, acc + bytes, room)
  }

  /** pvt_parse_string: s starts at the opening quote. */
  function ParseString(s: Text, room: nat): (r: Outcome<Text>)
    requires Cur(s) == QUOTE
    ensures |r.rest| < |s|
  {
    ParseChars(s[1..], [], room)
  }

  // ---------------------------------------------------------------------------------------------
  //  Numbers
  // ---------------------------------------------------------------------------------------------

  predicate IsIntegerLexeme(lexeme: Text) {
    && lexeme != []
    && (IsDigit(lexeme[0]) || lexeme[0] == MINUS)
    && forall i :: 1 <= i < |lexeme| ==> IsDigit(lexeme[i])
  }

  function IntegerOf(lexeme: Text): int
    requires IsIntegerLexeme(lexeme)
  {
    if lexeme[0] == MINUS then 0 - DecimalValue(lexeme[1..]) else DecimalValue(lexeme)
  }

  /** The conversion of an integer, whose bytes are handed to strtol. */
  function IntegerValue(lexeme: Text): JsonValue
    requires IsIntegerLexeme(lexeme)
  {
    IntegerMeaning(IntegerOf(lexeme), lexeme)
  }

  /** The optional fraction: u is what follows the integer part. */
  function ParseFraction(u: Text): (r: Outcome<()>)
    ensures |r.rest| <= |u|
  {
    if Cur(u) != POINT then Ok((), u)
    else if !IsDigit(Cur(u[1..])) then Err(InvalidNumberFormat, u[1..])
    else Ok((), SkipDigits(u[1..]))
  }

  function SkipSign(u: Text): (r: Text)
    ensures |r| <= |u|
  {
    if Cur(u) == MINUS || Cur(u) == PLUS then u[1..] else u
  }

  /** The optional exponent. */
  function ParseExponent(u: Text): (r: Outcome<()>)
    ensures |r.rest| <= |u|
  {
    if !IsExponentMark(Cur(u)) then Ok((), u)
    else
      var d := SkipSign(u[1..]);
      if !IsDigit(Cur(d)) then Err(InvalidNumberFormat, d)
      else Ok((), SkipDigits(d))
  }

  /** The part of s that a step which left `rest` has consumed. */
  function Consumed(s: Text, rest: Text): Text
    requires |rest| <= |s|
  {
    s[..|s| - |rest|]
  }

  /** The sign and the digits before the decimal point. */
  function ParseIntegerPart(s: Text): (r: Outcome<()>)
    ensures |r.rest| <= |s|
    ensures r.Ok? ==> |r.rest| < |s| && IsIntegerLexeme(Consumed(s, r.rest))
  {
    var t := if Cur(s) == MINUS then s[1..] else s;
    if !IsDigit(Cur(t)) then Err(InvalidNumberFormat, t)
    else if Cur(t) == ZERO then
      if IsDigit(Cur(t[1..])) then Err(InvalidNumberFormat, t[1..])
      else
        Ok((), t[1..])
    else
      SkipDigitsAreDigits(t);
      Ok((), SkipDigits(t))
  }

  lemma {:induction false} SkipDigitsAreDigits(s: Text)
    ensures forall i :: 0 <= i < |s| - |SkipDigits(s)| ==> IsDigit(s[i])
    ensures IsDigit(Cur(s)) ==> |SkipDigits(s)| < |s|
  {
    if IsDigit(Cur(s)) {
      SkipDigitsAreDigits(s[1..]);
      forall i | 0 <= i < |s| - |SkipDigits(s)| ensures IsDigit(s[i]) {
        assert i > 0 ==> s[i] == s[1..][i - 1];
      }
    }
  }

  /** The part of pvt_parse_number after the integer part of a double; s is the text that the number starts. */
  function ParseDouble(s: Text, u: Text, size: nat): (r: Outcome<JsonValue>)
    requires |u| <= |s|
    ensures |r.rest| <= |u|
  {
    match ParseFraction(u)
    case Err(e, r) => Err(e, r)
    case Ok(_, v) =>
      match ParseExponent(v)
      case Err(e, r) => Err(e, r)
      case Ok(_, w) =>
        if size <= |Consumed(s, w)| then Err(MemoryOverrun, w) else Ok(Double(Consumed(s, w)), w)
  }

  /** pvt_parse_number; a number that fills its buffer, of the given size, is read back past the end of it. */
  function ParseNumber(s: Text, size: nat): (r: Outcome<JsonValue>)
    ensures |r.rest| <= |s|
    ensures r.Ok? ==> |r.rest| < |s|
  {
    if Cur(s) == POINT then Err(InvalidNumberFormat, s)
    else
      match ParseIntegerPart(s)
      case Err(e, r) => Err(e, r)
      case Ok(_, u) =>
        if Cur(u) == POINT || IsExponentMark(Cur(u)) then ParseDouble(s, u, size)
        else if size <= |Consumed(s, u)| then Err(MemoryOverrun, u)
        else Ok(IntegerValue(Consumed(s, u)), u)
  }

  // ---------------------------------------------------------------------------------------------
  //  Literals
  // ---------------------------------------------------------------------------------------------

  /** pvt_parse_literal_impl */
  function ParseLiteral(s: Text, keyword: Text, literal: JsonValue): (r: Outcome<JsonValue>)
    ensures |r.rest| <= |s|
    ensures r.Ok? ==> |r.rest| + |keyword| == |s|
    decreases |keyword|
  {
    if keyword == [] then Ok(literal, s)
    else if Cur(s) == NUL then Err(UnexpectedEof, s)
    else if s[0] != keyword[0] then Err(UnexpectedText, s)
    else ParseLiteral(s[1..], keyword[1..], literal)
  }

  // ---------------------------------------------------------------------------------------------
  //  Values, arrays and objects
  // ---------------------------------------------------------------------------------------------

  predicate StartsNumber(b: Byte) {
    b == MINUS || b == POINT || IsDigit(b)
  }

  /** pvt_parse_value, with depth_current and the limits. */
  function ParseValue(s: Text, depth: nat, max: Limits): (r: Outcome<JsonValue>)
    ensures |r.rest| <= |s|
    ensures r.Ok? ==> |r.rest| < |s|
    decreases |s|, 3
  {
    var t := SkipWs(s);
    var c := Cur(t);
    if c == LEFT_BRACE then ParseObject(t, depth, max)
    else if c == LEFT_BRACKET then ParseArray(t, depth, max)
    else if c == QUOTE then
      match ParseString(t, max.room)
      case Err(e, r) => Err(e, r)
      case Ok(text, r) => Ok(String(text), r)
    else if StartsNumber(c) then ParseNumber(t, max.buffer)
    else if c == LOWER_T then ParseLiteral(t, KEYWORD_TRUE, Boolean(true))
    else if c == LOWER_F then ParseLiteral(t, KEYWORD_FALSE, Boolean(false))
    else if c == LOWER_N then ParseLiteral(t, KEYWORD_NULL, Null)
    else Err(UnexpectedText, t)
  }

  /** An array reports what its element parser could not read as a missing element. */
  function ElementError(e: ErrorType): ErrorType {
    if e == UnexpectedText then MissingArrayElement else e
  }

  /** pvt_parse_array: s starts at the '['. */
  function ParseArray(s: Text, depth: nat, max: Limits): (r: Outcome<JsonValue>)
    requires Cur(s) == LEFT_BRACKET
    ensures |r.rest| <= |s|
    ensures r.Ok? ==> |r.rest| < |s|
    decreases |s|, 2
  {
    if max.depth < depth + 1 then Err(MaxNestedDepthExceeded, s)
    else ParseArrayBody(SkipWs(s[1..]), depth + 1, max)
  }

  /** What follows the '[' */
  function ParseArrayBody(s: Text, depth: nat, max: Limits): (r: Outcome<JsonValue>)
    ensures |r.rest| <= |s|
    decreases |s|, 5
  {
    if Cur(s) == NUL || Cur(s) == RIGHT_BRACKET then ParseElements(s, depth, max, [])
    else
      match ParseElement(s, depth, max)
      case Err(e, r) => Err(e, r)
      case Ok(v, r) => ParseElements(SkipWs(r), depth, max, [v])
  }

  /** pvt_parse_value as pvt_parse_array calls it */
  function ParseElement(s: Text, depth: nat, max: Limits): (r: Outcome<JsonValue>)
    ensures |r.rest| <= |s|
    ensures r.Ok? ==> |r.rest| < |s|
    decreases |s|, 4
  {
    match ParseValue(s, depth, max)
    case Err(e, r) => Err(ElementError(e), r)
    case Ok(v, r) => Ok(v, r)
  }

  /** The comma in the loops of pvt_parse_array and pvt_parse_object, with the closing character that must not
      follow it. */
  function ParseComma(s: Text, close: Byte): (r: Outcome<()>)
    ensures |r.rest| <= |s|
    ensures r.Ok? ==> |r.rest| < |s|
  {
    var t := SkipWs(s);
    if Cur(t) != COMMA then Err(MissingComma, t)
    else
      var u := SkipWs(t[1..]);
      if Cur(u) == close then Err(TrailingCommaNotAllowed, u) else Ok((), u)
  }

  /** One turn of the loop of pvt_parse_array: a comma, an element and the whitespace after it */
  function ParseNextElement(s: Text, depth: nat, max: Limits): (r: Outcome<JsonValue>)
    ensures |r.rest| <= |s|
    ensures r.Ok? ==> |r.rest| < |s|
    decreases |s|, 0
  {
    match ParseComma(s, RIGHT_BRACKET)
    case Err(e, r) => Err(e, r)
    case Ok(_, u) =>
      match ParseElement(u, depth, max)
      case Err(e, r) => Err(e, r)
      case Ok(v, r) => Ok(v, SkipWs(r))
  }

  /** The loop of pvt_parse_array and what follows it; acc holds the elements read so far. */
  function ParseElements(s: Text, depth: nat, max: Limits, acc: seq<JsonValue>): (r: Outcome<JsonValue>)
    ensures |r.rest| <= |s|
    decreases |s|, 1
  {
    if Cur(s) == NUL then Err(UnterminatedArray, s)
    else if Cur(s) == RIGHT_BRACKET then Ok(Array(acc), SkipWs(s[1..]))
    else
      match ParseNextElement(s, depth, max)
      case Err(e, r) => Err(e, r)
      case Ok(v, r) => ParseElements(r, depth, max, acc + [v])
  }

  /** The part of pvt_parse_one_entry between the key and the value */
  function ParseColon(s: Text): (r: Outcome<()>)
    ensures |r.rest| <= |s|
  {
    var u := SkipWs(s);
    if Cur(u) != COLON then Err(MissingColon, u)
    else
      var w := SkipWs(u[1..]);
      if Cur(w) == NUL then Err(MissingObjectValue, w) else Ok((), w)
  }

  /** The part of pvt_parse_one_entry before the value */
  function ParseKey(s: Text, room: nat): (r: Outcome<Text>)
    ensures |r.rest| <= |s|
    ensures r.Ok? ==> |r.rest| < |s|
  {
    var t := SkipWs(s);
    if Cur(t) != QUOTE then Err(MissingObjectKey, t)
    else
      match ParseString(t, room)
      case Err(e, r) => Err(e, r)
      case Ok(key, r) =>
        match ParseColon(r)
        case Err(e, w) => Err(e, w)
        case Ok(_, w) => Ok(key, w)
  }

  /** pvt_parse_one_entry */
  function ParseEntry(s: Text, depth: nat, max: Limits): (r: Outcome<Entry>)
    ensures |r.rest| <= |s|
    ensures r.Ok? ==> |r.rest| < |s|
    decreases |s|, 4
  {
    match ParseKey(s, max.room)
    case Err(e, r) => Err(e, r)
    case Ok(key, w) =>
      match ParseValue(w, depth, max)
      case Err(e, r) => Err(e, r)
      case Ok(v, r) => Ok(Entry(key, v), r)
  }

  /** pvt_parse_object: s starts at the '{'. */
  function ParseObject(s: Text, depth: nat, max: Limits): (r: Outcome<JsonValue>)
    requires Cur(s) == LEFT_BRACE
    ensures |r.rest| <= |s|
    ensures r.Ok? ==> |r.rest| < |s|
    decreases |s|, 2
  {
    if max.depth < depth + 1 then Err(MaxNestedDepthExceeded, s)
    else ParseObjectBody(SkipWs(s[1..]), depth + 1, max)
  }

  /** What follows the '{' */
  function ParseObjectBody(s: Text, depth: nat, max: Limits): (r: Outcome<JsonValue>)
    ensures |r.rest| <= |s|
    decreases |s|, 5
  {
    if Cur(s) == NUL || Cur(s) == RIGHT_BRACE then ParseMembers(s, depth, max, [])
    else
      match ParseEntry(s, depth, max)
      case Err(e, r) => Err(e, r)
      case Ok(m, r) => ParseMembers(SkipWs(r), depth, max, [m])
  }

  /** One turn of the loop of pvt_parse_object: a comma, an entry and the whitespace after it */
  function ParseNextEntry(s: Text, depth: nat, max: Limits): (r: Outcome<Entry>)
    ensures |r.rest| <= |s|
    ensures r.Ok? ==> |r.rest| < |s|
    decreases |s|, 0
  {
    match ParseComma(s, RIGHT_BRACE)
    case Err(e, r) => Err(e, r)
    case Ok(_, u) =>
      match ParseEntry(u, depth, max)
      case Err(e, r) => Err(e, r)
      case Ok(m, r) => Ok(m, SkipWs(r))
  }

  /** The loop of pvt_parse_object and what follows it; acc holds the entries read so far. */
  function ParseMembers(s: Text, depth: nat, max: Limits, acc: seq<Entry>): (r: Outcome<JsonValue>)
    ensures |r.rest| <= |s|
    decreases |s|, 1
  {
    if Cur(s) == NUL then Err(UnterminatedObject, s)
    else if Cur(s) == RIGHT_BRACE then Ok(Object(acc), s[1..])
    else
      match ParseNextEntry(s, depth, max)
      case Err(e, r) => Err(e, r)
      case Ok(m, r) => ParseMembers(r, depth, max, acc + [m])
  }

  // ---------------------------------------------------------------------------------------------
  //  A whole text
  // ---------------------------------------------------------------------------------------------

  const UTF8_BOM: Text := [0xEF, 0xBB, 0xBF]
  const UTF16_BE_BOM: Text := [0xFE, 0xFF]
  const UTF16_LE_BOM: Text := [0xFF, 0xFE]

  /** pvt_is_rejected_due_to_bom skips a UTF-8 byte order mark. */
  function SkipBom(s: Text): Text {
    if UTF8_BOM <= s then s[3..] else s
  }

  /** The rest of pvt_jsonp_parse_impl, after the byte order mark. A byte 0xFF after the value reads as EOF. */
  function ParseBody(body: Text, max: Limits): Outcome<JsonValue> {
    var s := SkipWs(body);
    if Cur(s) == NUL || Cur(s) == EOF_BYTE then Err(EmptyText, s)
    else
      match ParseValue(s, 0, max)
      case Err(e, r) => Err(e, r)
      case Ok(v, r) =>
        var t := SkipWs(r);
        if Cur(t) != EOF_BYTE && Cur(t) != NUL then Err(UnexpectedText, t)
        else Ok(v, t)
  }

  /** jsonp_parse_string and pvt_jsonp_parse_impl */
  function Parse(text: Text, max: Limits): Outcome<JsonValue> {
    if Cur(text) == NUL then Err(EmptyText, text)
    else if UTF16_BE_BOM <= text || UTF16_LE_BOM <= text then Err(UnexpectedUtf16Encoding, text[2..])
    else ParseBody(SkipBom(text), max)
  }
}
