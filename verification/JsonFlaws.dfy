/** The texts that are no JSON text, as derivation trees: where a text stops following RFC 8259, and which error
    JsonParseErrType has for that. Like JsonGrammar, nothing here follows the parser. */
module JsonFlaws {
  import opened Bytes
  import opened JsonBytes
  import opened JsonValues
  import G = JsonGrammar
  import Utf8

  /** A C string ends with its bytes, or at a NUL. */
  predicate AtEnd(s: Text) {
    s == [] || s[0] == NUL
  }

  predicate StartsWith(s: Text, b: Byte) {
    s != [] && s[0] == b
  }

  predicate StartsWithDigit(s: Text) {
    s != [] && IsDigit(s[0])
  }

  // ---------------------------------------------------------------------------------------------
  //  In a string
  // ---------------------------------------------------------------------------------------------

  predicate StartsUnicodeEscape(x: Text) {
    2 <= |x| && x[0] == BACKSLASH && x[1] == LOWER_U
  }

  /** "\uXXXX" */
  predicate IsUnicodeEscape(x: Text) {
    StartsUnicodeEscape(x) && 6 <= |x| && G.IsFourHex(x[2..6])
  }

  /** The UTF-16 code unit of an escape */
  function CodeUnit(x: Text): nat
    requires IsUnicodeEscape(x)
  {
    G.HexValue(x[2..6])
  }

  predicate IsHighEscape(x: Text) {
    IsUnicodeEscape(x) && IsHigh(CodeUnit(x))
  }

  /** There are n hexadecimal digits, and not four; then comes `after`. */
  predicate HasTooFewDigits(x: Text, n: nat, after: Text) {
    && n < 4 && n <= |x| && after == x[n..]
    && (forall i :: 0 <= i < n ==> IsHex(x[i])) && !(after != [] && IsHex(after[0]))
  }

  /** The digits of an escape, or of the one that must follow it, are broken off. */
  ghost predicate BreaksDigitsAt(x: Text, after: Text) {
    || (StartsUnicodeEscape(x) && exists n: nat :: HasTooFewDigits(x[2..], n, after))
    || (IsHighEscape(x) && StartsUnicodeEscape(x[6..]) && exists n: nat :: HasTooFewDigits(x[8..], n, after))
  }

  /** The first k bytes are those of some character, and the next byte does not go on with one. */
  ghost predicate BreaksOctetsAt(x: Text, k: nat) {
    && 1 <= k <= |x|
    && (exists o :: Utf8.IsOctets(o) && k < |o| && o[..k] == x[..k])
    && !(k < |x| && Utf8.IsTail(x[k]))
  }

  /** What is wrong with the next character of a string. */
  ghost predicate CharFlaw(x: Text, e: ErrorType) {
    match e
    case UnterminatedString => AtEnd(x)
    case UnescapedControlChar => !AtEnd(x) && x[0] < 0x20
    case InvalidEscapeSequence =>
      StartsWith(x, BACKSLASH) && !AtEnd(x[1..]) && x[1] !in G.ESCAPES && x[1] != LOWER_U
    case UnexpectedEof =>
      || (StartsWith(x, BACKSLASH) && AtEnd(x[1..]))
      || (exists after :: BreaksDigitsAt(x, after) && AtEnd(after))
    case InvalidUnicodeEscape => exists after :: BreaksDigitsAt(x, after) && !AtEnd(after)
    case NoPrecedingHighSurrogate => IsUnicodeEscape(x) && IsLow(CodeUnit(x))
    case NoFollowingLowSurrogate =>
      && IsHighEscape(x)
      && (!StartsUnicodeEscape(x[6..]) || (IsUnicodeEscape(x[6..]) && !IsLow(CodeUnit(x[6..]))))
    case InvalidUtf8StartByte => x != [] && (0x80 <= x[0] <= 0xBF || 0xF5 <= x[0])
    case OverlongSequence =>
      || (x != [] && 0xC0 <= x[0] <= 0xC1)
      || (2 <= |x| && x[0] == 0xE0 && 0x80 <= x[1] <= 0x9F)
      || (2 <= |x| && x[0] == 0xF0 && 0x80 <= x[1] <= 0x8F)
    case ReservedForHighSurrogate => 2 <= |x| && x[0] == 0xED && 0xA0 <= x[1] <= 0xAF
    case ReservedForLowSurrogate => 2 <= |x| && x[0] == 0xED && 0xB0 <= x[1] <= 0xBF
    case CodepointOutOfRange => 2 <= |x| && x[0] == 0xF4 && 0x90 <= x[1]
    case InvalidUtf8ContinuationByte =>
      (exists k: nat :: BreaksOctetsAt(x, k)) && !(2 <= |x| && x[0] == 0xF4 && 0x90 <= x[1])
    case _ => false
  }

  /** A string with this flaw: some chars, and a flaw in the next one; or more bytes than there is room for. */
  predicate SpellsString(s: Text, cs: seq<G.StrChar>, rest: Text) {
    G.ValidChars(cs) && s == [QUOTE] + G.SpellChars(cs, rest)
  }

  ghost predicate StringFlaw(s: Text, room: nat, e: ErrorType) {
    exists cs, rest :: SpellsString(s, cs, rest) &&
      if |G.StringBytes(cs)| <= room then CharFlaw(rest, e) else e == MemoryOverrun
  }

  // ---------------------------------------------------------------------------------------------
  //  In a number, in a name, and where there is no value
  // ---------------------------------------------------------------------------------------------

  /** An integer part */
  predicate IsInteger(n: G.Number) {
    G.ValidNumber(n) && n.fraction.NoFraction? && n.exponent.NoExponent?
  }

  /** The number breaks off after its point. */
  predicate BreaksFraction(x: Text, n: G.Number, rest: Text) {
    IsInteger(n) && x == G.SpellInteger(n, [POINT] + rest) && !StartsWithDigit(rest)
  }

  /** The number breaks off after the mark and the sign of its exponent. */
  predicate BreaksExponent(x: Text, n: G.Number, mark: Byte, sign: Text, rest: Text) {
    && G.ValidNumber(n) && n.exponent.NoExponent? && IsExponentMark(mark)
    && x == G.SpellNumber(n, [mark] + (sign + rest)) && !StartsWithDigit(rest)
    && (if sign == [] then !StartsWith(rest, PLUS) && !StartsWith(rest, MINUS) else sign in {[PLUS], [MINUS]})
  }

  function WithoutSign(x: Text): Text {
    if StartsWith(x, MINUS) then x[1..] else x
  }

  ghost predicate NumberFlaw(x: Text, size: nat, e: ErrorType) {
    match e
    case InvalidNumberFormat =>
      || StartsWith(x, POINT)
      || (StartsWith(x, MINUS) && !StartsWithDigit(x[1..]))
      || (StartsWith(WithoutSign(x), ZERO) && StartsWithDigit(WithoutSign(x)[1..]))
      || (exists n, rest :: BreaksFraction(x, n, rest))
      || (exists n, mark, sign, rest :: BreaksExponent(x, n, mark, sign, rest))
    case MemoryOverrun =>
      exists n, rest :: G.ValidNumber(n) && G.EndsAfter(n, rest) && x == G.SpellNumber(n, rest)
                        && size <= |G.SpellNumber(n, [])|
    case _ => false
  }

  const NAMES: set<Text> := {KEYWORD_NULL, KEYWORD_TRUE, KEYWORD_FALSE}

  /** The first n letters of a name, at least one of them, and not the next one */
  predicate BreaksName(x: Text, name: Text, n: nat) {
    name in NAMES && 1 <= n < |name| && n <= |x| && x[..n] == name[..n] && !(n < |x| && x[n] == name[n])
  }

  ghost predicate NameFlaw(x: Text, e: ErrorType) {
    match e
    case UnexpectedEof => exists name, n: nat :: BreaksName(x, name, n) && AtEnd(x[n..])
    case UnexpectedText => exists name, n: nat :: BreaksName(x, name, n) && !AtEnd(x[n..])
    case _ => false
  }

  /** The bytes that a value can start with; the parser reads a point as the start of a number. */
  predicate StartsValue(b: Byte) {
    || b == LEFT_BRACE || b == LEFT_BRACKET || b == QUOTE || b == MINUS || b == POINT || IsDigit(b)
    || exists name <- NAMES :: StartsWith(name, b)
  }

  /** What is wrong with a text that should start with a value, at this nesting depth. */
  ghost predicate ValueFlaw(x: Text, depth: nat, max: Limits, e: ErrorType) {
    || (e == UnexpectedText && (x == [] || (!StartsValue(x[0]) && !IsWhitespace(x[0]))))
    || NameFlaw(x, e)
    || NumberFlaw(x, max.buffer, e)
    || StringFlaw(x, max.room, e)
    || (e == MaxNestedDepthExceeded && depth == max.depth && (StartsWith(x, LEFT_BRACKET) || StartsWith(x, LEFT_BRACE)))
  }

  // ---------------------------------------------------------------------------------------------
  //  In arrays and objects
  // ---------------------------------------------------------------------------------------------

  /** A key and the whitespace around it */
  datatype Key = Key(lead: Text, chars: seq<G.StrChar>, trail: Text)

  /** A flawed text: what it follows the grammar with, and what it goes on with from there. */
  datatype Flaw =
    /** No value */
    | NoValue(rest: Text)
    /** An array that goes on with neither a comma and an element nor its end */
    | AfterItems(items: seq<G.Item>, rest: Text)
    /** An array with a flawed element */
    | InItem(items: seq<G.Item>, lead: Text, element: Flaw)
    /** An object that goes on with neither a comma and a member nor its end */
    | AfterMembers(members: seq<G.Member>, rest: Text)
    /** An object with something else in place of a key */
    | NoKey(members: seq<G.Member>, lead: Text, rest: Text)
    /** An object with a key that neither a colon nor a value follows */
    | AfterKey(members: seq<G.Member>, key: Key, rest: Text)
    /** An object with a flawed value */
    | InMember(members: seq<G.Member>, key: Key, after: Text, value: Flaw)

  /** The elements of an array, with the commas between them */
  function SpellItems(items: seq<G.Item>, rest: Text): Text {
    if items == [] then rest
    else items[0].lead + G.Spell(items[0].value, items[0].trail + G.SpellMore(items[1..], rest))
  }

  /** An array up to where its next element starts */
  function OpenArray(items: seq<G.Item>, rest: Text): Text {
    [LEFT_BRACKET] + SpellItems(items, if items == [] then rest else [COMMA] + rest)
  }

  function SpellMembers(ms: seq<G.Member>, rest: Text): Text {
    if ms == [] then rest
    else G.SpellKey(ms[0], G.Spell(ms[0].value, ms[0].trail + G.SpellOthers(ms[1..], rest)))
  }

  function OpenObject(ms: seq<G.Member>, rest: Text): Text {
    [LEFT_BRACE] + SpellMembers(ms, if ms == [] then rest else [COMMA] + rest)
  }

  function SpellName(key: Key, rest: Text): Text {
    key.lead + G.SpellString(key.chars, key.trail + rest)
  }

  function Spell(f: Flaw): Text {
    match f
    case NoValue(rest) => rest
    case AfterItems(items, rest) => [LEFT_BRACKET] + SpellItems(items, rest)
    case InItem(items, lead, element) => OpenArray(items, lead + Spell(element))
    case AfterMembers(ms, rest) => [LEFT_BRACE] + SpellMembers(ms, rest)
    case NoKey(ms, lead, rest) => OpenObject(ms, lead + rest)
    case AfterKey(ms, key, rest) => OpenObject(ms, SpellName(key, rest))
    case InMember(ms, key, after, value) => OpenObject(ms, SpellName(key, [COLON] + (after + Spell(value))))
  }

  /** The parser has read these elements at this depth. */
  predicate AreItems(items: seq<G.Item>, depth: nat, max: Limits) {
    && depth <= max.depth
    && G.ValidItems(items) && G.ItemsFit(items, max) && depth + G.ItemsDepth(items) <= max.depth
  }

  predicate AreMembers(ms: seq<G.Member>, depth: nat, max: Limits) {
    && depth <= max.depth
    && G.ValidMembers(ms) && G.MembersFit(ms, max) && depth + G.MembersDepth(ms) <= max.depth
  }

  predicate IsKey(key: Key, max: Limits) {
    G.IsWs(key.lead) && G.ValidChars(key.chars) && G.IsWs(key.trail) && |G.StringBytes(key.chars)| <= max.room
  }

  /** A comma, and whitespace before the closing bracket */
  ghost predicate EndsInComma(s: Text, close: Byte) {
    exists gap, rest :: G.IsWs(gap) && s == [COMMA] + (gap + ([close] + rest))
  }

  /** What is wrong after the elements of an array or the members of an object, of which there may be none. */
  ghost predicate ListFlaw(empty: bool, rest: Text, close: Byte, unterminated: ErrorType, e: ErrorType) {
    if e == unterminated then exists gap, end :: G.IsWs(gap) && AtEnd(end) && rest == gap + end
    else if e == MissingComma then
      !empty && !AtEnd(rest) && !IsWhitespace(rest[0]) && rest[0] != COMMA && rest[0] != close
    else e == TrailingCommaNotAllowed && !empty && EndsInComma(rest, close)
  }

  /** What is wrong where a key should start. */
  ghost predicate KeyFlaw(rest: Text, max: Limits, e: ErrorType) {
    || (e == MissingObjectKey && (rest == [] || (rest[0] != QUOTE && !IsWhitespace(rest[0]))))
    || StringFlaw(rest, max.room, e)
  }

  /** What is wrong after a key. */
  ghost predicate ColonFlaw(rest: Text, e: ErrorType) {
    match e
    case MissingColon => rest == [] || (rest[0] != COLON && !IsWhitespace(rest[0]))
    case MissingObjectValue => exists gap, end :: G.IsWs(gap) && AtEnd(end) && rest == [COLON] + (gap + end)
    case _ => false
  }

  /** Arrays report unexpected text as a missing element. */
  ghost predicate InArray(f: Flaw, depth: nat, max: Limits, e: ErrorType)
    decreases f, 1
  {
    if e == UnexpectedText then false
    else IsFlaw(f, depth, max, e) || (e == MissingArrayElement && IsFlaw(f, depth, max, UnexpectedText))
  }

  /** The tree stands for a text with this error. */
  ghost predicate IsFlaw(f: Flaw, depth: nat, max: Limits, e: ErrorType)
    decreases f, 0
  {
    match f
    case NoValue(rest) => ValueFlaw(rest, depth, max, e)
    case AfterItems(items, rest) =>
      && AreItems(items, depth + 1, max) && G.EndsItems(items, rest)
      && ListFlaw(items == [], rest, RIGHT_BRACKET, UnterminatedArray, e)
    case InItem(items, lead, element) =>
      && AreItems(items, depth + 1, max) && G.IsWs(lead)
      && (items == [] ==> !AtEnd(Spell(element))) && !StartsWith(Spell(element), RIGHT_BRACKET)
      && InArray(element, depth + 1, max, e)
    case AfterMembers(ms, rest) =>
      && AreMembers(ms, depth + 1, max) && G.EndsMembers(ms, rest)
      && ListFlaw(ms == [], rest, RIGHT_BRACE, UnterminatedObject, e)
    case NoKey(ms, lead, rest) =>
      && AreMembers(ms, depth + 1, max) && G.IsWs(lead)
      && (ms == [] ==> !AtEnd(rest)) && !StartsWith(rest, RIGHT_BRACE)
      && KeyFlaw(rest, max, e)
    case AfterKey(ms, key, rest) =>
      AreMembers(ms, depth + 1, max) && IsKey(key, max) && ColonFlaw(rest, e)
    case InMember(ms, key, after, value) =>
      && AreMembers(ms, depth + 1, max) && IsKey(key, max) && G.IsWs(after) && !AtEnd(Spell(value))
      && IsFlaw(value, depth + 1, max, e)
  }

  // ---------------------------------------------------------------------------------------------
  //  Whole texts
  // ---------------------------------------------------------------------------------------------

  /** The signed comparison with EOF holds of the byte 0xFF, too. */
  predicate AtEof(s: Text) {
    AtEnd(s) || s[0] == 0xFF
  }

  /** A text without byte order mark, or what follows the mark. */
  ghost predicate BodyFlaw(body: Text, max: Limits, e: ErrorType) {
    || (e == EmptyText && exists ws, end :: G.IsWs(ws) && AtEof(end) && body == ws + end)
    || (exists ws, f :: G.IsWs(ws) && IsFlaw(f, 0, max, e) && !AtEof(Spell(f)) && body == ws + Spell(f))
    || (e == UnexpectedText && exists lead, v, trail, rest ::
          && G.Derives(body, lead, v, trail, rest) && G.Within(v, max) && G.Ends(v, trail + rest)
          && !AtEof(rest) && !IsWhitespace(rest[0]))
  }

  ghost predicate TextFlaw(text: Text, max: Limits, e: ErrorType) {
    if [0xFE, 0xFF] <= text || [0xFF, 0xFE] <= text then e == UnexpectedUtf16Encoding
    else BodyFlaw(if [0xEF, 0xBB, 0xBF] <= text then text[3..] else text, max, e)
  }
}
