/** The grammar of RFC 8259, sections 2 to 7, as derivation trees: what a tree spells and which value it
    denotes. Nothing here follows the parser. Every `Spell` function puts its text before `rest`. */
module JsonGrammar {
  import opened Bytes
  import opened JsonBytes
  import J = JsonValues
  import Utf8

  /** char, section 7 */
  datatype StrChar =
    | Unescaped(octets: Text)
    | Escaped(letter: Byte)
    | Unicode(hex: Text)
    | SurrogatePair(high: Text, low: Text)

  datatype Fraction = NoFraction | Fraction(digits: Text)

  datatype Exponent = NoExponent | Exponent(mark: Byte, sign: Text, digits: Text)

  /** number, section 6 */
  datatype Number = Number(minus: bool, whole: Text, fraction: Fraction, exponent: Exponent)

  /** value, section 3 */
  datatype Value =
    | NullName
    | TrueName
    | FalseName
    | Num(number: Number)
    | Str(chars: seq<StrChar>)
    | EmptyArr(gap: Text)
    | Arr(first: Item, more: seq<Item>)
    | EmptyObj(gap: Text)
    | Obj(member: Member, others: seq<Member>)

  /** An array element between the whitespace around it, section 5 */
  datatype Item = Item(lead: Text, value: Value, trail: Text)

  /** member, section 4, with the whitespace around its structural characters */
  datatype Member = Member(lead: Text, key: seq<StrChar>, before: Text, after: Text, value: Value, trail: Text)

  // ---------------------------------------------------------------------------------------------
  //  Strings
  // ---------------------------------------------------------------------------------------------

  /** ws, section 2 */
  predicate IsWs(s: Text) {
    forall i :: 0 <= i < |s| ==> IsWhitespace(s[i])
  }

  predicate IsFourHex(h: Text) {
    |h| == 4 && IsHex(h[0]) && IsHex(h[1]) && IsHex(h[2]) && IsHex(h[3])
  }

  function HexValue(h: Text): (n: nat)
    requires IsFourHex(h)
    ensures n < 0x10000
  {
    HexDigit(h[0]) * 0x1000 + HexDigit(h[1]) * 0x100 + HexDigit(h[2]) * 0x10 + HexDigit(h[3])
  }

  /** The characters that may follow a backslash, and what they stand for. */
  const ESCAPES: map<Byte, Byte> :=
    map[0x22 := 0x22, 0x5C := 0x5C, 0x2F := 0x2F, 0x62 := 0x08, 0x66 := 0x0C, 0x6E := 0x0A, 0x72 := 0x0D, 0x74 := 0x09]

  predicate ValidChar(c: StrChar) {
    match c
    case Unescaped(o) => Utf8.IsOctets(o) && 0x20 <= o[0] && o[0] != QUOTE && o[0] != BACKSLASH
    case Escaped(b) => b in ESCAPES
    case Unicode(h) => IsFourHex(h) && !Utf8.IsSurrogate(HexValue(h))
    case SurrogatePair(h, l) => IsFourHex(h) && IsFourHex(l) && IsHigh(HexValue(h)) && IsLow(HexValue(l))
  }

  predicate ValidChars(cs: seq<StrChar>) {
    forall i :: 0 <= i < |cs| ==> ValidChar(cs[i])
  }

  function SpellChar(c: StrChar, rest: Text): Text {
    match c
    case Unescaped(o) => o + rest
    case Escaped(b) => [BACKSLASH, b] + rest
    case Unicode(h) => [BACKSLASH, LOWER_U] + (h + rest)
    case SurrogatePair(h, l) => [BACKSLASH, LOWER_U] + (h + ([BACKSLASH, LOWER_U] + (l + rest)))
  }

  function SpellChars(cs: seq<StrChar>, rest: Text): Text {
    if cs == [] then rest else SpellChar(cs[0], SpellChars(cs[1..], rest))
  }

  /** The Unicode scalar value that a char denotes. */
  function CharScalar(c: StrChar): (cp: int)
    requires ValidChar(c)
    ensures Utf8.IsScalar(cp)
  {
    match c
    case Unescaped(o) => Utf8.EncodeUndoesDecode(o); Utf8.Decode(o)
    case Escaped(b) => ESCAPES[b]
    case Unicode(h) => HexValue(h)
    case SurrogatePair(h, l) => Combine(HexValue(h), HexValue(l))
  }

  function CharScalars(cs: seq<StrChar>): seq<Utf8.Scalar>
    requires ValidChars(cs)
  {
    if cs == [] then [] else [CharScalar(cs[0])] + CharScalars(cs[1..])
  }

  /** The scalar values that a StringBuilder, which ignores NUL, is given. */
  function NonZero(cps: seq<Utf8.Scalar>): (r: seq<Utf8.Scalar>)
    ensures 0 !in r
    ensures 0 !in cps ==> r == cps
    ensures 0 in cps ==> |r| < |cps|
  {
    if cps == [] then [] else (if cps[0] == 0 then [] else [cps[0]]) + NonZero(cps[1..])
  }

  /** The bytes of a string: the encoding of its scalar values other than U+0000. */
  function StringBytes(cs: seq<StrChar>): Text
    requires ValidChars(cs)
  {
    Utf8.EncodeAll(NonZero(CharScalars(cs)))
  }

  // ---------------------------------------------------------------------------------------------
  //  Numbers
  // ---------------------------------------------------------------------------------------------

  predicate AreDigits(s: Text) {
    s != [] && forall i :: 0 <= i < |s| ==> IsDigit(s[i])
  }

  predicate ValidNumber(n: Number) {
    && AreDigits(n.whole) && (n.whole[0] == ZERO ==> |n.whole| == 1)
    && (n.fraction.Fraction? ==> AreDigits(n.fraction.digits))
    && (n.exponent.Exponent? ==>
          && IsExponentMark(n.exponent.mark)
          && n.exponent.sign in {[], [PLUS], [MINUS]}
          && AreDigits(n.exponent.digits))
  }

  function SpellFraction(f: Fraction, rest: Text): Text {
    match f
    case NoFraction => rest
    case Fraction(digits) => [POINT] + (digits + rest)
  }

  function SpellExponent(e: Exponent, rest: Text): Text {
    match e
    case NoExponent => rest
    case Exponent(mark, sign, digits) => [mark] + (sign + (digits + rest))
  }

  function SpellInteger(n: Number, rest: Text): Text {
    if n.minus then [MINUS] + (n.whole + rest) else n.whole + rest
  }

  function SpellNumber(n: Number, rest: Text): Text {
    SpellInteger(n, SpellFraction(n.fraction, SpellExponent(n.exponent, rest)))
  }

  function IntegerOf(n: Number): int
    requires ValidNumber(n)
  {
    if n.minus then 0 - DecimalValue(n.whole) else DecimalValue(n.whole)
  }

  function NumberMeaning(n: Number): J.JsonValue
    requires ValidNumber(n)
  {
    if n.fraction.NoFraction? && n.exponent.NoExponent? then J.IntegerMeaning(IntegerOf(n), SpellNumber(n, []))
    else J.Double(SpellNumber(n, []))
  }

  // ---------------------------------------------------------------------------------------------
  //  Values
  // ---------------------------------------------------------------------------------------------

  /** What surrounds the value of an element. */
  predicate ValidItem(i: Item) {
    IsWs(i.lead) && IsWs(i.trail)
  }

  /** What surrounds the value of a member. */
  predicate ValidMember(m: Member) {
    IsWs(m.lead) && ValidChars(m.key) && IsWs(m.before) && IsWs(m.after) && IsWs(m.trail)
  }

  predicate Valid(v: Value) {
    match v
    case Num(n) => ValidNumber(n)
    case Str(cs) => ValidChars(cs)
    case EmptyArr(gap) => IsWs(gap)
    case Arr(first, more) => ValidItem(first) && Valid(first.value) && ValidItems(more)
    case EmptyObj(gap) => IsWs(gap)
    case Obj(m, others) => ValidMember(m) && Valid(m.value) && ValidMembers(others)
    case _ => true
  }

  predicate ValidItems(items: seq<Item>) {
    items == [] || (ValidItem(items[0]) && Valid(items[0].value) && ValidItems(items[1..]))
  }

  predicate ValidMembers(ms: seq<Member>) {
    ms == [] || (ValidMember(ms[0]) && Valid(ms[0].value) && ValidMembers(ms[1..]))
  }

  function SpellString(cs: seq<StrChar>, rest: Text): Text {
    [QUOTE] + SpellChars(cs, [QUOTE] + rest)
  }

  /** A member up to its value. */
  function SpellKey(m: Member, rest: Text): Text {
    m.lead + SpellString(m.key, m.before + ([COLON] + (m.after + rest)))
  }

  function Spell(v: Value, rest: Text): Text {
    match v
    case NullName => KEYWORD_NULL + rest
    case TrueName => KEYWORD_TRUE + rest
    case FalseName => KEYWORD_FALSE + rest
    case Num(n) => SpellNumber(n, rest)
    case Str(cs) => SpellString(cs, rest)
    case EmptyArr(gap) => [LEFT_BRACKET] + (gap + ([RIGHT_BRACKET] + rest))
    case Arr(first, more) =>
      [LEFT_BRACKET] + (first.lead + Spell(first.value, first.trail + SpellMore(more, [RIGHT_BRACKET] + rest)))
    case EmptyObj(gap) => [LEFT_BRACE] + (gap + ([RIGHT_BRACE] + rest))
    case Obj(m, others) =>
      [LEFT_BRACE] + SpellKey(m, Spell(m.value, m.trail + SpellOthers(others, [RIGHT_BRACE] + rest)))
  }

  function SpellMore(items: seq<Item>, rest: Text): Text {
    if items == [] then rest
    else [COMMA] + (items[0].lead + Spell(items[0].value, items[0].trail + SpellMore(items[1..], rest)))
  }

  function SpellOthers(ms: seq<Member>, rest: Text): Text {
    if ms == [] then rest
    else [COMMA] + SpellKey(ms[0], Spell(ms[0].value, ms[0].trail + SpellOthers(ms[1..], rest)))
  }

  /** The value that a tree denotes; elements and members keep their order. */
  function Meaning(v: Value): J.JsonValue
    requires Valid(v)
  {
    match v
    case NullName => J.Null
    case TrueName => J.Boolean(true)
    case FalseName => J.Boolean(false)
    case Num(n) => NumberMeaning(n)
    case Str(cs) => J.String(StringBytes(cs))
    case EmptyArr(_) => J.Array([])
    case Arr(first, more) => J.Array([Meaning(first.value)] + ItemMeanings(more))
    case EmptyObj(_) => J.Object([])
    case Obj(m, others) => J.Object([J.Entry(StringBytes(m.key), Meaning(m.value))] + MemberMeanings(others))
  }

  function ItemMeanings(items: seq<Item>): seq<J.JsonValue>
    requires ValidItems(items)
  {
    if items == [] then [] else [Meaning(items[0].value)] + ItemMeanings(items[1..])
  }

  function MemberMeanings(ms: seq<Member>): seq<J.Entry>
    requires ValidMembers(ms)
  {
    if ms == [] then [] else [J.Entry(StringBytes(ms[0].key), Meaning(ms[0].value))] + MemberMeanings(ms[1..])
  }

  /** How deeply arrays and objects are nested. */
  function Depth(v: Value): nat {
    match v
    case EmptyArr(_) => 1
    case Arr(first, more) => 1 + Max(Depth(first.value), ItemsDepth(more))
    case EmptyObj(_) => 1
    case Obj(m, others) => 1 + Max(Depth(m.value), MembersDepth(others))
    case _ => 0
  }

  function ItemsDepth(items: seq<Item>): nat {
    if items == [] then 0 else Max(Depth(items[0].value), ItemsDepth(items[1..]))
  }

  function MembersDepth(ms: seq<Member>): nat {
    if ms == [] then 0 else Max(Depth(ms[0].value), MembersDepth(ms[1..]))
  }

  /** No number fills the buffer that it is converted in, and no string and no key has more bytes than there is
      room for. */
  predicate Fits(v: Value, max: J.Limits)
    requires Valid(v)
  {
    match v
    case Num(n) => |SpellNumber(n, [])| < max.buffer
    case Str(cs) => |StringBytes(cs)| <= max.room
    case Arr(first, more) => Fits(first.value, max) && ItemsFit(more, max)
    case Obj(m, others) => |StringBytes(m.key)| <= max.room && Fits(m.value, max) && MembersFit(others, max)
    case _ => true
  }

  predicate ItemsFit(items: seq<Item>, max: J.Limits)
    requires ValidItems(items)
  {
    items == [] || (Fits(items[0].value, max) && ItemsFit(items[1..], max))
  }

  predicate MembersFit(ms: seq<Member>, max: J.Limits)
    requires ValidMembers(ms)
  {
    ms == [] ||
    (|StringBytes(ms[0].key)| <= max.room && Fits(ms[0].value, max) && MembersFit(ms[1..], max))
  }

  /** The parser has room for the value. */
  predicate Within(v: Value, max: J.Limits)
    requires Valid(v)
  {
    Depth(v) <= max.depth && Fits(v, max)
  }

  /** JSON-text = ws value ws, followed by `rest`. */
  predicate Derives(text: Text, lead: Text, v: Value, trail: Text, rest: Text) {
    IsWs(lead) && Valid(v) && IsWs(trail) && text == lead + Spell(v, trail + rest)
  }

  // ---------------------------------------------------------------------------------------------
  //  Where a value ends
  // ---------------------------------------------------------------------------------------------

  /** The text after a number does not continue it. A fraction or an exponent that it has cannot start once more. */
  predicate EndsAfter(n: Number, rest: Text) {
    rest != [] ==>
      && !IsDigit(rest[0])
      && (n.exponent.NoExponent? ==> !IsExponentMark(rest[0]) && (n.fraction.NoFraction? ==> rest[0] != POINT))
  }

  /** The text after a value does not continue it: this matters for numbers only. */
  predicate Ends(v: Value, rest: Text) {
    v.Num? ==> EndsAfter(v.number, rest)
  }

  /** The same for the last one of several elements */
  predicate EndsItems(items: seq<Item>, tail: Text) {
    items != [] ==> var i := items[|items| - 1]; Ends(i.value, i.trail + tail)
  }

  predicate EndsMembers(ms: seq<Member>, tail: Text) {
    ms != [] ==> var m := ms[|ms| - 1]; Ends(m.value, m.trail + tail)
  }

  // ---------------------------------------------------------------------------------------------
  //  The two readings of the definitions above
  // ---------------------------------------------------------------------------------------------

  /** A string keeps all its scalar values, encoded, exactly when it has no \u0000. */
  lemma StringKeepsAllUnlessNul(cs: seq<StrChar>)
    requires ValidChars(cs)
    ensures StringBytes(cs) == Utf8.EncodeAll(CharScalars(cs)) <==> 0 !in CharScalars(cs)
  {
    var cps := CharScalars(cs);
    if StringBytes(cs) == Utf8.EncodeAll(cps) {
      Utf8.DecodeAllUndoesEncodeAll(NonZero(cps));
      Utf8.DecodeAllUndoesEncodeAll(cps);
    }
  }

  /** The bytes of a string are well-formed UTF-8 without NUL. */
  lemma {:induction false} EncodedNonZero(cps: seq<Utf8.Scalar>)
    requires 0 !in cps
    ensures NulFree(Utf8.EncodeAll(cps)) && Utf8.WellFormed(Utf8.EncodeAll(cps))
  {
    Utf8.DecodeAllUndoesEncodeAll(cps);
    if cps != [] {
      EncodedNonZero(cps[1..]);
    }
  }
}
