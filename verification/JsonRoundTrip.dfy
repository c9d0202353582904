/** Parsing undoes printing, in both layouts: printed values are derivations of the grammar. */
module JsonRoundTrip {
  import opened Bytes
  import opened JsonBytes
  import opened JsonValues
  import opened JsonParserSpec
  import opened JsonPrinterSpec
  import opened JsonStrings
  import G = JsonGrammar
  import Utf8

  // ---------------------------------------------------------------------------------------------
  //  Strings
  // ---------------------------------------------------------------------------------------------

  /** The strings that survive printing and parsing */
  predicate PrintableText(t: Text) {
    NulFree(t) && Utf8.WellFormed(t)
  }

  /** How jsonp_fprint_string writes the octets of a character. */
  function CharOf(o: Text): G.StrChar
    requires Utf8.IsOctets(o)
  {
    var b := o[0];
    if b == 0x08 then G.Escaped(LOWER_B)
    else if b == 0x09 then G.Escaped(LOWER_T)
    else if b == 0x0A then G.Escaped(LOWER_N)
    else if b == 0x0C then G.Escaped(LOWER_F)
    else if b == 0x0D then G.Escaped(LOWER_R)
    else if b <= 0x1F then G.Unicode([ZERO, ZERO, UpperHex(b / 16), UpperHex(b % 16)])
    else if b == QUOTE || b == BACKSLASH then G.Escaped(b)
    else G.Unescaped(o)
  }

  function Chars(t: Text): seq<G.StrChar>
    requires Utf8.WellFormed(t)
    decreases |t|
  {
    if t == [] then []
    else [CharOf(t[..Utf8.HeadLen(t)])] + Chars(t[Utf8.HeadLen(t)..])
  }

  lemma CharOfDenotesOctets(o: Text)
    requires Utf8.IsOctets(o)
    ensures G.ValidChar(CharOf(o)) && G.CharScalar(CharOf(o)) == Utf8.Decode(o)
  {
  }

  lemma {:induction false} EscapeBytesConcat(a: Text, b: Text)
    ensures EscapeBytes(a + b) == EscapeBytes(a) + EscapeBytes(b)
  {
    if a == [] {
      assert a + b == b;
    } else {
      assert (a + b)[0] == a[0] && (a + b)[1..] == a[1..] + b;
      EscapeBytesConcat(a[1..], b);
    }
  }

  /** The bytes that are printed raw and read back as themselves */
  predicate IsPlain(t: Text) {
    forall i :: 0 <= i < |t| ==> 0x20 <= t[i] && t[i] != QUOTE && t[i] != BACKSLASH
  }

  /** Bytes that need no escape are printed as they are. */
  lemma {:induction false} PlainBytes(o: Text)
    requires IsPlain(o)
    ensures EscapeBytes(o) == o
  {
    if o != [] {
      PlainBytes(o[1..]);
    }
  }

  lemma CharOfSpellsEscapes(o: Text, rest: Text)
    requires Utf8.IsOctets(o)
    ensures G.SpellChar(CharOf(o), rest) == EscapeBytes(o) + rest
  {
    if |o| == 1 {
      ByteIsSpelled(o[0], rest);
      OneByteEscapes(o);
    } else {
      PlainBytes(o);
    }
  }

  lemma OneByteEscapes(o: Text)
    requires |o| == 1
    ensures EscapeBytes(o) == EscapeByte(o[0]) && o == [o[0]]
  {
    hide EscapeByte;
    assert EscapeBytes(o[1..]) == [];
    assert EscapeByte(o[0]) + [] == EscapeByte(o[0]);
  }

  lemma ByteIsSpelled(b: Byte, rest: Text)
    requires b <= 0x7F
    ensures G.SpellChar(CharOf([b]), rest) == EscapeByte(b) + rest
  {
    match CharOf([b])
    case Unicode(h) =>
      hide UpperHex;
      assert EscapeByte(b) == [BACKSLASH, LOWER_U] + h;
      assert [BACKSLASH, LOWER_U] + (h + rest) == [BACKSLASH, LOWER_U] + h + rest;
    case _ =>
  }

  lemma {:induction false} CharsSpellEscapes(t: Text, rest: Text)
    requires Utf8.WellFormed(t)
    ensures G.SpellChars(Chars(t), rest) == EscapeBytes(t) + rest
    decreases |t|
  {
    hide EscapeByte, CharOf, G.SpellChar;
    if t != [] {
      var n := Utf8.HeadLen(t);
      var o, more := t[..n], t[n..];
      CharsSpellEscapes(more, rest);
      CharOfSpellsEscapes(o, EscapeBytes(more) + rest);
      assert EscapeBytes(t) == EscapeBytes(o) + EscapeBytes(more) by {
        EscapeBytesConcat(o, more);
        assert t == o + more;
      }
      var cs := Chars(t);
      assert cs[0] == CharOf(o) && cs[1..] == Chars(more);
    } else {
      assert EscapeBytes(t) + rest == rest;
    }
  }

  lemma {:induction false} CharsDenoteScalars(t: Text)
    requires Utf8.WellFormed(t)
    ensures G.ValidChars(Chars(t)) && G.CharScalars(Chars(t)) == Utf8.DecodeAll(t)
    decreases |t|
  {
    if t != [] {
      var n := Utf8.HeadLen(t);
      CharsDenoteScalars(t[n..]);
      CharOfDenotesOctets(t[..n]);
      assert Chars(t)[1..] == Chars(t[n..]);
    }
  }

  lemma CharsDenote(t: Text)
    requires PrintableText(t)
    ensures G.ValidChars(Chars(t)) && G.StringBytes(Chars(t)) == t
  {
    CharsDenoteScalars(t);
    Utf8.NulFreeHasNoZero(t);
    Utf8.EncodeAllUndoesDecodeAll(t);
  }

  lemma PrintedStringIsSpelled(t: Text, rest: Text)
    requires Utf8.WellFormed(t)
    ensures PrintString(t) + rest == G.SpellString(Chars(t), rest)
  {
    CharsSpellEscapes(t, [QUOTE] + rest);
    assert PrintString(t) + rest == [QUOTE] + (EscapeBytes(t) + ([QUOTE] + rest));
  }

  /** Parsing a printed string gives the string back, exactly when it is well-formed UTF-8 without NUL and there is
      room for it. */
  lemma StringRoundTrip(t: Text, rest: Text, room: nat)
    ensures ParseString(PrintString(t) + rest, room) == Ok(t, rest) <==> PrintableText(t) && |t| <= room
  {
    if PrintableText(t) {
      CharsDenote(t);
      PrintedStringIsSpelled(t, rest);
      ParseStringOf(Chars(t), rest, room);
    }
    if ParseString(PrintString(t) + rest, room) == Ok(t, rest) {
      ParsedStringsAreWellFormed(PrintString(t) + rest, room);
    }
  }

  // ---------------------------------------------------------------------------------------------
  //  Integers
  // ---------------------------------------------------------------------------------------------

  lemma {:induction false} DigitsDenote(n: nat)
    ensures DecimalValue(Digits(n)) == n
    ensures Digits(n)[0] == ZERO ==> |Digits(n)| == 1
    ensures 0 < n ==> Digits(n)[0] != ZERO
  {
    if n < 10 {
      assert DecimalValue([]) == 0;
      assert Digits(n)[..0] == [];
    } else {
      DigitsDenote(n / 10);
      var r := Digits(n);
      assert r[..|r| - 1] == Digits(n / 10);
    }
  }

  /** No long is printed with more bytes. */
  const LONG_DIGITS: nat := 21

  function NumberOf(n: int): G.Number {
    G.Number(n < 0, Digits(if n < 0 then 0 - n else n), G.NoFraction, G.NoExponent)
  }

  lemma PrintedLongIsSpelled(n: Int64, rest: Text)
    ensures |G.SpellNumber(NumberOf(n), [])| <= LONG_DIGITS
    ensures G.ValidNumber(NumberOf(n)) && G.NumberMeaning(NumberOf(n)) == Long(n)
    ensures Decimal(n) + rest == G.SpellNumber(NumberOf(n), rest)
  {
    DigitsDenote(if n < 0 then 0 - n else n);
    DigitsAreShort(if n < 0 then 0 - n else n);
  }

  // ---------------------------------------------------------------------------------------------
  //  Values
  // ---------------------------------------------------------------------------------------------

  /** The keys that survive: short enough for the buffer, and with nothing in them that needs an escape. */
  predicate CleanKey(k: Text) {
    |k| <= MAX_KEY && IsPlain(k) && Utf8.WellFormed(k)
  }

  /** The values that survive printing and parsing */
  predicate Printable(v: JsonValue) {
    match v
    case Double(_) => false
    case String(t) => PrintableText(t)
    case Array(es) => forall i :: 0 <= i < |es| ==> Printable(es[i])
    case Object(es) => forall i :: 0 <= i < |es| ==> CleanKey(es[i].key) && Printable(es[i].value)
    case _ => true
  }

  function Tree(v: JsonValue, l: Layout, level: nat): G.Value
    requires Printable(v)
  {
    match v
    case Null => G.NullName
    case Boolean(b) => if b then G.TrueName else G.FalseName
    case Long(n) => G.Num(NumberOf(n))
    case String(t) => G.Str(Chars(t))
    case Array(es) =>
      if es == [] then G.EmptyArr([])
      else
        var end := Gap(l, level);
        G.Arr(G.Item(Gap(l, level + 1), Tree(es[0], l, level + 1), Trail(|es|, end)), Items(es[1..], l, level + 1, end))
    case Object(es) =>
      if es == [] then G.EmptyObj(EmptyGap(l))
      else
        var end := Gap(l, level);
        G.Obj(MemberOf(es[0].key, Tree(es[0].value, l, level + 1), Gap(l, level + 1), Trail(|es|, end)),
              Members(es[1..], l, level + 1, end))
  }

  /** The gap before the closing bracket belongs to the last of n elements. */
  function Trail(n: nat, end: Text): Text {
    if n == 1 then end else []
  }

  function MemberOf(key: Text, value: G.Value, lead: Text, trail: Text): G.Member
    requires CleanKey(key)
  {
    G.Member(lead, Chars(key), [SPACE], [SPACE], value, trail)
  }

  function Items(es: seq<JsonValue>, l: Layout, level: nat, end: Text): seq<G.Item>
    requires forall i :: 0 <= i < |es| ==> Printable(es[i])
  {
    if es == [] then []
    else [G.Item(Gap(l, level), Tree(es[0], l, level), Trail(|es|, end))] + Items(es[1..], l, level, end)
  }

  function Members(es: seq<Entry>, l: Layout, level: nat, end: Text): seq<G.Member>
    requires forall i :: 0 <= i < |es| ==> CleanKey(es[i].key) && Printable(es[i].value)
  {
    if es == [] then []
    else
      [MemberOf(es[0].key, Tree(es[0].value, l, level), Gap(l, level), Trail(|es|, end))]
      + Members(es[1..], l, level, end)
  }

  // ---------------------------------------------------------------------------------------------
  //  The tree denotes the value
  // ---------------------------------------------------------------------------------------------

  /** There is room for the strings and the numbers of v. */
  predicate HasRoom(v: JsonValue, max: Limits) {
    HasShortTexts(v, max.room) && LONG_DIGITS < max.buffer
  }

  /** t is valid, nested like v and means v; and there is room for t if there is for v. */
  predicate Denotes(t: G.Value, v: JsonValue, max: Limits) {
    G.Valid(t) && G.Meaning(t) == v && G.Depth(t) == Nesting(v) && (HasRoom(v, max) ==> G.Fits(t, max))
  }

  lemma GapIsWs(l: Layout, level: nat)
    ensures G.IsWs(Gap(l, level)) && G.IsWs(EmptyGap(l)) && G.IsWs([])
  {
  }

  lemma {:induction false} TreeDenotes(v: JsonValue, l: Layout, level: nat, max: Limits)
    requires Printable(v)
    ensures Denotes(Tree(v, l, level), v, max)
    decreases v
  {
    hide Denotes;
    match v
    case Array(es) =>
      if es != [] {
        TreeDenotes(es[0], l, level + 1, max);
        GapIsWs(l, level);
        ItemsDenote(es[1..], l, level + 1, Gap(l, level), max);
      }
      ArrayTreeDenotes(v, l, level, max);
    case Object(es) =>
      if es != [] {
        TreeDenotes(es[0].value, l, level + 1, max);
        GapIsWs(l, level);
        MembersDenote(es[1..], l, level + 1, Gap(l, level), max);
      }
      ObjectTreeDenotes(v, l, level, max);
    case _ => ScalarTreeDenotes(v, l, level, max);
  }

  lemma ScalarTreeDenotes(v: JsonValue, l: Layout, level: nat, max: Limits)
    requires Printable(v) && !v.Array? && !v.Object?
    ensures Denotes(Tree(v, l, level), v, max)
  {
    hide G.StringBytes, NumberOf, G.NumberMeaning, G.ValidNumber, PrintableText, Chars;
    match v
    case Long(n) => PrintedLongIsSpelled(n, []);
    case String(t) => CharsDenote(t);
    case _ =>
  }

  predicate ItemsDenoteElements(items: seq<G.Item>, es: seq<JsonValue>, max: Limits) {
    && G.ValidItems(items) && G.ItemMeanings(items) == es && G.ItemsDepth(items) == ElementsNesting(es)
    && (HasRoom(Array(es), max) ==> G.ItemsFit(items, max))
  }

  predicate MembersDenoteEntries(ms: seq<G.Member>, es: seq<Entry>, max: Limits) {
    && G.ValidMembers(ms) && G.MemberMeanings(ms) == es && G.MembersDepth(ms) == EntriesNesting(es)
    && (HasRoom(Object(es), max) ==> G.MembersFit(ms, max))
  }

  lemma EmptyTreesDenote(l: Layout, max: Limits)
    ensures Denotes(G.EmptyArr([]), Array([]), max) && Denotes(G.EmptyObj(EmptyGap(l)), Object([]), max)
  {
    hide HasRoom;
  }

  lemma ArrayTreeDenotes(v: JsonValue, l: Layout, level: nat, max: Limits)
    requires Printable(v) && v.Array?
    requires v.elements != [] ==>
               && Denotes(Tree(v.elements[0], l, level + 1), v.elements[0], max)
               && ItemsDenoteElements(Items(v.elements[1..], l, level + 1, Gap(l, level)), v.elements[1..], max)
    ensures Denotes(Tree(v, l, level), v, max)
  {
    hide Denotes, ItemsDenoteElements, G.IsWs, Gap;
    var es := v.elements;
    GapIsWs(l, level);
    GapIsWs(l, level + 1);
    if es == [] {
      EmptyTreesDenote(l, max);
    } else {
      ArrayDenotes(Gap(l, level + 1), Tree(es[0], l, level + 1), Trail(|es|, Gap(l, level)),
                   Items(es[1..], l, level + 1, Gap(l, level)), es, max);
    }
  }

  lemma ArrayDenotes(lead: Text, first: G.Value, trail: Text, items: seq<G.Item>, es: seq<JsonValue>, max: Limits)
    requires G.IsWs(lead) && G.IsWs(trail) && es != []
    requires Denotes(first, es[0], max) && ItemsDenoteElements(items, es[1..], max)
    ensures Denotes(G.Arr(G.Item(lead, first, trail), items), Array(es), max)
  {
    hide HasRoom, G.Valid, G.Fits, G.ItemsFit, G.Depth, G.ItemsDepth, Nesting, ElementsNesting, G.Meaning, G.IsWs;
    var item := G.Item(lead, first, trail);
    ArrayMeans(item, items, es);
    if HasRoom(Array(es), max) {
      RoomForAll(es, max);
      ArrayFits(item, items, max);
    }
  }

  lemma ArrayMeans(item: G.Item, items: seq<G.Item>, es: seq<JsonValue>)
    requires G.IsWs(item.lead) && G.IsWs(item.trail) && G.Valid(item.value) && G.ValidItems(items) && es != []
    requires G.Meaning(item.value) == es[0] && G.ItemMeanings(items) == es[1..]
    requires G.Depth(item.value) == Nesting(es[0]) && G.ItemsDepth(items) == ElementsNesting(es[1..])
    ensures G.Valid(G.Arr(item, items)) && G.Meaning(G.Arr(item, items)) == Array(es)
    ensures G.Depth(G.Arr(item, items)) == Nesting(Array(es))
  {
    hide G.IsWs;
    assert es == [es[0]] + es[1..];
  }

  lemma ArrayFits(item: G.Item, items: seq<G.Item>, max: Limits)
    requires G.Valid(G.Arr(item, items)) && G.Fits(item.value, max) && G.ItemsFit(items, max)
    ensures G.Fits(G.Arr(item, items), max)
  {
  }


  lemma RoomForAll(es: seq<JsonValue>, max: Limits)
    requires HasRoom(Array(es), max) && es != []
    ensures HasRoom(es[0], max) && HasRoom(Array(es[1..]), max)
  {
  }

  lemma ObjectTreeDenotes(v: JsonValue, l: Layout, level: nat, max: Limits)
    requires Printable(v) && v.Object?
    requires v.entries != [] ==>
               && Denotes(Tree(v.entries[0].value, l, level + 1), v.entries[0].value, max)
               && MembersDenoteEntries(Members(v.entries[1..], l, level + 1, Gap(l, level)), v.entries[1..], max)
    ensures Denotes(Tree(v, l, level), v, max)
  {
    hide Denotes, MembersDenoteEntries, G.IsWs, Gap, G.StringBytes, Chars, CleanKey;
    var es := v.entries;
    GapIsWs(l, level);
    GapIsWs(l, level + 1);
    if es == [] {
      EmptyTreesDenote(l, max);
    } else {
      MemberIsValid(es[0].key, Tree(es[0].value, l, level + 1), Gap(l, level + 1), Trail(|es|, Gap(l, level)));
      ObjectDenotes(MemberOf(es[0].key, Tree(es[0].value, l, level + 1), Gap(l, level + 1), Trail(|es|, Gap(l, level))),
                    Members(es[1..], l, level + 1, Gap(l, level)), es, max);
    }
  }

  lemma ObjectDenotes(m: G.Member, ms: seq<G.Member>, es: seq<Entry>, max: Limits)
    requires G.ValidMember(m) && es != [] && G.StringBytes(m.key) == es[0].key
    requires Denotes(m.value, es[0].value, max) && MembersDenoteEntries(ms, es[1..], max)
    ensures Denotes(G.Obj(m, ms), Object(es), max)
  {
    hide HasRoom, G.Valid, G.Fits, G.MembersFit, G.Depth, G.MembersDepth, Nesting, EntriesNesting, G.Meaning;
    hide G.StringBytes, G.ValidMember;
    ObjectMeans(m, ms, es);
    if HasRoom(Object(es), max) {
      RoomForEntries(es, max);
      ObjectFits(m, ms, max);
    }
  }

  lemma ObjectMeans(m: G.Member, ms: seq<G.Member>, es: seq<Entry>)
    requires G.ValidMember(m) && G.Valid(m.value) && G.ValidMembers(ms) && es != []
    requires G.StringBytes(m.key) == es[0].key && G.Meaning(m.value) == es[0].value && G.MemberMeanings(ms) == es[1..]
    requires G.Depth(m.value) == Nesting(es[0].value) && G.MembersDepth(ms) == EntriesNesting(es[1..])
    ensures G.Valid(G.Obj(m, ms)) && G.Meaning(G.Obj(m, ms)) == Object(es)
    ensures G.Depth(G.Obj(m, ms)) == Nesting(Object(es))
  {
    hide G.StringBytes;
    assert es == [Entry(G.StringBytes(m.key), es[0].value)] + es[1..];
  }

  lemma ObjectFits(m: G.Member, ms: seq<G.Member>, max: Limits)
    requires G.Valid(G.Obj(m, ms)) && |G.StringBytes(m.key)| <= max.room
    requires G.Fits(m.value, max) && G.MembersFit(ms, max)
    ensures G.Fits(G.Obj(m, ms), max)
  {
    hide G.StringBytes;
  }

  lemma RoomForEntries(es: seq<Entry>, max: Limits)
    requires HasRoom(Object(es), max) && es != []
    ensures |es[0].key| <= max.room && HasRoom(es[0].value, max) && HasRoom(Object(es[1..]), max)
  {
  }

  lemma {:induction false} ItemsDenote(es: seq<JsonValue>, l: Layout, level: nat, end: Text, max: Limits)
    requires G.IsWs(end) && forall i :: 0 <= i < |es| ==> Printable(es[i])
    ensures ItemsDenoteElements(Items(es, l, level, end), es, max)
    decreases es
  {
    hide Tree, Gap, ItemsDenoteElements, Denotes, G.IsWs;
    if es != [] {
      TreeDenotes(es[0], l, level, max);
      ItemsDenote(es[1..], l, level, end, max);
      GapIsWs(l, level);
      PrependItem(G.Item(Gap(l, level), Tree(es[0], l, level), Trail(|es|, end)),
                  Items(es[1..], l, level, end), es, max);
    } else {
      NothingDenotes(max);
    }
  }

  lemma NothingDenotes(max: Limits)
    ensures ItemsDenoteElements([], [], max) && MembersDenoteEntries([], [], max)
  {
  }

  lemma PrependItem(i: G.Item, items: seq<G.Item>, es: seq<JsonValue>, max: Limits)
    requires G.IsWs(i.lead) && G.IsWs(i.trail) && es != []
    requires Denotes(i.value, es[0], max) && ItemsDenoteElements(items, es[1..], max)
    ensures ItemsDenoteElements([i] + items, es, max)
  {
    hide HasRoom, G.Valid, G.Fits, G.Depth, Nesting, G.Meaning, G.IsWs;
    var all := [i] + items;
    assert all[0] == i && all[1..] == items;
    assert es == [es[0]] + es[1..];
    if HasRoom(Array(es), max) {
      RoomForAll(es, max);
    }
  }

  lemma MemberIsValid(key: Text, value: G.Value, lead: Text, trail: Text)
    requires CleanKey(key) && G.IsWs(lead) && G.IsWs(trail)
    ensures var m := MemberOf(key, value, lead, trail);
            G.ValidMember(m) && G.StringBytes(m.key) == key && m.value == value
  {
    hide G.StringBytes, Chars;
    CharsDenote(key);
  }

  lemma {:induction false} MembersDenote(es: seq<Entry>, l: Layout, level: nat, end: Text, max: Limits)
    requires G.IsWs(end) && forall i :: 0 <= i < |es| ==> CleanKey(es[i].key) && Printable(es[i].value)
    ensures MembersDenoteEntries(Members(es, l, level, end), es, max)
    decreases es
  {
    hide G.StringBytes, Chars, Tree, Gap, MembersDenoteEntries, Denotes;
    if es != [] {
      TreeDenotes(es[0].value, l, level, max);
      MembersDenote(es[1..], l, level, end, max);
      var m := MemberOf(es[0].key, Tree(es[0].value, l, level), Gap(l, level), Trail(|es|, end));
      GapIsWs(l, level);
      MemberIsValid(es[0].key, Tree(es[0].value, l, level), Gap(l, level), Trail(|es|, end));
      PrependMember(m, Members(es[1..], l, level, end), es, max);
    } else {
      NothingDenotes(max);
    }
  }

  lemma PrependMember(m: G.Member, ms: seq<G.Member>, es: seq<Entry>, max: Limits)
    requires G.ValidMember(m) && es != [] && G.StringBytes(m.key) == es[0].key
    requires Denotes(m.value, es[0].value, max) && MembersDenoteEntries(ms, es[1..], max)
    ensures MembersDenoteEntries([m] + ms, es, max)
  {
    hide HasRoom, G.Valid, G.Fits, G.Depth, Nesting, G.Meaning, G.StringBytes, G.ValidMember;
    var all := [m] + ms;
    assert all[0] == m && all[1..] == ms;
    assert es == [Entry(G.StringBytes(m.key), es[0].value)] + es[1..] by {
      KeyBytes(m);
    }
    if HasRoom(Object(es), max) {
      RoomForEntries(es, max);
    }
  }

  lemma KeyBytes(m: G.Member)
    requires G.ValidMember(m)
    ensures G.ValidChars(m.key)
  {
  }

  // ---------------------------------------------------------------------------------------------
  //  The tree spells the printed text
  // ---------------------------------------------------------------------------------------------

  lemma ScalarIsSpelled(v: JsonValue, l: Layout, level: nat, rest: Text)
    requires Printable(v) && NoDoubles(v) && !v.Array? && !v.Object?
    ensures Print(v, l, level) + rest == G.Spell(Tree(v, l, level), rest)
  {
    match v
    case Long(n) => PrintedLongIsSpelled(n, rest);
    case String(t) => PrintedStringIsSpelled(t, rest);
    case _ =>
  }

  /** A clean key and the text around it, as a member */
  lemma KeyIsSpelled(key: Text, value: G.Value, gap: Text, trail: Text, rest: Text)
    requires CleanKey(key)
    ensures gap + (PrintKey(key) + rest) == G.SpellKey(MemberOf(key, value, gap, trail), rest)
  {
    var after := [SPACE] + ([COLON] + ([SPACE] + rest));
    PlainBytes(key);
    CharsSpellEscapes(key, [QUOTE] + after);
    assert key[..|key|] == key;
    assert PrintKey(key) + rest == [QUOTE] + (key + ([QUOTE] + after));
  }

  lemma {:induction false} PrintedIsSpelled(v: JsonValue, l: Layout, level: nat, rest: Text)
    requires Printable(v) && NoDoubles(v)
    ensures Print(v, l, level) + rest == G.Spell(Tree(v, l, level), rest)
    decreases v
  {
    hide G.Spell, Print, Tree;
    match v
    case Array(es) =>
      if es != [] {
        var end := Gap(l, level) + [RIGHT_BRACKET];
        MoreIsSpelled(es[1..], l, level + 1, Gap(l, level), rest);
        PrintedIsSpelled(es[0], l, level + 1, PrintMore(es[1..], l, level + 1, end) + rest);
      }
      ArrayIsSpelled(v, l, level, rest);
    case Object(es) =>
      if es != [] {
        var end := Gap(l, level) + [RIGHT_BRACE];
        OthersAreSpelled(es[1..], l, level + 1, Gap(l, level), rest);
        PrintedIsSpelled(es[0].value, l, level + 1, PrintOthers(es[1..], l, level + 1, end) + rest);
      }
      ObjectIsSpelled(v, l, level, rest);
    case _ => ScalarIsSpelled(v, l, level, rest);
  }

  lemma ArrayIsSpelled(v: JsonValue, l: Layout, level: nat, rest: Text)
    requires Printable(v) && NoDoubles(v) && v.Array?
    requires var es, end := v.elements, Gap(l, level);
             es != [] ==>
               var more := PrintMore(es[1..], l, level + 1, end + [RIGHT_BRACKET]);
               && more + rest
                  == Trail(|es|, end) + G.SpellMore(Items(es[1..], l, level + 1, end), [RIGHT_BRACKET] + rest)
               && Print(es[0], l, level + 1) + (more + rest) == G.Spell(Tree(es[0], l, level + 1), more + rest)
    ensures Print(v, l, level) + rest == G.Spell(Tree(v, l, level), rest)
  {
    var es, end := v.elements, Gap(l, level);
    if es == [] {
      EmptyIsSpelled(LEFT_BRACKET, [], RIGHT_BRACKET, rest);
    } else {
      var more := PrintMore(es[1..], l, level + 1, end + [RIGHT_BRACKET]);
      Regroup(LEFT_BRACKET, Gap(l, level + 1), Print(es[0], l, level + 1), more, rest);
    }
  }

  lemma ObjectIsSpelled(v: JsonValue, l: Layout, level: nat, rest: Text)
    requires Printable(v) && NoDoubles(v) && v.Object?
    requires var es, end := v.entries, Gap(l, level);
             es != [] ==>
               var others := PrintOthers(es[1..], l, level + 1, end + [RIGHT_BRACE]);
               && others + rest
                  == Trail(|es|, end) + G.SpellOthers(Members(es[1..], l, level + 1, end), [RIGHT_BRACE] + rest)
               && Print(es[0].value, l, level + 1) + (others + rest)
                  == G.Spell(Tree(es[0].value, l, level + 1), others + rest)
    ensures Print(v, l, level) + rest == G.Spell(Tree(v, l, level), rest)
  {
    var es, end := v.entries, Gap(l, level);
    if es == [] {
      EmptyIsSpelled(LEFT_BRACE, EmptyGap(l), RIGHT_BRACE, rest);
    } else {
      var others := PrintOthers(es[1..], l, level + 1, end + [RIGHT_BRACE]);
      EntryIsSpelled(es[0], l, level + 1, LEFT_BRACE, Trail(|es|, end), others, rest);
    }
  }

  lemma EmptyIsSpelled(open: Byte, gap: Text, close: Byte, rest: Text)
    ensures ([open] + (gap + [close])) + rest == [open] + (gap + ([close] + rest))
    ensures gap == [] ==> [open, close] + rest == [open] + (gap + ([close] + rest))
  {
  }

  lemma Regroup(open: Byte, gap: Text, value: Text, more: Text, rest: Text)
    ensures ([open] + (gap + (value + more))) + rest == [open] + (gap + (value + (more + rest)))
  {
  }

  /** An entry with the bracket or comma before it and the entries after it */
  lemma EntryIsSpelled(e: Entry, l: Layout, level: nat, open: Byte, trail: Text, others: Text, rest: Text)
    requires CleanKey(e.key) && Printable(e.value) && NoDoubles(e.value)
    requires Print(e.value, l, level) + (others + rest) == G.Spell(Tree(e.value, l, level), others + rest)
    ensures ([open] + (Gap(l, level) + (PrintEntry(e, l, level) + others))) + rest
         == [open] + G.SpellKey(MemberOf(e.key, Tree(e.value, l, level), Gap(l, level), trail),
                                G.Spell(Tree(e.value, l, level), others + rest))
  {
    hide PrintKey, Print, G.SpellKey, G.Spell, Tree;
    var value := Print(e.value, l, level);
    KeyIsSpelled(e.key, Tree(e.value, l, level), Gap(l, level), trail, value + (others + rest));
    Regroup(open, Gap(l, level), PrintKey(e.key) + value, others, rest);
    assert PrintKey(e.key) + value + (others + rest) == PrintKey(e.key) + (value + (others + rest));
  }

  lemma {:induction false} MoreIsSpelled(es: seq<JsonValue>, l: Layout, level: nat, end: Text, rest: Text)
    requires forall i :: 0 <= i < |es| ==> Printable(es[i]) && NoDoubles(es[i])
    ensures PrintMore(es, l, level, end + [RIGHT_BRACKET]) + rest
         == Trail(|es| + 1, end) + G.SpellMore(Items(es, l, level, end), [RIGHT_BRACKET] + rest)
    decreases es
  {
    if es == [] {
      assert end + [RIGHT_BRACKET] + rest == end + ([RIGHT_BRACKET] + rest);
    } else {
      var more := PrintMore(es[1..], l, level, end + [RIGHT_BRACKET]);
      MoreIsSpelled(es[1..], l, level, end, rest);
      PrintedIsSpelled(es[0], l, level, more + rest);
      Regroup(COMMA, Gap(l, level), Print(es[0], l, level), more, rest);
      var items := Items(es, l, level, end);
      assert items[1..] == Items(es[1..], l, level, end);
    }
  }

  lemma {:induction false} OthersAreSpelled(es: seq<Entry>, l: Layout, level: nat, end: Text, rest: Text)
    requires forall i :: 0 <= i < |es| ==> CleanKey(es[i].key) && Printable(es[i].value) && NoDoubles(es[i].value)
    ensures PrintOthers(es, l, level, end + [RIGHT_BRACE]) + rest
         == Trail(|es| + 1, end) + G.SpellOthers(Members(es, l, level, end), [RIGHT_BRACE] + rest)
    decreases es
  {
    if es == [] {
      assert end + [RIGHT_BRACE] + rest == end + ([RIGHT_BRACE] + rest);
    } else {
      var others := PrintOthers(es[1..], l, level, end + [RIGHT_BRACE]);
      OthersAreSpelled(es[1..], l, level, end, rest);
      PrintedIsSpelled(es[0].value, l, level, others + rest);
      EntryIsSpelled(es[0], l, level, COMMA, Trail(|es|, end), others, rest);
      var ms := Members(es, l, level, end);
      assert ms[1..] == Members(es[1..], l, level, end);
    }
  }
}
