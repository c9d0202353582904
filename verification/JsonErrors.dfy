/** Every flaw of a text is reported with its own error. */
module JsonErrors {
  import opened Bytes
  import opened JsonBytes
  import opened JsonValues
  import opened JsonParserSpec
  import opened JsonStrings
  import opened JsonNumbers
  import opened JsonCompleteness
  import opened JsonFlaws
  import opened JsonLiterals
  import opened Wrappers
  import G = JsonGrammar
  import Utf8

  // ---------------------------------------------------------------------------------------------
  //  Strings
  // ---------------------------------------------------------------------------------------------

  lemma {:induction false} BrokenDigitsAreReported(s: Text, n: nat, count: nat, value: nat)
    requires n < count && n <= |s| && (forall i :: 0 <= i < n ==> IsHex(s[i])) && !(n < |s| && IsHex(s[n]))
    ensures ParseHex(s, count, value).ErrorCode()
         == Some(if AtEnd(s[n..]) then UnexpectedEof else InvalidUnicodeEscape)
    decreases n
  {
    if n != 0 {
      BrokenDigitsAreReported(s[1..], n - 1, count - 1, value * 16 + HexDigit(s[0]));
      assert s[1..][n - 1..] == s[n..];
    }
  }

  /** The four digits of an escape have been read. */
  lemma ReadCodeUnit(x: Text)
    requires IsUnicodeEscape(x)
    ensures ParseHex(x[2..], 4, 0) == Ok(CodeUnit(x), x[6..])
  {
    assert x[2..] == x[2..6] + x[6..];
    ParseHexOf(x[2..6], x[6..]);
  }

  lemma BrokenEscapeIsReported(x: Text, n: nat, after: Text)
    requires StartsUnicodeEscape(x) && HasTooFewDigits(x[2..], n, after)
    ensures ParseEscape(x).ErrorCode() == Some(if AtEnd(after) then UnexpectedEof else InvalidUnicodeEscape)
  {
    assert x[1..][1..] == x[2..] && (n < |x[2..]| ==> after[0] == x[2..][n]);
    BrokenDigitsAreReported(x[2..], n, 4, 0);
  }

  lemma BrokenLowEscapeIsReported(x: Text, n: nat, after: Text)
    requires IsHighEscape(x) && StartsUnicodeEscape(x[6..]) && HasTooFewDigits(x[8..], n, after)
    ensures ParseEscape(x).ErrorCode() == Some(if AtEnd(after) then UnexpectedEof else InvalidUnicodeEscape)
  {
    assert x[1..][1..] == x[2..] && x[6..][2..] == x[8..] && (n < |x[8..]| ==> after[0] == x[8..][n]);
    ReadCodeUnit(x);
    BrokenDigitsAreReported(x[8..], n, 4, 0);
  }

  lemma BadSurrogateIsReported(x: Text, e: ErrorType)
    requires e == NoPrecedingHighSurrogate || e == NoFollowingLowSurrogate
    requires CharFlaw(x, e)
    ensures ParseEscape(x).ErrorCode() == Some(e)
  {
    assert x[1..][1..] == x[2..] && x[6..] == x[6..];
    ReadCodeUnit(x);
    if e == NoFollowingLowSurrogate && StartsUnicodeEscape(x[6..]) {
      ReadCodeUnit(x[6..]);
    }
  }

  /** A character that breaks off is reported at the byte that does not go on with it. */
  lemma BrokenOctetsAreReported(x: Text, k: nat)
    requires BreaksOctetsAt(x, k) && !(2 <= |x| && x[0] == 0xF4 && 0x90 <= x[1])
    ensures ParseUtf8Char(x).ErrorCode() == Some(InvalidUtf8ContinuationByte) && 0xC2 <= x[0]
  {
    var o :| Utf8.IsOctets(o) && k < |o| && o[..k] == x[..k];
    assert o[0] == o[..k][0] == x[..k][0] == x[0];
    if 2 <= k {
      assert o[1] == o[..k][1] == x[..k][1] == x[1];
      assert 3 <= k ==> o[2] == o[..k][2] == x[..k][2] == x[2];
      assert x[1..][0] == x[1] && x[1..][1..] == x[2..];
      BrokenTailsAreReported(x[2..], k - 2, TailsAfter(x[0]) - 1);
    }
  }

  lemma {:induction false} BrokenTailsAreReported(s: Text, n: nat, count: nat)
    requires n < count && n <= |s| && (forall i :: 0 <= i < n ==> Utf8.IsTail(s[i])) && !(n < |s| && Utf8.IsTail(s[n]))
    ensures ParseTails(s, count).ErrorCode() == Some(InvalidUtf8ContinuationByte)
    decreases n
  {
    if n != 0 {
      BrokenTailsAreReported(s[1..], n - 1, count - 1);
    }
  }

  lemma CharFlawIsReported(x: Text, acc: Text, room: nat, e: ErrorType)
    requires CharFlaw(x, e)
    ensures ParseChars(x, acc, room).ErrorCode() == Some(e)
  {
    match e
    case UnexpectedEof =>
      if exists after :: BreaksDigitsAt(x, after) && AtEnd(after) {
        var after :| BreaksDigitsAt(x, after) && AtEnd(after);
        BrokenHexIsReported(x, after);
      }
    case InvalidUnicodeEscape =>
      var after :| BreaksDigitsAt(x, after) && !AtEnd(after);
      BrokenHexIsReported(x, after);
    case NoPrecedingHighSurrogate => BadSurrogateIsReported(x, e);
    case NoFollowingLowSurrogate => BadSurrogateIsReported(x, e);
    case InvalidUtf8ContinuationByte =>
      var k: nat :| BreaksOctetsAt(x, k);
      BrokenOctetsAreReported(x, k);
    case _ =>
  }

  lemma BrokenHexIsReported(x: Text, after: Text)
    requires BreaksDigitsAt(x, after)
    ensures Cur(x) == BACKSLASH
    ensures ParseEscape(x).ErrorCode() == Some(if AtEnd(after) then UnexpectedEof else InvalidUnicodeEscape)
  {
    if StartsUnicodeEscape(x) && exists n: nat :: HasTooFewDigits(x[2..], n, after) {
      var n: nat :| HasTooFewDigits(x[2..], n, after);
      BrokenEscapeIsReported(x, n, after);
    } else {
      var n: nat :| HasTooFewDigits(x[8..], n, after);
      BrokenLowEscapeIsReported(x, n, after);
    }
  }

  lemma StringFlawIsReported(s: Text, room: nat, e: ErrorType)
    requires StringFlaw(s, room, e)
    ensures Cur(s) == QUOTE && ParseString(s, room).ErrorCode() == Some(e)
  {
    hide G.StringBytes, CharFlaw, ParseChars;
    var cs, rest :| SpellsString(s, cs, rest) &&
      if |G.StringBytes(cs)| <= room then CharFlaw(rest, e) else e == MemoryOverrun;
    assert s[1..] == G.SpellChars(cs, rest);
    ParseCharsOf(cs, rest, [], room);
    if |G.StringBytes(cs)| <= room {
      CharFlawIsReported(rest, [] + G.StringBytes(cs), room, e);
    }
  }

  // ---------------------------------------------------------------------------------------------
  //  Numbers and names
  // ---------------------------------------------------------------------------------------------

  lemma BrokenFractionIsReported(x: Text, n: G.Number, rest: Text, size: nat)
    requires BreaksFraction(x, n, rest)
    ensures ParseNumber(x, size).ErrorCode() == Some(InvalidNumberFormat)
  {
    var u := [POINT] + rest;
    ParseIntegerPartOf(n, u);
    assert u[1..] == rest;
  }

  lemma BrokenExponentIsReported(x: Text, n: G.Number, mark: Byte, sign: Text, rest: Text, size: nat)
    requires BreaksExponent(x, n, mark, sign, rest)
    ensures ParseNumber(x, size).ErrorCode() == Some(InvalidNumberFormat)
  {
    var v := [mark] + (sign + rest);
    var u := G.SpellFraction(n.fraction, v);
    assert x == G.SpellInteger(n, u);
    ParseIntegerPartOf(n, u);
    ParseFractionOf(n.fraction, v);
    assert v[1..] == sign + rest;
    assert sign == [] ==> sign + rest == rest;
    assert sign != [] ==> (sign + rest)[1..] == rest;
    assert SkipSign(v[1..]) == rest;
  }

  lemma NumberFlawIsReported(x: Text, size: nat, e: ErrorType)
    requires NumberFlaw(x, size, e)
    ensures StartsNumber(Cur(x)) && ParseNumber(x, size).ErrorCode() == Some(e)
  {
    match e
    case InvalidNumberFormat =>
      if n, rest :| BreaksFraction(x, n, rest) {
        BrokenFractionIsReported(x, n, rest, size);
      } else if n, mark, sign, rest :| BreaksExponent(x, n, mark, sign, rest) {
        BrokenExponentIsReported(x, n, mark, sign, rest, size);
      }
    case MemoryOverrun =>
      var n, rest :| G.ValidNumber(n) && G.EndsAfter(n, rest) && x == G.SpellNumber(n, rest)
                     && size <= |G.SpellNumber(n, [])|;
      ParseNumberOf(n, rest, size);
  }

  lemma {:induction false} BrokenNameIsReported(x: Text, name: Text, n: nat, literal: JsonValue)
    requires NulFree(name) && n < |name| && n <= |x| && x[..n] == name[..n] && !(n < |x| && x[n] == name[n])
    ensures ParseLiteral(x, name, literal).ErrorCode() == Some(if AtEnd(x[n..]) then UnexpectedEof else UnexpectedText)
    decreases n
  {
    if n != 0 {
      assert x[0] == x[..n][0] == name[..n][0] == name[0];
      assert x[1..][..n - 1] == x[..n][1..] && name[1..][..n - 1] == name[..n][1..] && x[1..][n - 1..] == x[n..];
      BrokenNameIsReported(x[1..], name[1..], n - 1, literal);
    }
  }

  lemma NameFlawIsReported(x: Text, depth: nat, max: Limits, e: ErrorType)
    requires NameFlaw(x, e)
    ensures SkipWs(x) == x && ParseValue(x, depth, max).ErrorCode() == Some(e)
  {
    hide ParseLiteral, ParseObject, ParseArray, ParseString, ParseNumber;
    var name, n: nat :| BreaksName(x, name, n) && (e == UnexpectedEof <==> AtEnd(x[n..]));
    assert x[0] == x[..n][0] == name[..n][0] == name[0];
    BrokenNameIsReported(x, name, n, if name == KEYWORD_NULL then Null else Boolean(name == KEYWORD_TRUE));
  }

  /** A flaw where a value should be */
  lemma ValueFlawIsReported(x: Text, depth: nat, max: Limits, e: ErrorType)
    requires ValueFlaw(x, depth, max, e) && depth <= max.depth
    ensures SkipWs(x) == x && ParseValue(x, depth, max).ErrorCode() == Some(e)
  {
    hide NumberFlaw, NameFlaw, StringFlaw, ParseNumber, ParseString, ParseLiteral;
    if NameFlaw(x, e) {
      NameFlawIsReported(x, depth, max, e);
    } else if NumberFlaw(x, max.buffer, e) {
      NumberFlawIsReported(x, max.buffer, e);
    } else if StringFlaw(x, max.room, e) {
      StringFlawIsReported(x, max.room, e);
    } else if e == UnexpectedText {
      NoValueStarts(x);
    } else {
      TooDeepIsReported(x, depth, max);
    }
  }

  lemma TooDeepIsReported(x: Text, depth: nat, max: Limits)
    requires depth == max.depth && (StartsWith(x, LEFT_BRACKET) || StartsWith(x, LEFT_BRACE))
    ensures SkipWs(x) == x && ParseValue(x, depth, max).ErrorCode() == Some(MaxNestedDepthExceeded)
  {
  }

  lemma NoValueStarts(x: Text)
    requires x == [] || (!StartsValue(x[0]) && !IsWhitespace(x[0]))
    ensures var c := Cur(x);
            && c != LEFT_BRACE && c != LEFT_BRACKET && c != QUOTE && !StartsNumber(c)
            && c != LOWER_T && c != LOWER_F && c != LOWER_N && !IsWhitespace(c)
  {
    assert KEYWORD_TRUE in NAMES && KEYWORD_FALSE in NAMES && KEYWORD_NULL in NAMES;
  }

  // ---------------------------------------------------------------------------------------------
  //  Arrays
  // ---------------------------------------------------------------------------------------------

  /** The parser reads the elements of an array and comes to what follows them. */
  lemma ItemsAreRead(items: seq<G.Item>, depth: nat, max: Limits, tail: Text)
    requires items != [] && AreItems(items, depth + 1, max) && G.EndsItems(items, tail)
    ensures ParseValue([LEFT_BRACKET] + SpellItems(items, tail), depth, max)
         == ParseElements(SkipWs(tail), depth + 1, max, G.ItemMeanings(items))
  {
    hide ParseValue, ParseElements, G.Ends, EndsNumber, SkipWs, G.Meaning, G.Spell;
    var first, more := items[0], items[1..];
    var x := first.trail + G.SpellMore(more, tail);
    MoreStarts(first.trail, more, tail);
    if more != [] {
      NumberEnds(first.value, x);
    }
    ParseValueOf(first.value, depth + 1, max, x);
    ParseElementsOf(more, depth + 1, max, tail, [G.Meaning(first.value)]);
    ParseArrOf(first, more, depth, max, tail);
  }

  lemma {:induction false} ItemsEndAtComma(items: seq<G.Item>, rest: Text)
    requires G.ValidItems(items)
    ensures G.EndsItems(items, [COMMA] + rest)
  {
    if |items| == 1 {
      CommaContinuesNothing(items[0].trail, rest);
    } else if items != [] {
      ItemsEndAtComma(items[1..], rest);
    }
  }

  lemma CommaContinuesNothing(ws: Text, rest: Text)
    requires G.IsWs(ws)
    ensures EndsNumber(ws + ([COMMA] + rest))
  {
    assert ws == [] ==> ws + ([COMMA] + rest) == [COMMA] + rest;
  }

  /** A text that ends after whitespace */
  lemma EndAfterWs(gap: Text, end: Text)
    requires G.IsWs(gap) && AtEnd(end)
    ensures SkipWs(gap + end) == end && Cur(end) == NUL
  {
    SkipWsOver(gap, end);
  }

  lemma CommaFlawIsReported(rest: Text, close: Byte, e: ErrorType)
    requires ListFlaw(false, rest, close, UnexpectedEof, e) && e != UnexpectedEof
    requires close == RIGHT_BRACKET || close == RIGHT_BRACE
    ensures SkipWs(rest) == rest && !AtEnd(rest) && rest[0] != close && ParseComma(rest, close).ErrorCode() == Some(e)
  {
    if e == TrailingCommaNotAllowed {
      var gap, end :| G.IsWs(gap) && rest == [COMMA] + (gap + ([close] + end));
      assert rest[1..] == gap + ([close] + end);
      SkipWsOver(gap, [close] + end);
    }
  }

  lemma AfterItemsIsReported(items: seq<G.Item>, rest: Text, depth: nat, max: Limits, e: ErrorType)
    requires IsFlaw(AfterItems(items, rest), depth, max, e)
    ensures ParseValue([LEFT_BRACKET] + SpellItems(items, rest), depth, max).ErrorCode() == Some(e)
  {
    hide ParseValue, ParseComma, SkipWs;
    if items == [] {
      var s := [LEFT_BRACKET] + rest;
      assert s[1..] == rest;
      ArrayReachesBody(s, depth, max);
    } else {
      ItemsAreRead(items, depth, max, rest);
    }
    if e == UnterminatedArray {
      var gap, end :| G.IsWs(gap) && AtEnd(end) && rest == gap + end;
      EndAfterWs(gap, end);
    } else {
      CommaFlawIsReported(rest, RIGHT_BRACKET, e);
    }
  }

  /** An element in which there is a flaw */
  lemma InItemIsReported(items: seq<G.Item>, lead: Text, y: Text, depth: nat, max: Limits, e: ErrorType)
    requires AreItems(items, depth + 1, max) && G.IsWs(lead)
    requires (items == [] ==> !AtEnd(y)) && !StartsWith(y, RIGHT_BRACKET)
    requires SkipWs(y) == y && ParseElement(y, depth + 1, max).ErrorCode() == Some(e)
    ensures ParseValue(OpenArray(items, lead + y), depth, max).ErrorCode() == Some(e)
  {
    hide ParseValue, ParseElement, SkipWs;
    var s := OpenArray(items, lead + y);
    SkipWsOver(lead, y);
    if items == [] {
      assert s[1..] == lead + y;
      ArrayReachesBody(s, depth, max);
    } else {
      ItemsEndAtComma(items, lead + y);
      ItemsAreRead(items, depth, max, [COMMA] + (lead + y));
      CommaIsRead(lead, y, RIGHT_BRACKET);
    }
  }

  lemma CommaIsRead(lead: Text, y: Text, close: Byte)
    requires G.IsWs(lead) && SkipWs(y) == y && !StartsWith(y, close)
    requires close == RIGHT_BRACKET || close == RIGHT_BRACE
    ensures var s := [COMMA] + (lead + y);
            SkipWs(s) == s && ParseComma(s, close) == Ok((), y)
  {
    var s := [COMMA] + (lead + y);
    assert s[1..] == lead + y;
    SkipWsOver(lead, y);
  }

  // ---------------------------------------------------------------------------------------------
  //  Objects
  // ---------------------------------------------------------------------------------------------

  lemma MembersAreRead(ms: seq<G.Member>, depth: nat, max: Limits, tail: Text)
    requires ms != [] && AreMembers(ms, depth + 1, max) && G.EndsMembers(ms, tail)
    ensures ParseValue([LEFT_BRACE] + SpellMembers(ms, tail), depth, max)
         == ParseMembers(SkipWs(tail), depth + 1, max, G.MemberMeanings(ms))
  {
    hide ParseValue, ParseMembers, G.Ends, EndsNumber, SkipWs, G.Meaning, G.Spell, G.SpellKey, G.StringBytes;
    var m, more := ms[0], ms[1..];
    var x := m.trail + G.SpellOthers(more, tail);
    OthersStart(m.trail, more, tail);
    if more != [] {
      NumberEnds(m.value, x);
    }
    ParseValueOf(m.value, depth + 1, max, x);
    ParseMembersOf(more, depth + 1, max, tail, [Entry(G.StringBytes(m.key), G.Meaning(m.value))]);
    ParseObjOf(m, more, depth, max, tail);
  }

  lemma {:induction false} MembersEndAtComma(ms: seq<G.Member>, rest: Text)
    requires G.ValidMembers(ms)
    ensures G.EndsMembers(ms, [COMMA] + rest)
  {
    if |ms| == 1 {
      CommaContinuesNothing(ms[0].trail, rest);
    } else if ms != [] {
      MembersEndAtComma(ms[1..], rest);
    }
  }

  lemma AfterMembersIsReported(ms: seq<G.Member>, rest: Text, depth: nat, max: Limits, e: ErrorType)
    requires IsFlaw(AfterMembers(ms, rest), depth, max, e)
    ensures ParseValue([LEFT_BRACE] + SpellMembers(ms, rest), depth, max).ErrorCode() == Some(e)
  {
    hide ParseValue, ParseComma, SkipWs;
    if ms == [] {
      var s := [LEFT_BRACE] + rest;
      assert s[1..] == rest;
      ObjectReachesBody(s, depth, max);
    } else {
      MembersAreRead(ms, depth, max, rest);
    }
    if e == UnterminatedObject {
      var gap, end :| G.IsWs(gap) && AtEnd(end) && rest == gap + end;
      EndAfterWs(gap, end);
    } else {
      CommaFlawIsReported(rest, RIGHT_BRACE, e);
    }
  }

  /** A member in which there is a flaw */
  lemma InEntryIsReported(ms: seq<G.Member>, lead: Text, y: Text, depth: nat, max: Limits, e: ErrorType)
    requires AreMembers(ms, depth + 1, max) && G.IsWs(lead)
    requires (ms == [] ==> !AtEnd(y)) && !StartsWith(y, RIGHT_BRACE)
    requires SkipWs(y) == y && ParseEntry(y, depth + 1, max).ErrorCode() == Some(e)
    ensures ParseValue(OpenObject(ms, lead + y), depth, max).ErrorCode() == Some(e)
  {
    hide ParseValue, ParseEntry, SkipWs;
    var s := OpenObject(ms, lead + y);
    SkipWsOver(lead, y);
    if ms == [] {
      assert s[1..] == lead + y;
      ObjectReachesBody(s, depth, max);
    } else {
      MembersEndAtComma(ms, lead + y);
      MembersAreRead(ms, depth, max, [COMMA] + (lead + y));
      CommaIsRead(lead, y, RIGHT_BRACE);
    }
  }

  lemma KeyFlawIsReported(rest: Text, depth: nat, max: Limits, e: ErrorType)
    requires KeyFlaw(rest, max, e)
    ensures SkipWs(rest) == rest && ParseEntry(rest, depth, max).ErrorCode() == Some(e)
  {
    hide StringFlaw, ParseString, ParseValue;
    if StringFlaw(rest, max.room, e) {
      StringFlawIsReported(rest, max.room, e);
    }
  }

  /** A key, and what the parser does after it */
  lemma NameIsRead(key: Key, rest: Text, depth: nat, max: Limits)
    requires IsKey(key, max)
    ensures var s := G.SpellString(key.chars, key.trail + rest);
            && SkipWs(s) == s && StartsWith(s, QUOTE)
            && ParseString(s, max.room) == Ok(G.StringBytes(key.chars), key.trail + rest)
            && SkipWs(key.trail + rest) == SkipWs(rest)
  {
    ParseStringOf(key.chars, key.trail + rest, max.room);
    SkipWsOver(key.trail, rest);
  }

  lemma ColonFlawIsReported(key: Key, rest: Text, depth: nat, max: Limits, e: ErrorType)
    requires IsKey(key, max) && ColonFlaw(rest, e)
    ensures var s := G.SpellString(key.chars, key.trail + rest);
            SkipWs(s) == s && StartsWith(s, QUOTE) && ParseEntry(s, depth, max).ErrorCode() == Some(e)
  {
    hide ParseString, ParseValue, IsKey, G.SpellString, G.StringBytes;
    NameIsRead(key, rest, depth, max);
    if e == MissingObjectValue {
      var gap, end :| G.IsWs(gap) && AtEnd(end) && rest == [COLON] + (gap + end);
      assert rest[1..] == gap + end;
      EndAfterWs(gap, end);
    }
  }

  lemma InMemberIsReported(key: Key, after: Text, y: Text, depth: nat, max: Limits, e: ErrorType)
    requires IsKey(key, max) && G.IsWs(after) && !AtEnd(y)
    requires SkipWs(y) == y && ParseValue(y, depth, max).ErrorCode() == Some(e)
    ensures var s := G.SpellString(key.chars, key.trail + ([COLON] + (after + y)));
            SkipWs(s) == s && StartsWith(s, QUOTE) && ParseEntry(s, depth, max).ErrorCode() == Some(e)
  {
    hide ParseString, ParseValue, IsKey, G.SpellString, G.StringBytes;
    var rest := [COLON] + (after + y);
    NameIsRead(key, rest, depth, max);
    assert rest[1..] == after + y;
    SkipWsOver(after, y);
  }

  // ---------------------------------------------------------------------------------------------
  //  Values and texts
  // ---------------------------------------------------------------------------------------------

  /** Every flaw of a value is reported with its own error, at any depth. */
  lemma {:induction false} FlawIsReported(f: Flaw, depth: nat, max: Limits, e: ErrorType)
    requires IsFlaw(f, depth, max, e) && depth <= max.depth
    ensures SkipWs(Spell(f)) == Spell(f) && ParseValue(Spell(f), depth, max).ErrorCode() == Some(e)
    decreases f
  {
    hide ParseValue, SkipWs, ValueFlaw, ListFlaw, KeyFlaw, ColonFlaw, IsKey, G.SpellString;
    match f
    case NoValue(rest) => ValueFlawIsReported(rest, depth, max, e);
    case AfterItems(items, rest) =>
      AfterItemsIsReported(items, rest, depth, max, e);
      BracketStarts(Spell(f));
    case InItem(items, lead, element) =>
      var inner := if IsFlaw(element, depth + 1, max, e) then e else UnexpectedText;
      FlawIsReported(element, depth + 1, max, inner);
      InItemIsReported(items, lead, Spell(element), depth, max, e);
      BracketStarts(Spell(f));
    case AfterMembers(ms, rest) =>
      AfterMembersIsReported(ms, rest, depth, max, e);
      BracketStarts(Spell(f));
    case NoKey(ms, lead, rest) =>
      KeyFlawIsReported(rest, depth + 1, max, e);
      InEntryIsReported(ms, lead, rest, depth, max, e);
      BracketStarts(Spell(f));
    case AfterKey(ms, key, rest) =>
      ColonFlawIsReported(key, rest, depth + 1, max, e);
      KeyHasWs(key, max);
      InEntryIsReported(ms, key.lead, G.SpellString(key.chars, key.trail + rest), depth, max, e);
      BracketStarts(Spell(f));
    case InMember(ms, key, after, value) =>
      var rest := [COLON] + (after + Spell(value));
      FlawIsReported(value, depth + 1, max, e);
      InMemberIsReported(key, after, Spell(value), depth + 1, max, e);
      KeyHasWs(key, max);
      InEntryIsReported(ms, key.lead, G.SpellString(key.chars, key.trail + rest), depth, max, e);
      BracketStarts(Spell(f));
  }

  lemma BracketStarts(s: Text)
    requires StartsWith(s, LEFT_BRACKET) || StartsWith(s, LEFT_BRACE)
    ensures SkipWs(s) == s
  {
  }

  lemma KeyHasWs(key: Key, max: Limits)
    requires IsKey(key, max)
    ensures G.IsWs(key.lead)
  {
  }

  /** Something behind a value */
  lemma TextAfterValueIsReported(body: Text, max: Limits, lead: Text, v: G.Value, trail: Text, rest: Text)
    requires G.Derives(body, lead, v, trail, rest) && G.Within(v, max) && G.Ends(v, trail + rest)
    requires !AtEof(rest) && !IsWhitespace(rest[0])
    ensures ParseBody(body, max).ErrorCode() == Some(UnexpectedText)
  {
    hide ParseValue, G.Spell, G.Valid, G.Meaning, G.Fits, G.Ends;
    var s := G.Spell(v, trail + rest);
    SpellStarts(v, trail + rest);
    SkipWsOver(lead, s);
    ParseValueOf(v, 0, max, trail + rest);
    SkipWsOver(trail, rest);
    SkipWsTwice(trail + rest);
    assert SkipWs(rest) == rest && SkipWs(After(v, trail + rest)) == rest;
  }

  lemma BodyFlawIsReported(body: Text, max: Limits, e: ErrorType)
    requires BodyFlaw(body, max, e)
    ensures ParseBody(body, max).ErrorCode() == Some(e)
  {
    hide ParseValue, G.Within, G.Ends, IsFlaw, Spell;
    if e == EmptyText && exists ws, end :: G.IsWs(ws) && AtEof(end) && body == ws + end {
      var ws, end :| G.IsWs(ws) && AtEof(end) && body == ws + end;
      SkipWsOver(ws, end);
    } else if ws, f :| G.IsWs(ws) && IsFlaw(f, 0, max, e) && !AtEof(Spell(f)) && body == ws + Spell(f) {
      FlawIsReported(f, 0, max, e);
      SkipWsOver(ws, Spell(f));
    } else {
      var lead, v, trail, rest :| G.Derives(body, lead, v, trail, rest) && G.Within(v, max) && G.Ends(v, trail + rest)
                                  && !AtEof(rest) && !IsWhitespace(rest[0]);
      TextAfterValueIsReported(body, max, lead, v, trail, rest);
    }
  }

  /** Every flaw of a text is reported with its own error. */
  lemma TextFlawIsReported(text: Text, max: Limits, e: ErrorType)
    requires TextFlaw(text, max, e)
    ensures Parse(text, max).ErrorCode() == Some(e)
  {
    hide BodyFlaw, ParseValue;
    if !([0xFE, 0xFF] <= text || [0xFF, 0xFE] <= text) {
      BodyFlawIsReported(SkipBom(text), max, e);
    }
  }

  // ---------------------------------------------------------------------------------------------
  //  Examples from the tests of the repository
  // ---------------------------------------------------------------------------------------------

  lemma FlawedTextIsReported(f: Flaw, max: Limits, e: ErrorType)
    requires IsFlaw(f, 0, max, e) && Spell(f) != [] && NUL < Spell(f)[0] < 0x80
    ensures Parse(Spell(f), max).ErrorCode() == Some(e)
  {
    hide IsFlaw, Spell;
    assert G.IsWs([]) && [] + Spell(f) == Spell(f);
    TextFlawIsReported(Spell(f), max, e);
  }

  lemma OneItem(i: G.Item, max: Limits)
    requires G.ValidItem(i) && G.Valid(i.value) && G.Fits(i.value, max) && G.Depth(i.value) == 0 && 1 <= max.depth
    ensures AreItems([i], 1, max)
  {
    assert [i][1..] == [];
  }

  /** n_array_extra_comma_array */
  lemma ExtraComma(max: Limits)
    requires 1 <= max.depth
    ensures Parse(Ascii("[\"\",]"), max).ErrorCode() == Some(TrailingCommaNotAllowed)
  {
    hide Parse;
    var text := G.Item([], G.Str([]), []);
    var f := AfterItems([text], Ascii(",]"));
    assert Spell(f) == Ascii("[\"\",]");
    assert G.IsWs([]) && Ascii(",]") == [COMMA] + ([] + ([RIGHT_BRACKET] + []));
    assert EndsInComma(Ascii(",]"), RIGHT_BRACKET);
    NoBytes();
    OneItem(text, max);
    FlawedTextIsReported(f, max, TrailingCommaNotAllowed);
  }

  lemma NoBytes()
    ensures G.StringBytes([]) == []
  {
  }

  /** The same array with a space in place of the comma, and something after it */
  lemma NoComma(max: Limits)
    requires 1 <= max.depth
    ensures Parse(Ascii("[\"\" 2]"), max).ErrorCode() == Some(MissingComma)
  {
    hide Parse;
    var text := G.Item([], G.Str([]), Ascii(" "));
    var f := AfterItems([text], Ascii("2]"));
    assert Spell(f) == Ascii("[\"\" 2]");
    NoBytes();
    OneItem(text, max);
    FlawedTextIsReported(f, max, MissingComma);
  }
}
