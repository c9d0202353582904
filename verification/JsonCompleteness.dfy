/** Completeness: every value of the grammar within the limits of the parser is parsed into its meaning, and the
    text after it is left. */
module JsonCompleteness {
  import opened Bytes
  import opened JsonBytes
  import opened JsonValues
  import opened JsonParserSpec
  import opened JsonStrings
  import opened JsonNumbers
  import G = JsonGrammar

  lemma {:induction false} SkipWsOver(ws: Text, rest: Text)
    requires G.IsWs(ws)
    ensures SkipWs(ws + rest) == SkipWs(rest)
  {
    if ws == [] {
      assert ws + rest == rest;
    } else {
      assert (ws + rest)[1..] == ws[1..] + rest;
      SkipWsOver(ws[1..], rest);
    }
  }

  lemma SkipWsTwice(s: Text)
    ensures SkipWs(SkipWs(s)) == SkipWs(s)
  {
  }

  /** What a value leaves of the text after it: an array also consumes the whitespace that follows. */
  function After(v: G.Value, rest: Text): Text {
    if v.EmptyArr? || v.Arr? then SkipWs(rest) else rest
  }

  /** What a value starts with. */
  lemma SpellStarts(v: G.Value, rest: Text)
    requires G.Valid(v)
    ensures var c := Cur(G.Spell(v, rest));
            && !IsWhitespace(c) && c != NUL && c != EOF_BYTE
            && c != RIGHT_BRACKET && c != RIGHT_BRACE
    ensures v.Num? ==> StartsNumber(Cur(G.Spell(v, rest))) && Cur(G.Spell(v, rest)) != POINT
  {
  }

  lemma MoreStarts(ws: Text, items: seq<G.Item>, tail: Text)
    requires G.IsWs(ws)
    ensures var s := G.SpellMore(items, tail);
            && SkipWs(ws + s) == SkipWs(s)
            && (items == [] ==> s == tail) && (items != [] ==> SkipWs(s) == s && EndsNumber(ws + s))
  {
    var s := G.SpellMore(items, tail);
    SkipWsOver(ws, s);
    assert ws == [] ==> ws + s == s;
  }

  lemma OthersStart(ws: Text, ms: seq<G.Member>, tail: Text)
    requires G.IsWs(ws)
    ensures var s := G.SpellOthers(ms, tail);
            && SkipWs(ws + s) == SkipWs(s)
            && (ms == [] ==> s == tail) && (ms != [] ==> SkipWs(s) == s && EndsNumber(ws + s))
  {
    var s := G.SpellOthers(ms, tail);
    SkipWsOver(ws, s);
    assert ws == [] ==> ws + s == s;
  }

  /** A closing bracket continues nothing. */
  lemma CloseStarts(close: Byte, rest: Text, ws: Text)
    requires close == RIGHT_BRACKET || close == RIGHT_BRACE
    requires G.IsWs(ws)
    ensures SkipWs([close] + rest) == [close] + rest && EndsNumber(ws + ([close] + rest))
    ensures ([close] + rest)[1..] == rest
  {
    assert ws == [] ==> ws + ([close] + rest) == [close] + rest;
  }

  lemma {:induction false} ParseLiteralOf(keyword: Text, literal: JsonValue, rest: Text)
    requires NulFree(keyword)
    ensures ParseLiteral(keyword + rest, keyword, literal) == Ok(literal, rest)
  {
    if keyword == [] {
      assert keyword + rest == rest;
    } else {
      assert (keyword + rest)[1..] == keyword[1..] + rest;
      ParseLiteralOf(keyword[1..], literal, rest);
    }
  }

  /** A value that needs no recursion. */
  lemma ParseScalarOf(v: G.Value, depth: nat, max: Limits, rest: Text)
    requires G.Valid(v) && G.Fits(v, max) && G.Ends(v, rest)
    requires v.NullName? || v.TrueName? || v.FalseName? || v.Num? || v.Str?
    ensures ParseValue(G.Spell(v, rest), depth, max) == Ok(G.Meaning(v), rest)
  {
    hide ParseNumber, ParseString, ParseLiteral, ParseArray, ParseObject, G.StringBytes, G.SpellNumber, G.SpellChars;
    hide G.NumberMeaning, G.ValidNumber, G.ValidChars, G.EndsAfter;
    SpellStarts(v, rest);
    match v
    case NullName => ParseLiteralOf(KEYWORD_NULL, Null, rest);
    case TrueName => ParseLiteralOf(KEYWORD_TRUE, Boolean(true), rest);
    case FalseName => ParseLiteralOf(KEYWORD_FALSE, Boolean(false), rest);
    case Num(n) => ParseNumberOf(n, rest, max.buffer);
    case Str(cs) => ParseStringOf(cs, rest, max.room);
  }

  /** Whitespace before a value makes no difference. */
  lemma ParseValueAfterWs(lead: Text, v: G.Value, depth: nat, max: Limits, rest: Text)
    requires G.IsWs(lead) && G.Valid(v)
    ensures SkipWs(lead + G.Spell(v, rest)) == G.Spell(v, rest)
    ensures ParseValue(lead + G.Spell(v, rest), depth, max) == ParseValue(G.Spell(v, rest), depth, max)
  {
    var t := G.Spell(v, rest);
    SpellStarts(v, rest);
    SkipWsOver(lead, t);
  }

  lemma {:induction false} ParseValueOf(v: G.Value, depth: nat, max: Limits, rest: Text)
    requires G.Valid(v) && G.Fits(v, max) && depth + G.Depth(v) <= max.depth && G.Ends(v, rest)
    ensures ParseValue(G.Spell(v, rest), depth, max) == Ok(G.Meaning(v), After(v, rest))
    decreases v
  {
    hide ParseValue, ParseElements, ParseMembers, G.EndsItems, G.EndsMembers, G.Ends, EndsNumber, SkipWs;
    match v
    case EmptyArr(gap) => ParseEmptyArr(gap, depth, max, rest);
    case Arr(first, more) =>
      var tail := [RIGHT_BRACKET] + rest;
      CloseStarts(RIGHT_BRACKET, rest, first.trail);
      MoreStarts(first.trail, more, tail);
      NumberEnds(first.value, first.trail + G.SpellMore(more, tail));
      ParseValueOf(first.value, depth + 1, max, first.trail + G.SpellMore(more, tail));
      LastEndsAtClose(more, RIGHT_BRACKET, rest);
      ParseElementsOf(more, depth + 1, max, tail, [G.Meaning(first.value)]);
      ParseArrOf(first, more, depth, max, tail);
      ArrayEnds(depth + 1, max, rest, [G.Meaning(first.value)] + G.ItemMeanings(more));
    case EmptyObj(gap) => ParseEmptyObj(gap, depth, max, rest);
    case Obj(m, others) =>
      var tail := [RIGHT_BRACE] + rest;
      CloseStarts(RIGHT_BRACE, rest, m.trail);
      OthersStart(m.trail, others, tail);
      NumberEnds(m.value, m.trail + G.SpellOthers(others, tail));
      ParseValueOf(m.value, depth + 1, max, m.trail + G.SpellOthers(others, tail));
      LastMemberEndsAtClose(others, RIGHT_BRACE, rest);
      ParseMembersOf(others, depth + 1, max, tail, [Entry(G.StringBytes(m.key), G.Meaning(m.value))]);
      ParseObjOf(m, others, depth, max, tail);
      ObjectEnds(depth + 1, max, rest, [Entry(G.StringBytes(m.key), G.Meaning(m.value))] + G.MemberMeanings(others));
    case _ => ParseScalarOf(v, depth, max, rest);
  }

  lemma NumberEnds(v: G.Value, rest: Text)
    requires EndsNumber(rest)
    ensures G.Ends(v, rest)
  {
  }

  lemma ArrayEnds(depth: nat, max: Limits, rest: Text, acc: seq<JsonValue>)
    ensures var tail := [RIGHT_BRACKET] + rest;
            ParseElements(SkipWs(tail), depth, max, acc) == Ok(Array(acc), SkipWs(rest))
  {
    assert ([RIGHT_BRACKET] + rest)[1..] == rest;
  }

  lemma ObjectEnds(depth: nat, max: Limits, rest: Text, acc: seq<Entry>)
    ensures var tail := [RIGHT_BRACE] + rest;
            ParseMembers(SkipWs(tail), depth, max, acc) == Ok(Object(acc), rest)
  {
    assert ([RIGHT_BRACE] + rest)[1..] == rest;
  }

  lemma {:induction false} LastEndsAtClose(items: seq<G.Item>, close: Byte, rest: Text)
    requires G.ValidItems(items) && (close == RIGHT_BRACKET || close == RIGHT_BRACE)
    ensures G.EndsItems(items, [close] + rest)
  {
    if |items| == 1 {
      CloseStarts(close, rest, items[0].trail);
    } else if items != [] {
      LastEndsAtClose(items[1..], close, rest);
    }
  }

  lemma {:induction false} LastMemberEndsAtClose(ms: seq<G.Member>, close: Byte, rest: Text)
    requires G.ValidMembers(ms) && (close == RIGHT_BRACKET || close == RIGHT_BRACE)
    ensures G.EndsMembers(ms, [close] + rest)
  {
    if |ms| == 1 {
      CloseStarts(close, rest, ms[0].trail);
    } else if ms != [] {
      LastMemberEndsAtClose(ms[1..], close, rest);
    }
  }

  lemma ParseEmptyArr(gap: Text, depth: nat, max: Limits, rest: Text)
    requires G.IsWs(gap) && depth + 1 <= max.depth
    ensures ParseValue(G.Spell(G.EmptyArr(gap), rest), depth, max) == Ok(Array([]), SkipWs(rest))
  {
    var s := G.Spell(G.EmptyArr(gap), rest);
    var t := [RIGHT_BRACKET] + rest;
    assert s[1..] == gap + t && t[1..] == rest;
    SkipWsOver(gap, t);
    assert SkipWs(s) == s && SkipWs(t) == t;
    assert ParseValue(s, depth, max) == ParseArray(s, depth, max);
    assert ParseArray(s, depth, max) == ParseElements(t, depth + 1, max, []);
  }

  lemma ParseEmptyObj(gap: Text, depth: nat, max: Limits, rest: Text)
    requires G.IsWs(gap) && depth + 1 <= max.depth
    ensures ParseValue(G.Spell(G.EmptyObj(gap), rest), depth, max) == Ok(Object([]), rest)
  {
    var s := G.Spell(G.EmptyObj(gap), rest);
    var t := [RIGHT_BRACE] + rest;
    assert s[1..] == gap + t && t[1..] == rest;
    SkipWsOver(gap, t);
    assert SkipWs(s) == s && SkipWs(t) == t;
    assert ParseValue(s, depth, max) == ParseObject(s, depth, max);
    assert ParseObject(s, depth, max) == ParseMembers(t, depth + 1, max, []);
  }

  /** From the first element and the loop to the array, whatever comes then. */
  lemma ParseArrOf(first: G.Item, more: seq<G.Item>, depth: nat, max: Limits, tail: Text)
    requires G.ValidItem(first) && G.Valid(first.value) && G.ValidItems(more) && depth + 1 <= max.depth
    requires var x := first.trail + G.SpellMore(more, tail);
             ParseValue(G.Spell(first.value, x), depth + 1, max) == Ok(G.Meaning(first.value), After(first.value, x))
    requires ParseElements(SkipWs(G.SpellMore(more, tail)), depth + 1, max, [G.Meaning(first.value)])
             == ParseElements(SkipWs(tail), depth + 1, max, [G.Meaning(first.value)] + G.ItemMeanings(more))
    ensures var x := first.trail + G.SpellMore(more, tail);
            ParseValue([LEFT_BRACKET] + (first.lead + G.Spell(first.value, x)), depth, max)
            == ParseElements(SkipWs(tail), depth + 1, max, [G.Meaning(first.value)] + G.ItemMeanings(more))
  {
    hide ParseElements, G.Meaning, G.ItemMeanings, G.Spell;
    var x := first.trail + G.SpellMore(more, tail);
    var t := G.Spell(first.value, x);
    var s := [LEFT_BRACKET] + (first.lead + t);
    assert s[1..] == first.lead + t;
    ParseFirstElement(first, depth + 1, max, x);
    MoreStarts(first.trail, more, tail);
    ArrayReachesBody(s, depth, max);
  }

  lemma ArrayReachesBody(s: Text, depth: nat, max: Limits)
    requires Cur(s) == LEFT_BRACKET && depth + 1 <= max.depth
    ensures ParseValue(s, depth, max) == ParseArrayBody(SkipWs(s[1..]), depth + 1, max)
  {
    hide ParseArrayBody;
    assert SkipWs(s) == s;
  }

  lemma ObjectReachesBody(s: Text, depth: nat, max: Limits)
    requires Cur(s) == LEFT_BRACE && depth + 1 <= max.depth
    ensures ParseValue(s, depth, max) == ParseObjectBody(SkipWs(s[1..]), depth + 1, max)
  {
    hide ParseObjectBody;
    assert SkipWs(s) == s;
  }

  /** The element before the loop of pvt_parse_array. */
  lemma ParseFirstElement(first: G.Item, depth: nat, max: Limits, x: Text)
    requires G.ValidItem(first) && G.Valid(first.value)
    requires ParseValue(G.Spell(first.value, x), depth, max) == Ok(G.Meaning(first.value), After(first.value, x))
    ensures SkipWs(first.lead + G.Spell(first.value, x)) == G.Spell(first.value, x)
    ensures ParseArrayBody(G.Spell(first.value, x), depth, max)
         == ParseElements(SkipWs(x), depth, max, [G.Meaning(first.value)])
  {
    hide ParseElements, G.Meaning;
    ParseValueAfterWs(first.lead, first.value, depth, max, x);
    SpellStarts(first.value, x);
    SkipWsTwice(x);
  }

  /** The loop of pvt_parse_array over elements with their commas, whatever comes then. */
  lemma {:induction false} ParseElementsOf(items: seq<G.Item>, depth: nat, max: Limits, tail: Text, acc: seq<JsonValue>)
    requires G.ValidItems(items) && G.ItemsFit(items, max) && depth + G.ItemsDepth(items) <= max.depth
    requires G.EndsItems(items, tail)
    ensures ParseElements(SkipWs(G.SpellMore(items, tail)), depth, max, acc)
            == ParseElements(SkipWs(tail), depth, max, acc + G.ItemMeanings(items))
    decreases items
  {
    if items == [] {
      assert acc + G.ItemMeanings(items) == acc;
    } else {
      var i, more := items[0], items[1..];
      MoreStarts(i.trail, more, tail);
      ParseValueOf(i.value, depth, max, i.trail + G.SpellMore(more, tail));
      ParseElementsOf(more, depth, max, tail, acc + [G.Meaning(i.value)]);
      assert acc + [G.Meaning(i.value)] + G.ItemMeanings(more) == acc + G.ItemMeanings(items);
      ParseOneElement(i, depth, max, i.trail + G.SpellMore(more, tail), acc);
    }
  }

  /** One turn of the loop of pvt_parse_array. */
  lemma ParseOneElement(i: G.Item, depth: nat, max: Limits, x: Text, acc: seq<JsonValue>)
    requires G.ValidItem(i) && G.Valid(i.value)
    requires ParseValue(G.Spell(i.value, x), depth, max) == Ok(G.Meaning(i.value), After(i.value, x))
    ensures ParseElements([COMMA] + (i.lead + G.Spell(i.value, x)), depth, max, acc)
         == ParseElements(SkipWs(x), depth, max, acc + [G.Meaning(i.value)])
  {
    hide ParseValue, G.Spell, G.Meaning;
    var t := G.Spell(i.value, x);
    var s := [COMMA] + (i.lead + t);
    assert s[1..] == i.lead + t;
    ParseValueAfterWs(i.lead, i.value, depth, max, x);
    SpellStarts(i.value, x);
    SkipWsTwice(x);
    assert ParseComma(s, RIGHT_BRACKET) == Ok((), t);
    assert ParseNextElement(s, depth, max) == Ok(G.Meaning(i.value), SkipWs(x));
  }

  /** A key, its colon and its value. */
  lemma ParseEntryOf(m: G.Member, depth: nat, max: Limits, x: Text)
    requires G.ValidMember(m) && G.Valid(m.value) && |G.StringBytes(m.key)| <= max.room
    requires ParseValue(G.Spell(m.value, x), depth, max) == Ok(G.Meaning(m.value), After(m.value, x))
    ensures ParseEntry(G.SpellKey(m, G.Spell(m.value, x)), depth, max)
            == Ok(Entry(G.StringBytes(m.key), G.Meaning(m.value)), After(m.value, x))
    ensures var t := SkipWs(G.SpellKey(m, G.Spell(m.value, x)));
            Cur(t) == QUOTE && ParseEntry(t, depth, max) == ParseEntry(G.SpellKey(m, G.Spell(m.value, x)), depth, max)
  {
    var value := G.Spell(m.value, x);
    var w := [COLON] + (m.after + value);
    var t := G.SpellString(m.key, m.before + w);
    SkipWsOver(m.lead, t);
    assert SkipWs(t) == t;
    ParseStringOf(m.key, m.before + w, max.room);
    SkipWsOver(m.before, w);
    assert SkipWs(w) == w;
    assert w[1..] == m.after + value;
    ParseValueAfterWs(m.after, m.value, depth, max, x);
    SpellStarts(m.value, x);
  }

  /** From the first entry and the loop to the object, whatever comes then. */
  lemma ParseObjOf(m: G.Member, others: seq<G.Member>, depth: nat, max: Limits, tail: Text)
    requires G.ValidMember(m) && G.Valid(m.value) && G.ValidMembers(others)
    requires |G.StringBytes(m.key)| <= max.room && depth + 1 <= max.depth
    requires var x := m.trail + G.SpellOthers(others, tail);
             ParseValue(G.Spell(m.value, x), depth + 1, max) == Ok(G.Meaning(m.value), After(m.value, x))
    requires var first := Entry(G.StringBytes(m.key), G.Meaning(m.value));
             ParseMembers(SkipWs(G.SpellOthers(others, tail)), depth + 1, max, [first])
             == ParseMembers(SkipWs(tail), depth + 1, max, [first] + G.MemberMeanings(others))
    ensures var first := Entry(G.StringBytes(m.key), G.Meaning(m.value));
            var x := m.trail + G.SpellOthers(others, tail);
            ParseValue([LEFT_BRACE] + G.SpellKey(m, G.Spell(m.value, x)), depth, max)
            == ParseMembers(SkipWs(tail), depth + 1, max, [first] + G.MemberMeanings(others))
  {
    hide ParseMembers, G.Meaning, G.MemberMeanings, G.Spell, G.StringBytes, G.SpellKey;
    var x := m.trail + G.SpellOthers(others, tail);
    var t := G.SpellKey(m, G.Spell(m.value, x));
    var s := [LEFT_BRACE] + t;
    assert s[1..] == t;
    ParseFirstEntry(m, depth + 1, max, x);
    OthersStart(m.trail, others, tail);
    ObjectReachesBody(s, depth, max);
  }

  /** The entry before the loop of pvt_parse_object. */
  lemma ParseFirstEntry(m: G.Member, depth: nat, max: Limits, x: Text)
    requires G.ValidMember(m) && G.Valid(m.value) && |G.StringBytes(m.key)| <= max.room
    requires ParseValue(G.Spell(m.value, x), depth, max) == Ok(G.Meaning(m.value), After(m.value, x))
    ensures ParseObjectBody(SkipWs(G.SpellKey(m, G.Spell(m.value, x))), depth, max)
         == ParseMembers(SkipWs(x), depth, max, [Entry(G.StringBytes(m.key), G.Meaning(m.value))])
  {
    hide ParseMembers, ParseEntry, G.Meaning, G.StringBytes, G.SpellKey, G.Spell;
    ParseEntryOf(m, depth, max, x);
    SkipWsTwice(x);
  }

  /** The loop of pvt_parse_object over entries with their commas, whatever comes then. */
  lemma {:induction false} ParseMembersOf(ms: seq<G.Member>, depth: nat, max: Limits, tail: Text, acc: seq<Entry>)
    requires G.ValidMembers(ms) && G.MembersFit(ms, max) && depth + G.MembersDepth(ms) <= max.depth
    requires G.EndsMembers(ms, tail)
    ensures ParseMembers(SkipWs(G.SpellOthers(ms, tail)), depth, max, acc)
            == ParseMembers(SkipWs(tail), depth, max, acc + G.MemberMeanings(ms))
    decreases ms
  {
    if ms == [] {
      assert acc + G.MemberMeanings(ms) == acc;
    } else {
      var m, more := ms[0], ms[1..];
      var entry := Entry(G.StringBytes(m.key), G.Meaning(m.value));
      OthersStart(m.trail, more, tail);
      ParseValueOf(m.value, depth, max, m.trail + G.SpellOthers(more, tail));
      ParseMembersOf(more, depth, max, tail, acc + [entry]);
      assert acc + [entry] + G.MemberMeanings(more) == acc + G.MemberMeanings(ms);
      ParseOneEntry(m, depth, max, m.trail + G.SpellOthers(more, tail), acc);
    }
  }

  /** One turn of the loop of pvt_parse_object. */
  lemma ParseOneEntry(m: G.Member, depth: nat, max: Limits, x: Text, acc: seq<Entry>)
    requires G.ValidMember(m) && G.Valid(m.value) && |G.StringBytes(m.key)| <= max.room
    requires ParseValue(G.Spell(m.value, x), depth, max) == Ok(G.Meaning(m.value), After(m.value, x))
    ensures ParseMembers([COMMA] + G.SpellKey(m, G.Spell(m.value, x)), depth, max, acc)
         == ParseMembers(SkipWs(x), depth, max, acc + [Entry(G.StringBytes(m.key), G.Meaning(m.value))])
  {
    hide ParseEntry, G.Meaning, G.StringBytes, G.SpellKey, G.Spell;
    var t := G.SpellKey(m, G.Spell(m.value, x));
    var s := [COMMA] + t;
    assert s[1..] == t;
    ParseEntryOf(m, depth, max, x);
    SkipWsTwice(x);
    assert ParseComma(s, RIGHT_BRACE) == Ok((), SkipWs(t));
    assert ParseNextEntry(s, depth, max) == Ok(Entry(G.StringBytes(m.key), G.Meaning(m.value)), SkipWs(x));
  }
}
