/** Soundness: what the parser accepts derives from the grammar, is within the limits, and is turned into what the
    grammar makes of it. */
module JsonSoundness {
  import opened Bytes
  import opened JsonBytes
  import opened JsonValues
  import opened JsonParserSpec
  import opened JsonStrings
  import opened JsonNumbers
  import opened JsonCompleteness
  import G = JsonGrammar

  lemma {:induction false} SkipWsSplits(s: Text) returns (ws: Text)
    ensures s == ws + SkipWs(s) && G.IsWs(ws)
  {
    ws := [];
    if IsWhitespace(Cur(s)) {
      var more := SkipWsSplits(s[1..]);
      ws := [s[0]] + more;
      SplitOne(s, more, SkipWs(s[1..]));
    }
  }

  lemma SplitOne(s: Text, a: Text, b: Text)
    requires s != [] && s[1..] == a + b
    ensures s == ([s[0]] + a) + b
  {
    assert s == [s[0]] + s[1..];
  }

  lemma {:induction false} LiteralIsKeyword(s: Text, keyword: Text, literal: JsonValue)
    requires ParseLiteral(s, keyword, literal).Ok?
    ensures s == keyword + ParseLiteral(s, keyword, literal).rest
    ensures ParseLiteral(s, keyword, literal).value == literal
  {
    if keyword != [] {
      LiteralIsKeyword(s[1..], keyword[1..], literal);
      assert s == [s[0]] + s[1..];
    }
  }

  predicate StartsScalar(b: Byte) {
    b != LEFT_BRACE && b != LEFT_BRACKET
  }

  /** A value that is neither an array nor an object, without the whitespace before it. */
  lemma ScalarIsGrammatical(t: Text, depth: nat, max: Limits) returns (v: G.Value)
    requires SkipWs(t) == t && StartsScalar(Cur(t)) && ParseValue(t, depth, max).Ok?
    ensures G.Valid(v) && G.Depth(v) == 0 && G.Fits(v, max)
    ensures G.Meaning(v) == ParseValue(t, depth, max).value
    ensures t == G.Spell(v, ParseValue(t, depth, max).rest) && G.Ends(v, ParseValue(t, depth, max).rest)
  {
    var c := Cur(t);
    if c == QUOTE {
      var cs := StringIsGrammatical(t, max.room);
      v := G.Str(cs);
    } else if StartsNumber(c) {
      var n := NumberIsGrammatical(t, max.buffer);
      v := G.Num(n);
    } else if c == LOWER_T {
      LiteralIsKeyword(t, KEYWORD_TRUE, Boolean(true));
      v := G.TrueName;
    } else if c == LOWER_F {
      LiteralIsKeyword(t, KEYWORD_FALSE, Boolean(false));
      v := G.FalseName;
    } else {
      LiteralIsKeyword(t, KEYWORD_NULL, Null);
      v := G.NullName;
    }
  }

  /** What ValueIsGrammatical finds in a text: a value between whitespace, before a rest that does not continue it. */
  predicate IsDerivation(s: Text, lead: Text, v: G.Value, trail: Text, r: Outcome<JsonValue>, depth: nat, max: Limits) {
    && G.Derives(s, lead, v, trail, r.rest) && G.Ends(v, trail + r.rest)
    && depth + G.Depth(v) <= max.depth && G.Fits(v, max)
    && r.Ok? && r.value == G.Meaning(v)
  }

  lemma {:induction false} ValueIsGrammatical(s: Text, depth: nat, max: Limits)
    returns (lead: Text, v: G.Value, trail: Text)
    requires depth <= max.depth && ParseValue(s, depth, max).Ok?
    ensures IsDerivation(s, lead, v, trail, ParseValue(s, depth, max), depth, max)
    decreases |s|, 2
  {
    hide G.Meaning, G.Spell, G.Valid, G.Depth;
    var r := ParseValue(s, depth, max);
    lead := SkipWsSplits(s);
    var t := SkipWs(s);
    SkipWsTwice(s);
    assert ParseValue(t, depth, max) == r;
    trail := [];
    assert trail + r.rest == r.rest;
    if Cur(t) == LEFT_BRACE {
      v := ObjectIsGrammatical(t, depth, max);
    } else if Cur(t) == LEFT_BRACKET {
      v, trail := ArrayIsGrammatical(t, depth, max);
    } else {
      v := ScalarIsGrammatical(t, depth, max);
    }
  }

  lemma EmptyArrayIsGrammatical(s: Text, depth: nat, max: Limits) returns (v: G.Value, trail: Text)
    requires Cur(s) == LEFT_BRACKET && ParseArray(s, depth, max).Ok?
    requires Cur(SkipWs(s[1..])) == RIGHT_BRACKET
    ensures IsDerivation(s, [], v, trail, ParseArray(s, depth, max), depth, max)
  {
    var gap := SkipWsSplits(s[1..]);
    var t := SkipWs(s[1..]);
    EmptyArrayStep(s, depth, max);
    v := G.EmptyArr(gap);
    trail := SkipWsSplits(t[1..]);
    hide ParseArray, SkipWs;
    EmptyIsSpelled(s, LEFT_BRACKET, gap, t, RIGHT_BRACKET, trail, ParseArray(s, depth, max).rest);
    assert [] + s == s;
  }

  lemma EmptyArrayStep(s: Text, depth: nat, max: Limits)
    requires Cur(s) == LEFT_BRACKET && ParseArray(s, depth, max).Ok?
    requires Cur(SkipWs(s[1..])) == RIGHT_BRACKET
    ensures depth + 1 <= max.depth && ParseArray(s, depth, max) == Ok(Array([]), SkipWs(SkipWs(s[1..])[1..]))
  {
    hide ParseElement;
    var t := SkipWs(s[1..]);
    assert ParseArray(s, depth, max) == ParseElements(t, depth + 1, max, []);
  }

  lemma EmptyIsSpelled(s: Text, open: Byte, gap: Text, t: Text, close: Byte, trail: Text, rest: Text)
    requires s != [] && s[0] == open && s[1..] == gap + t && t != [] && t[0] == close && t[1..] == trail + rest
    ensures s == [open] + (gap + ([close] + (trail + rest)))
  {
    assert t == [close] + t[1..];
    assert s == [open] + s[1..];
  }

  /** How pvt_parse_array reaches its loop. */
  lemma ArrayEntersLoop(s: Text, depth: nat, max: Limits)
    requires Cur(s) == LEFT_BRACKET && ParseArray(s, depth, max).Ok?
    requires Cur(SkipWs(s[1..])) != RIGHT_BRACKET
    ensures depth + 1 <= max.depth
    ensures var p := ParseValue(SkipWs(s[1..]), depth + 1, max);
            p.Ok? && ParseArray(s, depth, max) == ParseElements(SkipWs(p.rest), depth + 1, max, [p.value])
  {
    var t := SkipWs(s[1..]);
    assert ParseArray(s, depth, max) == ParseArrayBody(t, depth + 1, max);
    assert ParseElement(t, depth + 1, max).Ok? ==> ParseElement(t, depth + 1, max) == ParseValue(t, depth + 1, max);
  }

  lemma FitsArr(first: G.Item, more: seq<G.Item>, max: Limits)
    requires G.ValidItem(first) && G.Valid(first.value) && G.ValidItems(more)
    requires G.Fits(first.value, max) && G.ItemsFit(more, max)
    ensures G.Valid(G.Arr(first, more)) && G.Fits(G.Arr(first, more), max)
  {
  }

  lemma AssembleArray(s: Text, first: G.Item, more: seq<G.Item>, trail: Text,
                      r: Outcome<JsonValue>, depth: nat, max: Limits)
    requires Cur(s) == LEFT_BRACKET && G.IsWs(trail) && r.Ok?
    requires G.ValidItem(first) && G.Valid(first.value) && G.ValidItems(more)
    requires var tail := [RIGHT_BRACKET] + (trail + r.rest);
             s[1..] == first.lead + G.Spell(first.value, first.trail + G.SpellMore(more, tail))
    requires depth + 1 + G.Depth(first.value) <= max.depth && depth + 1 + G.ItemsDepth(more) <= max.depth
    requires G.Fits(first.value, max) && G.ItemsFit(more, max)
    requires r.value == Array([G.Meaning(first.value)] + G.ItemMeanings(more))
    ensures IsDerivation(s, [], G.Arr(first, more), trail, r, depth, max)
  {
    hide G.ItemMeanings, G.ItemsDepth, G.SpellMore, G.ValidItems, G.ItemsFit, G.ValidItem, G.Fits;
    var v := G.Arr(first, more);
    FitsArr(first, more, max);
    assert s == [LEFT_BRACKET] + s[1..];
    assert [] + G.Spell(v, trail + r.rest) == G.Spell(v, trail + r.rest);
  }

  lemma {:induction false} ArrayIsGrammatical(s: Text, depth: nat, max: Limits) returns (v: G.Value, trail: Text)
    requires Cur(s) == LEFT_BRACKET && ParseArray(s, depth, max).Ok?
    ensures IsDerivation(s, [], v, trail, ParseArray(s, depth, max), depth, max)
    decreases |s|, 1
  {
    hide IsDerivation, ParseArray, ParseElements, ParseValue, SkipWs, G.Spell, G.SpellMore, G.Depth, G.Fits;
    if Cur(SkipWs(s[1..])) == RIGHT_BRACKET {
      v, trail := EmptyArrayIsGrammatical(s, depth, max);
    } else {
      ArrayEntersLoop(s, depth, max);
      var first, more;
      first, more, trail := LoopIsGrammatical(s[1..], depth + 1, max, ParseArray(s, depth, max));
      AssembleArray(s, first, more, trail, ParseArray(s, depth, max), depth, max);
      v := G.Arr(first, more);
    }
  }

  /** The elements of an array that has some, after the '['. */
  lemma {:induction false} LoopIsGrammatical(s: Text, depth: nat, max: Limits, r: Outcome<JsonValue>)
    returns (first: G.Item, more: seq<G.Item>, trail: Text)
    requires depth <= max.depth && r.Ok?
    requires var p := ParseValue(SkipWs(s), depth, max);
             p.Ok? && r == ParseElements(SkipWs(p.rest), depth, max, [p.value])
    ensures G.IsWs(trail) && G.ValidItem(first) && G.Valid(first.value) && G.ValidItems(more)
    ensures s == first.lead + G.Spell(first.value, first.trail + G.SpellMore(more, [RIGHT_BRACKET] + (trail + r.rest)))
    ensures depth + G.Depth(first.value) <= max.depth && depth + G.ItemsDepth(more) <= max.depth
    ensures G.Fits(first.value, max) && G.ItemsFit(more, max)
    ensures r.value == Array([G.Meaning(first.value)] + G.ItemMeanings(more))
    decreases |s|, 4
  {
    var u: Text;
    first, u := ItemIsGrammatical(s, depth, max);
    more, trail := ElementsAreGrammatical(u, depth, max, [G.Meaning(first.value)]);
  }

  lemma IsWsConcat(a: Text, b: Text)
    requires G.IsWs(a) && G.IsWs(b)
    ensures G.IsWs(a + b)
  {
  }

  /** Whitespace that the parser skips in two steps is one run of whitespace. */
  lemma JoinItem(s: Text, ws1: Text, t: Text, lead: Text, v: G.Value, trail: Text, rest: Text, ws2: Text, u: Text)
    returns (i: G.Item)
    requires s == ws1 + t && G.IsWs(ws1)
    requires G.Derives(t, lead, v, trail, rest)
    requires rest == ws2 + u && G.IsWs(ws2)
    ensures i == G.Item(ws1 + lead, v, trail + ws2) && G.ValidItem(i)
    ensures s == i.lead + G.Spell(v, i.trail + u) && i.trail + u == trail + rest
  {
    hide G.Spell, G.Valid, G.IsWs;
    i := G.Item(ws1 + lead, v, trail + ws2);
    IsWsConcat(ws1, lead);
    IsWsConcat(trail, ws2);
    assert trail + (ws2 + u) == (trail + ws2) + u;
    var x := G.Spell(v, trail + rest);
    assert ws1 + (lead + x) == (ws1 + lead) + x;
  }

  /** An element between whitespace; u is the text at which the parser goes on. */
  lemma {:induction false} ItemIsGrammatical(s: Text, depth: nat, max: Limits) returns (i: G.Item, u: Text)
    requires depth <= max.depth && ParseValue(SkipWs(s), depth, max).Ok?
    ensures u == SkipWs(ParseValue(SkipWs(s), depth, max).rest) && SkipWs(u) == u && |u| < |s|
    ensures G.ValidItem(i) && G.Valid(i.value) && depth + G.Depth(i.value) <= max.depth && G.Fits(i.value, max)
    ensures ParseValue(SkipWs(s), depth, max).value == G.Meaning(i.value)
    ensures s == i.lead + G.Spell(i.value, i.trail + u) && G.Ends(i.value, i.trail + u)
    decreases |s|, 3
  {
    var gap := SkipWsSplits(s);
    var t := SkipWs(s);
    var lead, value, after := ValueIsGrammatical(t, depth, max);
    var rest := ParseValue(t, depth, max).rest;
    var ws := SkipWsSplits(rest);
    u := SkipWs(rest);
    SkipWsTwice(rest);
    i := JoinItem(s, gap, t, lead, value, after, rest, ws, u);
  }

  /** The steps of one turn of the loop of pvt_parse_array. */
  lemma NextElementSteps(s: Text, depth: nat, max: Limits)
    requires SkipWs(s) == s && ParseNextElement(s, depth, max).Ok?
    ensures Cur(s) == COMMA
    ensures var p := ParseValue(SkipWs(s[1..]), depth, max);
            p.Ok? && ParseNextElement(s, depth, max) == Ok(p.value, SkipWs(p.rest))
  {
    hide ParseValue;
  }

  lemma {:induction false} ElementsAreGrammatical(s: Text, depth: nat, max: Limits, acc: seq<JsonValue>)
    returns (items: seq<G.Item>, trail: Text)
    requires depth <= max.depth && SkipWs(s) == s && ParseElements(s, depth, max, acc).Ok?
    ensures G.ValidItems(items) && G.IsWs(trail)
    ensures depth + G.ItemsDepth(items) <= max.depth && G.ItemsFit(items, max)
    ensures var r := ParseElements(s, depth, max, acc);
            && s == G.SpellMore(items, [RIGHT_BRACKET] + (trail + r.rest))
            && r.value == Array(acc + G.ItemMeanings(items))
    decreases |s|, 0
  {
    var r := ParseElements(s, depth, max, acc);
    if Cur(s) == RIGHT_BRACKET {
      items := [];
      trail := SkipWsSplits(s[1..]);
      assert s == [RIGHT_BRACKET] + s[1..];
      assert acc + G.ItemMeanings(items) == acc;
    } else {
      NextElementSteps(s, depth, max);
      var first, u := ItemIsGrammatical(s[1..], depth, max);
      var more;
      more, trail := ElementsAreGrammatical(u, depth, max, acc + [G.Meaning(first.value)]);
      items := [first] + more;
      PrependItem(s, first, more, [RIGHT_BRACKET] + (trail + r.rest), depth, max, acc);
    }
  }

  lemma PrependItem(s: Text, first: G.Item, more: seq<G.Item>, tail: Text, depth: nat, max: Limits, acc: seq<JsonValue>)
    requires G.ValidItem(first) && G.Valid(first.value) && G.ValidItems(more)
    requires Cur(s) == COMMA && s[1..] == first.lead + G.Spell(first.value, first.trail + G.SpellMore(more, tail))
    requires depth + G.Depth(first.value) <= max.depth && depth + G.ItemsDepth(more) <= max.depth
    requires G.Fits(first.value, max) && G.ItemsFit(more, max)
    ensures G.ValidItems([first] + more)
    ensures depth + G.ItemsDepth([first] + more) <= max.depth && G.ItemsFit([first] + more, max)
    ensures s == G.SpellMore([first] + more, tail)
    ensures acc + [G.Meaning(first.value)] + G.ItemMeanings(more) == acc + G.ItemMeanings([first] + more)
  {
    assert ([first] + more)[1..] == more;
    assert s == [COMMA] + s[1..];
  }

  /** What EntryIsGrammatical finds in a text: a member between whitespace, before `rest`. */
  predicate IsMemberDerivation(s: Text, m: G.Member, r: Outcome<Entry>, depth: nat, max: Limits) {
    && G.ValidMember(m) && G.Valid(m.value)
    && s == G.SpellKey(m, G.Spell(m.value, m.trail + r.rest)) && G.Ends(m.value, m.trail + r.rest)
    && depth + G.Depth(m.value) <= max.depth && G.Fits(m.value, max) && |G.StringBytes(m.key)| <= max.room
    && r.Ok? && r.value == Entry(G.StringBytes(m.key), G.Meaning(m.value))
  }

  /** The steps of pvt_parse_one_entry. */
  lemma EntrySteps(s: Text, depth: nat, max: Limits)
    requires ParseEntry(s, depth, max).Ok?
    ensures var t := SkipWs(s);
            && Cur(t) == QUOTE && ParseString(t, max.room).Ok?
            && var u := SkipWs(ParseString(t, max.room).rest);
            && Cur(u) == COLON
            && var p := ParseValue(SkipWs(u[1..]), depth, max);
            && p.Ok? && ParseEntry(s, depth, max) == Ok(Entry(ParseString(t, max.room).value, p.value), p.rest)
  {
  }

  lemma AssembleMember(m: G.Member, s: Text, t: Text, u: Text, x: Text)
    requires s == m.lead + t && t == G.SpellString(m.key, m.before + u)
    requires Cur(u) == COLON && u[1..] == m.after + x
    ensures s == G.SpellKey(m, x)
  {
    assert u == [COLON] + u[1..];
  }

  /** A key and its colon, up to the text at which the value is parsed. */
  lemma KeyIsGrammatical(s: Text, room: nat, value: G.Value, trail: Text) returns (m: G.Member)
    requires var t := SkipWs(s);
             && Cur(t) == QUOTE && ParseString(t, room).Ok?
             && Cur(SkipWs(ParseString(t, room).rest)) == COLON
    requires G.IsWs(trail)
    ensures var t := SkipWs(s);
            var u := SkipWs(ParseString(t, room).rest);
            && G.ValidMember(m) && m.value == value && m.trail == trail
            && G.StringBytes(m.key) == ParseString(t, room).value && |G.StringBytes(m.key)| <= room
            && s == G.SpellKey(m, SkipWs(u[1..]))
  {
    var lead := SkipWsSplits(s);
    var t := SkipWs(s);
    var cs := StringIsGrammatical(t, room);
    var before := SkipWsSplits(ParseString(t, room).rest);
    var u := SkipWs(ParseString(t, room).rest);
    var after := SkipWsSplits(u[1..]);
    m := G.Member(lead, cs, before, after, value, trail);
    AssembleMember(m, s, t, u, SkipWs(u[1..]));
  }

  lemma MoveGap(m: G.Member, gap: Text, x: Text) returns (n: G.Member)
    requires G.ValidMember(m) && G.IsWs(gap)
    ensures n == m.(after := m.after + gap) && G.ValidMember(n)
    ensures G.SpellKey(m, gap + x) == G.SpellKey(n, x)
  {
    n := m.(after := m.after + gap);
    IsWsConcat(m.after, gap);
    assert m.after + (gap + x) == n.after + x;
  }

  lemma {:induction false} EntryIsGrammatical(s: Text, depth: nat, max: Limits) returns (m: G.Member)
    requires depth <= max.depth && ParseEntry(s, depth, max).Ok?
    ensures IsMemberDerivation(s, m, ParseEntry(s, depth, max), depth, max)
    decreases |s|, 3
  {
    EntrySteps(s, depth, max);
    var u := SkipWs(ParseString(SkipWs(s), max.room).rest);
    var w := SkipWs(u[1..]);
    var gap, value, trail := ValueIsGrammatical(w, depth, max);
    var k := KeyIsGrammatical(s, max.room, value, trail);
    m := MoveGap(k, gap, G.Spell(value, trail + ParseValue(w, depth, max).rest));
  }

  lemma EmptyObjectIsGrammatical(s: Text, depth: nat, max: Limits) returns (v: G.Value)
    requires Cur(s) == LEFT_BRACE && ParseObject(s, depth, max).Ok?
    requires Cur(SkipWs(s[1..])) == RIGHT_BRACE
    ensures IsDerivation(s, [], v, [], ParseObject(s, depth, max), depth, max)
  {
    var gap := SkipWsSplits(s[1..]);
    var t := SkipWs(s[1..]);
    EmptyObjectStep(s, depth, max);
    v := G.EmptyObj(gap);
    hide ParseObject, SkipWs;
    assert t[1..] == [] + t[1..];
    EmptyIsSpelled(s, LEFT_BRACE, gap, t, RIGHT_BRACE, [], t[1..]);
    assert [] + s == s;
  }

  lemma EmptyObjectStep(s: Text, depth: nat, max: Limits)
    requires Cur(s) == LEFT_BRACE && ParseObject(s, depth, max).Ok?
    requires Cur(SkipWs(s[1..])) == RIGHT_BRACE
    ensures depth + 1 <= max.depth && ParseObject(s, depth, max) == Ok(Object([]), SkipWs(s[1..])[1..])
  {
    hide ParseEntry;
    assert ParseObject(s, depth, max) == ParseMembers(SkipWs(s[1..]), depth + 1, max, []);
  }

  /** How pvt_parse_object reaches its loop. */
  lemma ObjectEntersLoop(s: Text, depth: nat, max: Limits)
    requires Cur(s) == LEFT_BRACE && ParseObject(s, depth, max).Ok?
    requires Cur(SkipWs(s[1..])) != RIGHT_BRACE
    ensures depth + 1 <= max.depth
    ensures var p := ParseEntry(SkipWs(s[1..]), depth + 1, max);
            p.Ok? && ParseObject(s, depth, max) == ParseMembers(SkipWs(p.rest), depth + 1, max, [p.value])
  {
    assert ParseObject(s, depth, max) == ParseObjectBody(SkipWs(s[1..]), depth + 1, max);
  }

  lemma AssembleObject(s: Text, first: G.Member, others: seq<G.Member>, r: Outcome<JsonValue>, depth: nat, max: Limits)
    requires Cur(s) == LEFT_BRACE && r.Ok?
    requires G.ValidMember(first) && G.Valid(first.value) && G.ValidMembers(others)
    requires var tail := [RIGHT_BRACE] + r.rest;
             s[1..] == G.SpellKey(first, G.Spell(first.value, first.trail + G.SpellOthers(others, tail)))
    requires depth + 1 + G.Depth(first.value) <= max.depth && depth + 1 + G.MembersDepth(others) <= max.depth
    requires |G.StringBytes(first.key)| <= max.room && G.Fits(first.value, max) && G.MembersFit(others, max)
    requires r.value == Object([Entry(G.StringBytes(first.key), G.Meaning(first.value))] + G.MemberMeanings(others))
    ensures IsDerivation(s, [], G.Obj(first, others), [], r, depth, max)
  {
    var v := G.Obj(first, others);
    assert s == [LEFT_BRACE] + s[1..];
    assert [] + r.rest == r.rest;
    assert [] + G.Spell(v, r.rest) == G.Spell(v, r.rest);
  }

  lemma {:induction false} ObjectIsGrammatical(s: Text, depth: nat, max: Limits) returns (v: G.Value)
    requires Cur(s) == LEFT_BRACE && ParseObject(s, depth, max).Ok?
    ensures IsDerivation(s, [], v, [], ParseObject(s, depth, max), depth, max)
    decreases |s|, 1
  {
    hide IsDerivation, ParseObject, ParseEntry, ParseMembers, SkipWs;
    hide G.Spell, G.SpellKey, G.SpellOthers, G.Depth, G.Fits;
    if Cur(SkipWs(s[1..])) == RIGHT_BRACE {
      v := EmptyObjectIsGrammatical(s, depth, max);
    } else {
      ObjectEntersLoop(s, depth, max);
      var first, others := MemberLoopIsGrammatical(s[1..], depth + 1, max, ParseObject(s, depth, max));
      AssembleObject(s, first, others, ParseObject(s, depth, max), depth, max);
      v := G.Obj(first, others);
    }
  }

  /** The members of an object that has some, after the '{'. */
  lemma {:induction false} MemberLoopIsGrammatical(s: Text, depth: nat, max: Limits, r: Outcome<JsonValue>)
    returns (first: G.Member, others: seq<G.Member>)
    requires depth <= max.depth && r.Ok?
    requires var p := ParseEntry(SkipWs(s), depth, max);
             p.Ok? && r == ParseMembers(SkipWs(p.rest), depth, max, [p.value])
    ensures G.ValidMember(first) && G.Valid(first.value) && G.ValidMembers(others)
    ensures s == G.SpellKey(first, G.Spell(first.value, first.trail + G.SpellOthers(others, [RIGHT_BRACE] + r.rest)))
    ensures depth + G.Depth(first.value) <= max.depth && depth + G.MembersDepth(others) <= max.depth
    ensures |G.StringBytes(first.key)| <= max.room && G.Fits(first.value, max) && G.MembersFit(others, max)
    ensures r.value == Object([Entry(G.StringBytes(first.key), G.Meaning(first.value))] + G.MemberMeanings(others))
    decreases |s|, 5
  {
    var u: Text;
    first, u := MemberIsGrammatical(s, depth, max);
    others := MembersAreGrammatical(u, depth, max, [Entry(G.StringBytes(first.key), G.Meaning(first.value))]);
  }

  lemma JoinMember(s: Text, ws1: Text, t: Text, m: G.Member, rest: Text, ws2: Text, u: Text) returns (n: G.Member)
    requires s == ws1 + t && G.IsWs(ws1)
    requires G.ValidMember(m) && t == G.SpellKey(m, G.Spell(m.value, m.trail + rest))
    requires rest == ws2 + u && G.IsWs(ws2)
    ensures n == m.(lead := ws1 + m.lead, trail := m.trail + ws2) && G.ValidMember(n)
    ensures s == G.SpellKey(n, G.Spell(n.value, n.trail + u)) && n.trail + u == m.trail + rest
  {
    n := m.(lead := ws1 + m.lead, trail := m.trail + ws2);
    IsWsConcat(ws1, m.lead);
    IsWsConcat(m.trail, ws2);
    assert m.trail + rest == n.trail + u;
    var x := G.SpellString(m.key, m.before + ([COLON] + (m.after + G.Spell(m.value, n.trail + u))));
    assert s == ws1 + (m.lead + x) && s == n.lead + x;
  }

  /** A member between whitespace; u is the text at which the parser goes on. */
  lemma {:induction false} MemberIsGrammatical(s: Text, depth: nat, max: Limits) returns (m: G.Member, u: Text)
    requires depth <= max.depth && ParseEntry(SkipWs(s), depth, max).Ok?
    ensures u == SkipWs(ParseEntry(SkipWs(s), depth, max).rest) && SkipWs(u) == u && |u| < |s|
    ensures G.ValidMember(m) && G.Valid(m.value) && depth + G.Depth(m.value) <= max.depth
    ensures |G.StringBytes(m.key)| <= max.room && G.Fits(m.value, max)
    ensures ParseEntry(SkipWs(s), depth, max).value == Entry(G.StringBytes(m.key), G.Meaning(m.value))
    ensures s == G.SpellKey(m, G.Spell(m.value, m.trail + u)) && G.Ends(m.value, m.trail + u)
    decreases |s|, 4
  {
    var gap := SkipWsSplits(s);
    var t := SkipWs(s);
    var n := EntryIsGrammatical(t, depth, max);
    var rest := ParseEntry(t, depth, max).rest;
    var ws := SkipWsSplits(rest);
    u := SkipWs(rest);
    SkipWsTwice(rest);
    m := JoinMember(s, gap, t, n, rest, ws, u);
  }

  /** The steps of one turn of the loop of pvt_parse_object. */
  lemma NextEntrySteps(s: Text, depth: nat, max: Limits)
    requires SkipWs(s) == s && ParseNextEntry(s, depth, max).Ok?
    ensures Cur(s) == COMMA
    ensures var p := ParseEntry(SkipWs(s[1..]), depth, max);
            p.Ok? && ParseNextEntry(s, depth, max) == Ok(p.value, SkipWs(p.rest))
  {
    hide ParseEntry;
  }

  lemma {:induction false} MembersAreGrammatical(s: Text, depth: nat, max: Limits, acc: seq<Entry>)
    returns (ms: seq<G.Member>)
    requires depth <= max.depth && SkipWs(s) == s && ParseMembers(s, depth, max, acc).Ok?
    ensures G.ValidMembers(ms)
    ensures depth + G.MembersDepth(ms) <= max.depth && G.MembersFit(ms, max)
    ensures var r := ParseMembers(s, depth, max, acc);
            && s == G.SpellOthers(ms, [RIGHT_BRACE] + r.rest)
            && r.value == Object(acc + G.MemberMeanings(ms))
    decreases |s|, 0
  {
    var r := ParseMembers(s, depth, max, acc);
    if Cur(s) == RIGHT_BRACE {
      ms := [];
      assert s == [RIGHT_BRACE] + s[1..];
      assert acc + G.MemberMeanings(ms) == acc;
    } else {
      NextEntrySteps(s, depth, max);
      var first, u := MemberIsGrammatical(s[1..], depth, max);
      var entry := Entry(G.StringBytes(first.key), G.Meaning(first.value));
      var more := MembersAreGrammatical(u, depth, max, acc + [entry]);
      ms := [first] + more;
      PrependMember(s, first, more, [RIGHT_BRACE] + r.rest, depth, max, acc);
    }
  }

  lemma PrependMember(s: Text, first: G.Member, more: seq<G.Member>, tail: Text, depth: nat, max: Limits,
                      acc: seq<Entry>)
    requires G.ValidMember(first) && G.Valid(first.value) && G.ValidMembers(more)
    requires Cur(s) == COMMA
    requires s[1..] == G.SpellKey(first, G.Spell(first.value, first.trail + G.SpellOthers(more, tail)))
    requires depth + G.Depth(first.value) <= max.depth && depth + G.MembersDepth(more) <= max.depth
    requires |G.StringBytes(first.key)| <= max.room && G.Fits(first.value, max) && G.MembersFit(more, max)
    ensures G.ValidMembers([first] + more)
    ensures depth + G.MembersDepth([first] + more) <= max.depth && G.MembersFit([first] + more, max)
    ensures s == G.SpellOthers([first] + more, tail)
    ensures acc + [Entry(G.StringBytes(first.key), G.Meaning(first.value))] + G.MemberMeanings(more)
            == acc + G.MemberMeanings([first] + more)
  {
    assert ([first] + more)[1..] == more;
    assert s == [COMMA] + s[1..];
  }
}
