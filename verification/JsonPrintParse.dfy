/** Which values survive printing and parsing: a printed value is read back as itself exactly when all its strings
    are well-formed and free of NUL, all its keys are clean, and it is within the limits of the parser. */
module JsonPrintParse {
  import opened Bytes
  import opened JsonBytes
  import opened JsonValues
  import opened JsonParserSpec
  import opened JsonPrinterSpec
  import opened JsonRoundTrip
  import opened JsonNumbers
  import opened JsonCompleteness
  import opened JsonLanguage
  import opened StringBuilders
  import opened Wrappers
  import JsonKeys
  import JsonScratch
  import JsonSoundness
  import JsonParser
  import JsonPrinter
  import G = JsonGrammar

  // ---------------------------------------------------------------------------------------------
  //  Printable values are read back
  // ---------------------------------------------------------------------------------------------

  /** What the parser leaves of the text after a value */
  function Left(v: JsonValue, rest: Text): Text {
    if v.Array? then SkipWs(rest) else rest
  }

  lemma ValueRoundTrip(v: JsonValue, l: Layout, level: nat, depth: nat, max: Limits, rest: Text)
    requires Printable(v) && NoDoubles(v) && depth + Nesting(v) <= max.depth && HasRoom(v, max) && EndsNumber(rest)
    ensures ParseValue(Print(v, l, level) + rest, depth, max) == Ok(v, Left(v, rest))
  {
    TreeDenotes(v, l, level, max);
    PrintedIsSpelled(v, l, level, rest);
    ParseValueOf(Tree(v, l, level), depth, max, rest);
  }

  /** The values that survive printing and parsing within the limits */
  predicate Survives(v: JsonValue, max: Limits) {
    Printable(v) && Nesting(v) <= max.depth && HasShortTexts(v, max.room)
  }

  lemma TextRoundTrip(v: JsonValue, l: Layout, max: Limits)
    requires NoDoubles(v) && Survives(v, max) && LONG_DIGITS < max.buffer
    ensures Parse(Print(v, l, 0), max) == Ok(v, [])
  {
    var text, tree := Print(v, l, 0), Tree(v, l, 0);
    TreeDenotes(v, l, 0, max);
    PrintedIsSpelled(v, l, 0, []);
    assert text + [] == text && [] + G.Spell(tree, []) == G.Spell(tree, []);
    assert Accepted(text, max, [], tree, [], []);
    DerivedTextStarts(text, [], tree, [], []);
    AcceptedTextsAreParsed(text, max, [], tree, [], []);
  }

  // ---------------------------------------------------------------------------------------------
  //  What the parser returns
  // ---------------------------------------------------------------------------------------------

  /** Every string and every key is well-formed UTF-8 without NUL. */
  predicate HasGoodTexts(v: JsonValue) {
    match v
    case String(t) => PrintableText(t)
    case Array(es) => forall i :: 0 <= i < |es| ==> HasGoodTexts(es[i])
    case Object(es) => forall i :: 0 <= i < |es| ==> PrintableText(es[i].key) && HasGoodTexts(es[i].value)
    case _ => true
  }

  lemma BytesAreGood(cs: seq<G.StrChar>)
    requires G.ValidChars(cs)
    ensures PrintableText(G.StringBytes(cs))
  {
    G.EncodedNonZero(G.NonZero(G.CharScalars(cs)));
  }

  lemma {:induction false} MeaningIsGood(t: G.Value, max: Limits)
    requires G.Valid(t) && G.Fits(t, max)
    ensures HasGoodTexts(G.Meaning(t)) && HasShortTexts(G.Meaning(t), max.room)
    ensures Nesting(G.Meaning(t)) == G.Depth(t)
    decreases t
  {
    hide PrintableText, G.StringBytes, HasGoodTexts, HasShortTexts, Nesting, ElementsNesting, EntriesNesting;
    match t
    case Arr(first, more) =>
      MeaningIsGood(first.value, max);
      ItemMeaningsAreGood(more, max);
      ArrayIsGood(G.Meaning(first.value), G.ItemMeanings(more), max);
    case Obj(m, others) =>
      MeaningIsGood(m.value, max);
      MemberMeaningsAreGood(others, max);
      BytesAreGood(m.key);
      ObjectIsGood(Entry(G.StringBytes(m.key), G.Meaning(m.value)), G.MemberMeanings(others), max);
    case _ => LeafIsGood(t, max);
  }

  lemma LeafIsGood(t: G.Value, max: Limits)
    requires G.Valid(t) && G.Fits(t, max) && !t.Arr? && !t.Obj?
    ensures HasGoodTexts(G.Meaning(t)) && HasShortTexts(G.Meaning(t), max.room)
    ensures Nesting(G.Meaning(t)) == G.Depth(t)
  {
    hide PrintableText, G.StringBytes, G.NumberMeaning;
    match t
    case Str(cs) => BytesAreGood(cs);
    case Num(n) => NumberIsScalar(n);
    case _ =>
  }

  lemma NumberIsScalar(n: G.Number)
    requires G.ValidNumber(n)
    ensures G.NumberMeaning(n).Long? || G.NumberMeaning(n).Double?
  {
  }

  /** What the meanings of the elements of an array have in common */
  predicate AreGood(vs: seq<JsonValue>, max: Limits) {
    forall i :: 0 <= i < |vs| ==> HasGoodTexts(vs[i]) && HasShortTexts(vs[i], max.room)
  }

  /** The same for the entries of an object */
  predicate AreGoodEntries(es: seq<Entry>, max: Limits) {
    forall i :: 0 <= i < |es| ==>
      && PrintableText(es[i].key) && |es[i].key| <= max.room
      && HasGoodTexts(es[i].value) && HasShortTexts(es[i].value, max.room)
  }

  lemma ArrayIsGood(v: JsonValue, vs: seq<JsonValue>, max: Limits)
    requires HasGoodTexts(v) && HasShortTexts(v, max.room) && AreGood(vs, max)
    ensures var a := Array([v] + vs);
            && HasGoodTexts(a) && HasShortTexts(a, max.room)
            && Nesting(a) == 1 + Max(Nesting(v), ElementsNesting(vs))
  {
    hide PrintableText;
    PrependNesting(v, vs);
  }

  lemma ObjectIsGood(e: Entry, es: seq<Entry>, max: Limits)
    requires AreGoodEntries([e], max) && AreGoodEntries(es, max)
    ensures var o := Object([e] + es);
            && HasGoodTexts(o) && HasShortTexts(o, max.room)
            && Nesting(o) == 1 + Max(Nesting(e.value), EntriesNesting(es))
  {
    hide PrintableText;
    assert [e][0] == e;
    PrependEntryNesting(e, es);
  }

  lemma PrependNesting(v: JsonValue, vs: seq<JsonValue>)
    ensures ElementsNesting([v] + vs) == Max(Nesting(v), ElementsNesting(vs))
  {
    assert ([v] + vs)[1..] == vs;
  }

  lemma PrependEntryNesting(e: Entry, es: seq<Entry>)
    ensures EntriesNesting([e] + es) == Max(Nesting(e.value), EntriesNesting(es))
  {
    assert ([e] + es)[1..] == es;
  }

  lemma {:induction false} ItemMeaningsAreGood(items: seq<G.Item>, max: Limits)
    requires G.ValidItems(items) && G.ItemsFit(items, max)
    ensures AreGood(G.ItemMeanings(items), max)
    ensures ElementsNesting(G.ItemMeanings(items)) == G.ItemsDepth(items)
    decreases items
  {
    if items != [] {
      MeaningIsGood(items[0].value, max);
      ItemMeaningsAreGood(items[1..], max);
      PrependNesting(G.Meaning(items[0].value), G.ItemMeanings(items[1..]));
    }
  }

  lemma {:induction false} MemberMeaningsAreGood(ms: seq<G.Member>, max: Limits)
    requires G.ValidMembers(ms) && G.MembersFit(ms, max)
    ensures AreGoodEntries(G.MemberMeanings(ms), max)
    ensures EntriesNesting(G.MemberMeanings(ms)) == G.MembersDepth(ms)
    decreases ms
  {
    hide PrintableText, G.StringBytes;
    if ms != [] {
      MeaningIsGood(ms[0].value, max);
      BytesAreGood(ms[0].key);
      MemberMeaningsAreGood(ms[1..], max);
      PrependEntryNesting(Entry(G.StringBytes(ms[0].key), G.Meaning(ms[0].value)), G.MemberMeanings(ms[1..]));
    }
  }

  /** Whatever pvt_parse_value returns has good and short strings and keys, and is nested no
      deeper than there was room. */
  lemma ReturnedValuesAreGood(s: Text, depth: nat, max: Limits)
    requires depth <= max.depth && ParseValue(s, depth, max).Ok?
    ensures HasGoodTexts(ParseValue(s, depth, max).value) && HasShortTexts(ParseValue(s, depth, max).value, max.room)
    ensures depth + Nesting(ParseValue(s, depth, max).value) <= max.depth
  {
    var lead, t, trail := JsonSoundness.ValueIsGrammatical(s, depth, max);
    MeaningIsGood(t, max);
  }

  // ---------------------------------------------------------------------------------------------
  //  The loops only ever add elements
  // ---------------------------------------------------------------------------------------------

  lemma {:induction false} ElementsKeepPrefix(s: Text, depth: nat, max: Limits, acc: seq<JsonValue>)
    requires ParseElements(s, depth, max, acc).Ok?
    ensures ParseElements(s, depth, max, acc).value.Array? && acc <= ParseElements(s, depth, max, acc).value.elements
    decreases |s|
  {
    hide ParseElement;
    if Cur(s) != RIGHT_BRACKET {
      var u := ParseComma(s, RIGHT_BRACKET).rest;
      var p := ParseElement(u, depth, max);
      ElementsKeepPrefix(SkipWs(p.rest), depth, max, acc + [p.value]);
    }
  }

  lemma {:induction false} MembersKeepPrefix(s: Text, depth: nat, max: Limits, acc: seq<Entry>)
    requires ParseMembers(s, depth, max, acc).Ok?
    ensures ParseMembers(s, depth, max, acc).value.Object? && acc <= ParseMembers(s, depth, max, acc).value.entries
    decreases |s|
  {
    hide ParseEntry;
    if Cur(s) != RIGHT_BRACE {
      var u := ParseComma(s, RIGHT_BRACE).rest;
      var p := ParseEntry(u, depth, max);
      MembersKeepPrefix(SkipWs(p.rest), depth, max, acc + [p.value]);
    }
  }

  // ---------------------------------------------------------------------------------------------
  //  Values that are read back are printable
  // ---------------------------------------------------------------------------------------------

  lemma PrintedStarts(v: JsonValue, l: Layout, level: nat, rest: Text)
    requires NoDoubles(v)
    ensures var s := Print(v, l, level) + rest;
            && SkipWs(s) == s && s != [] && !IsWhitespace(s[0])
            && s[0] != NUL && s[0] != EOF_BYTE && s[0] != RIGHT_BRACKET && s[0] != RIGHT_BRACE && s[0] <= LEFT_BRACE
            && (v.Array? <==> s[0] == LEFT_BRACKET) && (v.Object? <==> s[0] == LEFT_BRACE)
  {
    match v
    case Long(n) => assert IsDigit(Digits(if n < 0 then 0 - n else n)[0]);
    case _ =>
  }

  lemma SkipGap(l: Layout, level: nat, s: Text)
    ensures SkipWs(Gap(l, level) + s) == SkipWs(s)
    ensures SkipWs([SPACE] + s) == SkipWs(s)
    ensures EndsNumber(Gap(l, level) + s)
  {
    SkipWsOver(Gap(l, level), s);
    SkipWsOver([SPACE], s);
  }

  /** The elements after the first one, the closing bracket and what follows it */
  function MoreText(es: seq<JsonValue>, l: Layout, level: nat, end: Text, rest: Text): Text
    requires forall i :: 0 <= i < |es| ==> NoDoubles(es[i])
  {
    PrintMore(es, l, level, end + [RIGHT_BRACKET]) + rest
  }

  lemma MoreTextStarts(es: seq<JsonValue>, l: Layout, level: nat, end: Text, rest: Text)
    requires G.IsWs(end) && forall i :: 0 <= i < |es| ==> NoDoubles(es[i])
    ensures var s := MoreText(es, l, level, end, rest);
            EndsNumber(s) && (es != [] ==> SkipWs(s) == s)
  {
    var s := MoreText(es, l, level, end, rest);
    assert es == [] ==> s[0] == if end == [] then RIGHT_BRACKET else end[0];
  }

  /** How the parser gets to the first element of a printed array. */
  lemma ArrayReachesFirst(v: JsonValue, l: Layout, level: nat, depth: nat, max: Limits, rest: Text)
    requires NoDoubles(v) && v.Array? && v.elements != []
    requires ParseValue(Print(v, l, level) + rest, depth, max).Ok?
    ensures depth + 1 <= max.depth
    ensures var es := v.elements;
            var t := Print(es[0], l, level + 1) + MoreText(es[1..], l, level + 1, Gap(l, level), rest);
            var p := ParseValue(t, depth + 1, max);
            && p.Ok?
            && ParseElements(SkipWs(p.rest), depth + 1, max, [p.value])
               == ParseValue(Print(v, l, level) + rest, depth, max)
  {
    var es, s := v.elements, Print(v, l, level) + rest;
    var t := Print(es[0], l, level + 1) + MoreText(es[1..], l, level + 1, Gap(l, level), rest);
    PrintedStarts(v, l, level, rest);
    assert s[1..] == Gap(l, level + 1) + t by {
      Regroup(LEFT_BRACKET, Gap(l, level + 1), Print(es[0], l, level + 1),
              PrintMore(es[1..], l, level + 1, Gap(l, level) + [RIGHT_BRACKET]), rest);
    }
    SkipGap(l, level + 1, t);
    PrintedStarts(es[0], l, level + 1, MoreText(es[1..], l, level + 1, Gap(l, level), rest));
    ValueIsArray(s, depth, max, t);
    BodyReachesFirst(t, depth + 1, max);
  }

  lemma ValueIsArray(s: Text, depth: nat, max: Limits, t: Text)
    requires Cur(s) == LEFT_BRACKET && SkipWs(s[1..]) == t && ParseValue(s, depth, max).Ok?
    ensures depth + 1 <= max.depth && ParseValue(s, depth, max) == ParseArrayBody(t, depth + 1, max)
  {
    hide ParseArrayBody;
    assert SkipWs(s) == s;
    assert ParseValue(s, depth, max) == ParseArray(s, depth, max);
  }

  lemma BodyReachesFirst(t: Text, depth: nat, max: Limits)
    requires ParseArrayBody(t, depth, max).Ok? && Cur(t) != NUL && Cur(t) != RIGHT_BRACKET
    ensures var p := ParseValue(t, depth, max);
            p.Ok? && ParseArrayBody(t, depth, max) == ParseElements(SkipWs(p.rest), depth, max, [p.value])
  {
    hide ParseValue, ParseElements;
  }

  /** How the parser gets to the next element of a printed array. */
  lemma LoopReachesNext(es: seq<JsonValue>, l: Layout, level: nat, end: Text, rest: Text,
                        depth: nat, max: Limits, acc: seq<JsonValue>)
    requires es != [] && forall i :: 0 <= i < |es| ==> NoDoubles(es[i])
    requires ParseElements(MoreText(es, l, level, end, rest), depth, max, acc).Ok?
    ensures var p := ParseValue(Print(es[0], l, level) + MoreText(es[1..], l, level, end, rest), depth, max);
            && p.Ok?
            && ParseElements(SkipWs(p.rest), depth, max, acc + [p.value])
               == ParseElements(MoreText(es, l, level, end, rest), depth, max, acc)
  {
    var s, more := MoreText(es, l, level, end, rest), MoreText(es[1..], l, level, end, rest);
    var t := Print(es[0], l, level) + more;
    Regroup(COMMA, Gap(l, level), Print(es[0], l, level), PrintMore(es[1..], l, level, end + [RIGHT_BRACKET]), rest);
    assert s == [COMMA] + (Gap(l, level) + t);
    assert s[1..] == Gap(l, level) + t;
    SkipGap(l, level, t);
    PrintedStarts(es[0], l, level, more);
    CommaReachesElement(s, depth, max, acc, t);
  }

  lemma CommaReachesElement(s: Text, depth: nat, max: Limits, acc: seq<JsonValue>, t: Text)
    requires Cur(s) == COMMA && SkipWs(s[1..]) == t && Cur(t) != RIGHT_BRACKET
    requires ParseElements(s, depth, max, acc).Ok?
    ensures var p := ParseValue(t, depth, max);
            p.Ok? && ParseElements(SkipWs(p.rest), depth, max, acc + [p.value]) == ParseElements(s, depth, max, acc)
  {
    hide ParseValue, ParseNextElement;
    JsonSoundness.NextElementSteps(s, depth, max);
  }

  lemma {:induction false} ReadBackIsPrintable(v: JsonValue, l: Layout, level: nat, depth: nat, max: Limits, rest: Text)
    requires NoDoubles(v) && depth <= max.depth && LONG_DIGITS < max.buffer && EndsNumber(rest)
    requires var r := ParseValue(Print(v, l, level) + rest, depth, max);
             r.Ok? && r.value == v
    ensures Printable(v) && depth + Nesting(v) <= max.depth && HasShortTexts(v, max.room)
    decreases v
  {
    hide Print, PrintMore, PrintOthers, ParseValue, ParseElements, ParseEntry, ParseMembers, PrintableText, CleanKey;
    hide HasShortTexts, Nesting, EntryText, OthersText, MoreText, EndsNumber;
    ReturnedValuesAreGood(Print(v, l, level) + rest, depth, max);
    match v
    case Array(es) =>
      if es != [] {
        ArrayReachesFirst(v, l, level, depth, max, rest);
        GapIsWs(l, level);
        assert [] + es == es;
        assert forall e: JsonValue :: [] + [e] == [e];
        ElementsReadBack(es, l, level + 1, Gap(l, level), rest, depth + 1, max, [],
                         ParseValue(Print(v, l, level) + rest, depth, max));
      }
    case Object(es) =>
      if es != [] {
        ObjectReachesFirst(v, l, level, depth, max, rest);
        GapIsWs(l, level);
        assert [] + es == es;
        assert forall e: Entry :: [] + [e] == [e];
        EntriesReadBack(es, l, level + 1, Gap(l, level), rest, depth + 1, max, [],
                        ParseValue(Print(v, l, level) + rest, depth, max));
      }
    case _ =>
  }

  /** The elements from the one at the cursor on, when r is what becomes of the array. */
  lemma {:induction false} ElementsReadBack(es: seq<JsonValue>, l: Layout, level: nat, end: Text, rest: Text,
                                            depth: nat, max: Limits, acc: seq<JsonValue>, r: Outcome<JsonValue>)
    requires es != [] && G.IsWs(end) && depth <= max.depth && LONG_DIGITS < max.buffer
    requires forall i :: 0 <= i < |es| ==> NoDoubles(es[i])
    requires r.Ok? && r.value == Array(acc + es)
    requires var p := ParseValue(Print(es[0], l, level) + MoreText(es[1..], l, level, end, rest), depth, max);
             p.Ok? && ParseElements(SkipWs(p.rest), depth, max, acc + [p.value]) == r
    ensures forall i :: 0 <= i < |es| ==> Printable(es[i])
    decreases es
  {
    hide Print, PrintMore, ParseValue, ParseElements, Printable, MoreText;
    var more := MoreText(es[1..], l, level, end, rest);
    var p := ParseValue(Print(es[0], l, level) + more, depth, max);
    ElementsKeepPrefix(SkipWs(p.rest), depth, max, acc + [p.value]);
    assert p.value == (acc + [p.value])[|acc|] == (acc + es)[|acc|] == es[0];
    MoreTextStarts(es[1..], l, level, end, rest);
    ReadBackIsPrintable(es[0], l, level, depth, max, more);
    if |es| > 1 {
      ValueRoundTrip(es[0], l, level, depth, max, more);
      SkipWsTwice(more);
      LoopReachesNext(es[1..], l, level, end, rest, depth, max, acc + [es[0]]);
      assert acc + [es[0]] + es[1..] == acc + es;
      ElementsReadBack(es[1..], l, level, end, rest, depth, max, acc + [es[0]], r);
    }
  }

  // ---------------------------------------------------------------------------------------------
  //  The same for objects
  // ---------------------------------------------------------------------------------------------

  /** The entries after the first one, the closing brace and what follows it */
  function OthersText(es: seq<Entry>, l: Layout, level: nat, end: Text, rest: Text): Text
    requires forall i :: 0 <= i < |es| ==> NoDoubles(es[i].value)
  {
    PrintOthers(es, l, level, end + [RIGHT_BRACE]) + rest
  }

  /** An entry and what follows it */
  function EntryText(e: Entry, l: Layout, level: nat, rest: Text): Text
    requires NoDoubles(e.value)
  {
    PrintKey(e.key) + (Print(e.value, l, level) + rest)
  }

  lemma OthersTextStarts(es: seq<Entry>, l: Layout, level: nat, end: Text, rest: Text)
    requires G.IsWs(end) && forall i :: 0 <= i < |es| ==> NoDoubles(es[i].value)
    ensures var s := OthersText(es, l, level, end, rest);
            EndsNumber(s) && (es != [] ==> SkipWs(s) == s)
  {
    var s := OthersText(es, l, level, end, rest);
    assert es == [] ==> s[0] == if end == [] then RIGHT_BRACE else end[0];
  }

  /** A bracket or comma, a gap and an entry */
  lemma RegroupEntry(open: Byte, gap: Text, e: Entry, l: Layout, level: nat, others: Text, rest: Text)
    requires NoDoubles(e.value)
    ensures ([open] + (gap + (PrintEntry(e, l, level) + others))) + rest
         == [open] + (gap + EntryText(e, l, level, others + rest))
  {
    Regroup(open, gap, PrintKey(e.key) + Print(e.value, l, level), others, rest);
    assert PrintKey(e.key) + Print(e.value, l, level) + (others + rest) == EntryText(e, l, level, others + rest);
  }

  lemma ObjectReachesFirst(v: JsonValue, l: Layout, level: nat, depth: nat, max: Limits, rest: Text)
    requires NoDoubles(v) && v.Object? && v.entries != []
    requires ParseValue(Print(v, l, level) + rest, depth, max).Ok?
    ensures depth + 1 <= max.depth
    ensures var es := v.entries;
            var p := ParseEntry(EntryText(es[0], l, level + 1, OthersText(es[1..], l, level + 1, Gap(l, level), rest)),
                                depth + 1, max);
            && p.Ok?
            && ParseMembers(SkipWs(p.rest), depth + 1, max, [p.value])
               == ParseValue(Print(v, l, level) + rest, depth, max)
  {
    hide ParseValue, ParseObjectBody, ParseEntry, ParseMembers, Print, PrintOthers;
    var es, s := v.entries, Print(v, l, level) + rest;
    var t := EntryText(es[0], l, level + 1, OthersText(es[1..], l, level + 1, Gap(l, level), rest));
    PrintedStarts(v, l, level, rest);
    PrintedObject(v, l, level, rest);
    assert s[1..] == Gap(l, level + 1) + t;
    SkipGap(l, level + 1, t);
    assert t[0] == QUOTE && SkipWs(t) == t;
    ValueIsObject(s, depth, max, t);
    BodyReachesEntry(t, depth + 1, max);
  }

  lemma PrintedObject(v: JsonValue, l: Layout, level: nat, rest: Text)
    requires NoDoubles(v) && v.Object? && v.entries != []
    ensures var es := v.entries;
            var t := EntryText(es[0], l, level + 1, OthersText(es[1..], l, level + 1, Gap(l, level), rest));
            Print(v, l, level) + rest == [LEFT_BRACE] + (Gap(l, level + 1) + t)
  {
    hide EntryText, PrintEntry;
    var es := v.entries;
    RegroupEntry(LEFT_BRACE, Gap(l, level + 1), es[0], l, level + 1,
                 PrintOthers(es[1..], l, level + 1, Gap(l, level) + [RIGHT_BRACE]), rest);
  }

  lemma ValueIsObject(s: Text, depth: nat, max: Limits, t: Text)
    requires Cur(s) == LEFT_BRACE && SkipWs(s[1..]) == t && ParseValue(s, depth, max).Ok?
    ensures depth + 1 <= max.depth && ParseValue(s, depth, max) == ParseObjectBody(t, depth + 1, max)
  {
    hide ParseObjectBody;
    assert SkipWs(s) == s;
    assert ParseValue(s, depth, max) == ParseObject(s, depth, max);
  }

  lemma BodyReachesEntry(t: Text, depth: nat, max: Limits)
    requires ParseObjectBody(t, depth, max).Ok? && Cur(t) != NUL && Cur(t) != RIGHT_BRACE
    ensures var p := ParseEntry(t, depth, max);
            p.Ok? && ParseObjectBody(t, depth, max) == ParseMembers(SkipWs(p.rest), depth, max, [p.value])
  {
    hide ParseEntry, ParseMembers;
  }

  lemma LoopReachesEntry(es: seq<Entry>, l: Layout, level: nat, end: Text, rest: Text,
                         depth: nat, max: Limits, acc: seq<Entry>)
    requires es != [] && forall i :: 0 <= i < |es| ==> NoDoubles(es[i].value)
    requires ParseMembers(OthersText(es, l, level, end, rest), depth, max, acc).Ok?
    ensures var p := ParseEntry(EntryText(es[0], l, level, OthersText(es[1..], l, level, end, rest)), depth, max);
            && p.Ok?
            && ParseMembers(SkipWs(p.rest), depth, max, acc + [p.value])
               == ParseMembers(OthersText(es, l, level, end, rest), depth, max, acc)
  {
    var s, others := OthersText(es, l, level, end, rest), OthersText(es[1..], l, level, end, rest);
    var t := EntryText(es[0], l, level, others);
    RegroupEntry(COMMA, Gap(l, level), es[0], l, level, PrintOthers(es[1..], l, level, end + [RIGHT_BRACE]), rest);
    assert s == [COMMA] + (Gap(l, level) + t);
    assert s[1..] == Gap(l, level) + t;
    SkipGap(l, level, t);
    CommaReachesEntry(s, depth, max, acc, t);
  }

  lemma CommaReachesEntry(s: Text, depth: nat, max: Limits, acc: seq<Entry>, t: Text)
    requires Cur(s) == COMMA && SkipWs(s[1..]) == t && Cur(t) != RIGHT_BRACE
    requires ParseMembers(s, depth, max, acc).Ok?
    ensures var p := ParseEntry(t, depth, max);
            p.Ok? && ParseMembers(SkipWs(p.rest), depth, max, acc + [p.value]) == ParseMembers(s, depth, max, acc)
  {
    hide ParseEntry;
    assert SkipWs(s) == s;
    assert ParseComma(s, RIGHT_BRACE) == Ok((), t);
  }

  /** An entry that is read back has a clean key, and its value is read from where it was printed. */
  lemma EntryReadBack(e: Entry, l: Layout, level: nat, depth: nat, max: Limits, rest: Text)
    requires NoDoubles(e.value)
    requires var p := ParseEntry(EntryText(e, l, level, rest), depth, max);
             p.Ok? && p.value == e
    ensures CleanKey(e.key)
    ensures ParseEntry(EntryText(e, l, level, rest), depth, max).rest
         == ParseValue(Print(e.value, l, level) + rest, depth, max).rest
    ensures var r := ParseValue(Print(e.value, l, level) + rest, depth, max);
            r.Ok? && r.value == e.value
  {
    hide Print, ParseValue, CleanKey, RawKey;
    var t := Print(e.value, l, level) + rest;
    var s := EntryText(e, l, level, rest);
    var tail := [SPACE] + ([COLON] + ([SPACE] + t));
    assert s == [QUOTE] + (RawKey(e.key) + ([QUOTE] + tail));
    assert SkipWs(s) == s;
    JsonKeys.KeyReadBack(e.key, tail, max.room);
    PrintedStarts(e.value, l, level, rest);
    ColonOf(t);
  }

  lemma ColonOf(t: Text)
    requires SkipWs(t) == t && Cur(t) != NUL
    ensures ParseColon([SPACE] + ([COLON] + ([SPACE] + t))) == Ok((), t)
  {
    var u := [COLON] + ([SPACE] + t);
    SkipWsOver([SPACE], u);
    SkipWsOver([SPACE], t);
    assert SkipWs(u) == u && u[1..] == [SPACE] + t;
  }

  lemma {:induction false} EntriesReadBack(es: seq<Entry>, l: Layout, level: nat, end: Text, rest: Text,
                                           depth: nat, max: Limits, acc: seq<Entry>, r: Outcome<JsonValue>)
    requires es != [] && G.IsWs(end) && depth <= max.depth && LONG_DIGITS < max.buffer
    requires forall i :: 0 <= i < |es| ==> NoDoubles(es[i].value)
    requires r.Ok? && r.value == Object(acc + es)
    requires var p := ParseEntry(EntryText(es[0], l, level, OthersText(es[1..], l, level, end, rest)), depth, max);
             p.Ok? && ParseMembers(SkipWs(p.rest), depth, max, acc + [p.value]) == r
    ensures forall i :: 0 <= i < |es| ==> CleanKey(es[i].key) && Printable(es[i].value)
    decreases es
  {
    hide Print, PrintOthers, ParseValue, ParseEntry, ParseMembers, Printable, CleanKey, OthersText, EntryText;
    var others := OthersText(es[1..], l, level, end, rest);
    var p := ParseEntry(EntryText(es[0], l, level, others), depth, max);
    MembersKeepPrefix(SkipWs(p.rest), depth, max, acc + [p.value]);
    assert p.value == (acc + [p.value])[|acc|] == (acc + es)[|acc|] == es[0];
    OthersTextStarts(es[1..], l, level, end, rest);
    EntryReadBack(es[0], l, level, depth, max, others);
    ReadBackIsPrintable(es[0].value, l, level, depth, max, others);
    if |es| > 1 {
      ValueRoundTrip(es[0].value, l, level, depth, max, others);
      SkipWsTwice(others);
      LoopReachesEntry(es[1..], l, level, end, rest, depth, max, acc + [es[0]]);
      assert acc + [es[0]] + es[1..] == acc + es;
      EntriesReadBack(es[1..], l, level, end, rest, depth, max, acc + [es[0]], r);
    }
  }

  // ---------------------------------------------------------------------------------------------
  //  Main results
  // ---------------------------------------------------------------------------------------------

  /** Parsing what jsonp_sprint prints gives the value back, in either layout, exactly for the printable values
      that are within the limits of the parser. */
  lemma RoundTripIffPrintable(v: JsonValue, l: Layout, max: Limits)
    requires NoDoubles(v) && LONG_DIGITS < max.buffer
    ensures Parse(Print(v, l, 0), max).Result() == Some(v) <==> Survives(v, max)
    ensures Survives(v, max) ==> Parse(Print(v, l, 0), max) == Ok(v, [])
  {
    if Survives(v, max) {
      TextRoundTrip(v, l, max);
    }
    if Parse(Print(v, l, 0), max).Result() == Some(v) {
      var text := Print(v, l, 0);
      PrintedStarts(v, l, 0, []);
      assert text + [] == text;
      assert SkipBom(text) == text;
      ReadBackIsPrintable(v, l, 0, 0, max, []);
    }
  }

  /** The limits of the parser on a new thread of a system with the given page size */
  function PageLimits(depthMax: nat, pageSize: nat): (limits: Limits)
    requires JsonScratch.IsPageSize(pageSize)
    ensures limits == Limits(depthMax, pageSize - 129, NUMBER_BUFFER_SIZE)
  {
    JsonScratch.PagesAreOutgrown(pageSize);
    JsonParser.CodeLimits(depthMax, pageSize, JsonScratch.FIRST_PLACE.offset)
  }

  /** jsonp_sprint followed by jsonp_parse_string, on a system with the given page size */
  method SprintThenParse(v: JsonValue, l: Layout, depthMax: nat, pageSize: nat) returns (back: Option<JsonValue>)
    requires NoDoubles(v) && (l.MultiLine? ==> Levels(v) * l.indent < 256)
    requires JsonScratch.IsPageSize(pageSize)
    ensures back == Some(v) <==> Survives(v, PageLimits(depthMax, pageSize))
  {
    var sb := new StringBuilder.OnHeap(16, []);
    JsonPrinter.Sprint(sb, v, l);
    var text := sb.Read(0, sb.length);
    assert text == Print(v, l, 0) by {
      assert [] + Print(v, l, 0) == Print(v, l, 0);
    }
    RoundTripIffPrintable(v, l, PageLimits(depthMax, pageSize));
    var scratch := JsonScratch.NewScratch(pageSize);
    var error;
    back, error := JsonParser.ParseText(text, depthMax, scratch);
  }

  /** The levels of indentation are those of nesting, but for an innermost array or object that is empty. */
  lemma {:induction false} LevelsAreNesting(v: JsonValue)
    ensures Levels(v) <= Nesting(v) <= Levels(v) + 1
    decreases v
  {
    match v
    case Array(es) => ElementsLevelsAreNesting(es);
    case Object(es) => EntriesLevelsAreNesting(es);
    case _ =>
  }

  lemma {:induction false} ElementsLevelsAreNesting(es: seq<JsonValue>)
    ensures ElementsLevels(es) <= ElementsNesting(es) <= ElementsLevels(es) + 1
    decreases es
  {
    if es != [] {
      LevelsAreNesting(es[0]);
      ElementsLevelsAreNesting(es[1..]);
    }
  }

  lemma {:induction false} EntriesLevelsAreNesting(es: seq<Entry>)
    ensures EntriesLevels(es) <= EntriesNesting(es) <= EntriesLevels(es) + 1
    decreases es
  {
    if es != [] {
      LevelsAreNesting(es[0].value);
      EntriesLevelsAreNesting(es[1..]);
    }
  }

  // ---------------------------------------------------------------------------------------------
  //  Strings that are too long
  // ---------------------------------------------------------------------------------------------

  /** A printed string is a JSON text. The parser reads it if it has 129 bytes less than a page, and leaves the block
      of its scratch arena if it is longer. */
  lemma LongStringsOverrun(t: Text, depthMax: nat, pageSize: nat)
    requires PrintableText(t) && JsonScratch.IsPageSize(pageSize)
    ensures IsJsonText(PrintString(t), Limits(0, |t|, 1))
    ensures Parse(PrintString(t), PageLimits(depthMax, pageSize)).ErrorCode()
         == if |t| <= pageSize - 129 then None else Some(MemoryOverrun)
  {
    CharsDenote(t);
    PrintedStringIsSpelled(t, []);
    assert PrintString(t) + [] == PrintString(t);
    StringNeedsRoom(Chars(t), Limits(0, |t|, 1));
    StringNeedsRoom(Chars(t), PageLimits(depthMax, pageSize));
  }

  const LOWER_A: Byte := 0x61

  lemma {:induction false} LettersArePrintable(n: nat)
    ensures PrintableText(Repeat(LOWER_A, n)) && EscapeBytes(Repeat(LOWER_A, n)) == Repeat(LOWER_A, n)
  {
    PlainBytes(Repeat(LOWER_A, n));
    if n != 0 {
      LettersArePrintable(n - 1);
      assert Repeat(LOWER_A, n)[1..] == Repeat(LOWER_A, n - 1);
    }
  }

  /** With pages of 4096 bytes, 3967 letters between quotes are read, and 3968 leave the block. */
  lemma OneLetterTooMany(depthMax: nat)
    ensures var limits := PageLimits(depthMax, 4096);
            && Parse([QUOTE] + (Repeat(LOWER_A, 3967) + [QUOTE]), limits) == Ok(String(Repeat(LOWER_A, 3967)), [])
            && Parse([QUOTE] + (Repeat(LOWER_A, 3968) + [QUOTE]), limits).ErrorCode() == Some(MemoryOverrun)
  {
    LettersArePrintable(3967);
    LettersArePrintable(3968);
    RoundTripIffPrintable(String(Repeat(LOWER_A, 3967)), SingleLine, PageLimits(depthMax, 4096));
    LongStringsOverrun(Repeat(LOWER_A, 3968), depthMax, 4096);
  }

  /** The smallest key that is lost: jsonp_fprint_object_single_line does not escape the quote in it. */
  lemma QuoteInKeyIsLost(l: Layout, max: Limits)
    requires LONG_DIGITS < max.buffer
    ensures Parse(Print(Object([Entry([QUOTE], Null)]), l, 0), max).Result() != Some(Object([Entry([QUOTE], Null)]))
  {
    var v := Object([Entry([QUOTE], Null)]);
    RoundTripIffPrintable(v, l, max);
    assert !IsPlain(v.entries[0].key);
  }

  /** The two layouts of a value denote the same value. */
  lemma LayoutsAgree(v: JsonValue, indent: nat, max: Limits)
    requires NoDoubles(v) && Survives(v, max) && LONG_DIGITS < max.buffer
    ensures Parse(Print(v, SingleLine, 0), max) == Parse(Print(v, MultiLine(indent), 0), max)
  {
    TextRoundTrip(v, SingleLine, max);
    TextRoundTrip(v, MultiLine(indent), max);
  }
}
