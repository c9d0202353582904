/** The language of the parser: exactly the JSON texts of RFC 8259 within its limits, up to the first byte 0xFF. */
module JsonLanguage {
  import opened Bytes
  import opened JsonBytes
  import opened JsonValues
  import opened JsonParserSpec
  import opened JsonNumbers
  import opened JsonCompleteness
  import opened JsonSoundness
  import opened JsonStrings
  import opened Wrappers
  import G = JsonGrammar

  // ---------------------------------------------------------------------------------------------
  //  A value and the text after it
  // ---------------------------------------------------------------------------------------------

  lemma SpellCharConcat(c: G.StrChar, rest: Text)
    ensures G.SpellChar(c, rest) == G.SpellChar(c, []) + rest
  {
  }

  lemma {:induction false} SpellCharsConcat(cs: seq<G.StrChar>, a: Text, b: Text)
    ensures G.SpellChars(cs, a + b) == G.SpellChars(cs, a) + b
  {
    if cs != [] {
      SpellCharsConcat(cs[1..], a, b);
      var more := G.SpellChars(cs[1..], a);
      SpellCharConcat(cs[0], more + b);
      SpellCharConcat(cs[0], more);
      assert G.SpellChar(cs[0], []) + (more + b) == G.SpellChar(cs[0], []) + more + b;
    }
  }

  lemma SpellStringConcat(cs: seq<G.StrChar>, a: Text, b: Text)
    ensures G.SpellString(cs, a + b) == G.SpellString(cs, a) + b
  {
    SpellCharsConcat(cs, [QUOTE] + a, b);
    assert [QUOTE] + (a + b) == [QUOTE] + a + b;
  }

  lemma SpellKeyConcat(m: G.Member, a: Text, b: Text)
    ensures G.SpellKey(m, a + b) == G.SpellKey(m, a) + b
  {
    var x := m.before + ([COLON] + (m.after + a));
    assert m.before + ([COLON] + (m.after + (a + b))) == x + b;
    SpellStringConcat(m.key, x, b);
  }

  lemma {:induction false} SpellConcat(v: G.Value, a: Text, b: Text)
    ensures G.Spell(v, a + b) == G.Spell(v, a) + b
    decreases v
  {
    match v
    case Arr(first, more) =>
      var x := [RIGHT_BRACKET] + a;
      SpellMoreConcat(more, x, b);
      SpellConcat(first.value, first.trail + G.SpellMore(more, x), b);
      SpellArrConcat(first, more, a, b);
    case Obj(m, others) =>
      var x := [RIGHT_BRACE] + a;
      SpellOthersConcat(others, x, b);
      SpellConcat(m.value, m.trail + G.SpellOthers(others, x), b);
      SpellObjConcat(m, others, a, b);
    case _ => SpellLeafConcat(v, a, b);
  }

  lemma SpellLeafConcat(v: G.Value, a: Text, b: Text)
    requires !v.Arr? && !v.Obj?
    ensures G.Spell(v, a + b) == G.Spell(v, a) + b
  {
    match v
    case Num(n) =>
      SpellNumberConcat(n, a + b);
      SpellNumberConcat(n, a);
    case Str(cs) => SpellStringConcat(cs, a, b);
    case _ =>
  }

  lemma SpellArrConcat(first: G.Item, more: seq<G.Item>, a: Text, b: Text)
    requires var x := [RIGHT_BRACKET] + a;
             var y := first.trail + G.SpellMore(more, x);
             && G.SpellMore(more, x + b) == G.SpellMore(more, x) + b
             && G.Spell(first.value, y + b) == G.Spell(first.value, y) + b
    ensures G.Spell(G.Arr(first, more), a + b) == G.Spell(G.Arr(first, more), a) + b
  {
    hide G.SpellMore, G.Spell;
    var x := [RIGHT_BRACKET] + a;
    var y := first.trail + G.SpellMore(more, x);
    assert [RIGHT_BRACKET] + (a + b) == x + b;
    assert first.trail + (G.SpellMore(more, x) + b) == y + b;
    Reassociate([LEFT_BRACKET], first.lead, G.Spell(first.value, y), b);
    SpellArr(first, more, a);
    SpellArr(first, more, a + b);
  }

  lemma SpellArr(first: G.Item, more: seq<G.Item>, rest: Text)
    ensures G.Spell(G.Arr(first, more), rest)
         == [LEFT_BRACKET]
            + (first.lead + G.Spell(first.value, first.trail + G.SpellMore(more, [RIGHT_BRACKET] + rest)))
  {
  }

  lemma Reassociate(a: Text, b: Text, c: Text, d: Text)
    ensures a + (b + (c + d)) == a + (b + c) + d
  {
    assert b + (c + d) == (b + c) + d;
  }

  lemma SpellObjConcat(m: G.Member, others: seq<G.Member>, a: Text, b: Text)
    requires var x := [RIGHT_BRACE] + a;
             var y := m.trail + G.SpellOthers(others, x);
             && G.SpellOthers(others, x + b) == G.SpellOthers(others, x) + b
             && G.Spell(m.value, y + b) == G.Spell(m.value, y) + b
    ensures G.Spell(G.Obj(m, others), a + b) == G.Spell(G.Obj(m, others), a) + b
  {
    var x := [RIGHT_BRACE] + a;
    var y := m.trail + G.SpellOthers(others, x);
    SpellKeyConcat(m, G.Spell(m.value, y), b);
    assert [RIGHT_BRACE] + (a + b) == x + b;
    assert m.trail + (G.SpellOthers(others, x) + b) == y + b;
  }

  lemma {:induction false} SpellMoreConcat(items: seq<G.Item>, a: Text, b: Text)
    ensures G.SpellMore(items, a + b) == G.SpellMore(items, a) + b
    decreases items
  {
    if items != [] {
      var i, more := items[0], items[1..];
      SpellMoreConcat(more, a, b);
      SpellConcat(i.value, i.trail + G.SpellMore(more, a), b);
      assert i.trail + (G.SpellMore(more, a) + b) == i.trail + G.SpellMore(more, a) + b;
    }
  }

  lemma {:induction false} SpellOthersConcat(ms: seq<G.Member>, a: Text, b: Text)
    ensures G.SpellOthers(ms, a + b) == G.SpellOthers(ms, a) + b
    decreases ms
  {
    if ms != [] {
      var m, more := ms[0], ms[1..];
      var y := m.trail + G.SpellOthers(more, a);
      SpellOthersConcat(more, a, b);
      SpellConcat(m.value, y, b);
      SpellKeyConcat(m, G.Spell(m.value, y), b);
      assert m.trail + (G.SpellOthers(more, a) + b) == y + b;
    }
  }

  /** What a derivation leaves is the end of the text. */
  lemma RestEndsText(text: Text, lead: Text, v: G.Value, trail: Text, rest: Text)
    requires G.Derives(text, lead, v, trail, rest)
    ensures |rest| <= |text| && rest == text[|text| - |rest|..]
    ensures forall b :: b in rest ==> b in text
  {
    SpellConcat(v, trail, rest);
    assert text == lead + G.Spell(v, trail) + rest;
  }

  // ---------------------------------------------------------------------------------------------
  //  No byte of a value is 0xFF
  // ---------------------------------------------------------------------------------------------

  lemma {:induction false} CharsHaveNoEof(cs: seq<G.StrChar>, rest: Text)
    requires G.ValidChars(cs) && EOF_BYTE !in rest
    ensures EOF_BYTE !in G.SpellChars(cs, rest)
  {
    if cs != [] {
      CharsHaveNoEof(cs[1..], rest);
      CharHasNoEof(cs[0], G.SpellChars(cs[1..], rest));
    }
  }

  lemma CharHasNoEof(c: G.StrChar, rest: Text)
    requires G.ValidChar(c) && EOF_BYTE !in rest
    ensures EOF_BYTE !in G.SpellChar(c, rest)
  {
  }

  lemma NumberHasNoEof(n: G.Number, rest: Text)
    requires G.ValidNumber(n) && EOF_BYTE !in rest
    ensures EOF_BYTE !in G.SpellNumber(n, rest)
  {
    assert EOF_BYTE !in G.SpellExponent(n.exponent, rest);
    assert EOF_BYTE !in G.SpellFraction(n.fraction, G.SpellExponent(n.exponent, rest));
  }

  lemma KeyHasNoEof(m: G.Member, rest: Text)
    requires G.ValidMember(m) && EOF_BYTE !in rest
    ensures EOF_BYTE !in G.SpellKey(m, rest)
  {
    CharsHaveNoEof(m.key, [QUOTE] + (m.before + ([COLON] + (m.after + rest))));
  }

  lemma {:induction false} ValueHasNoEof(v: G.Value, rest: Text)
    requires G.Valid(v) && EOF_BYTE !in rest
    ensures EOF_BYTE !in G.Spell(v, rest)
    decreases v
  {
    match v
    case Num(n) => NumberHasNoEof(n, rest);
    case Str(cs) => CharsHaveNoEof(cs, [QUOTE] + rest);
    case Arr(first, more) =>
      var x := G.SpellMore(more, [RIGHT_BRACKET] + rest);
      MoreHaveNoEof(more, [RIGHT_BRACKET] + rest);
      ValueHasNoEof(first.value, first.trail + x);
    case Obj(m, others) =>
      var x := G.SpellOthers(others, [RIGHT_BRACE] + rest);
      OthersHaveNoEof(others, [RIGHT_BRACE] + rest);
      ValueHasNoEof(m.value, m.trail + x);
      KeyHasNoEof(m, G.Spell(m.value, m.trail + x));
    case _ =>
  }

  lemma {:induction false} MoreHaveNoEof(items: seq<G.Item>, rest: Text)
    requires G.ValidItems(items) && EOF_BYTE !in rest
    ensures EOF_BYTE !in G.SpellMore(items, rest)
    decreases items
  {
    if items != [] {
      MoreHaveNoEof(items[1..], rest);
      ValueHasNoEof(items[0].value, items[0].trail + G.SpellMore(items[1..], rest));
    }
  }

  lemma {:induction false} OthersHaveNoEof(ms: seq<G.Member>, rest: Text)
    requires G.ValidMembers(ms) && EOF_BYTE !in rest
    ensures EOF_BYTE !in G.SpellOthers(ms, rest)
    decreases ms
  {
    if ms != [] {
      OthersHaveNoEof(ms[1..], rest);
      ValueHasNoEof(ms[0].value, ms[0].trail + G.SpellOthers(ms[1..], rest));
      KeyHasNoEof(ms[0], G.Spell(ms[0].value, ms[0].trail + G.SpellOthers(ms[1..], rest)));
    }
  }

  // ---------------------------------------------------------------------------------------------
  //  Whole texts
  // ---------------------------------------------------------------------------------------------

  /** The body of a text is a JSON text; a byte 0xFF and anything after it count as the end of the input. */
  predicate Accepted(body: Text, max: Limits, lead: Text, v: G.Value, trail: Text, junk: Text) {
    && G.Derives(body, lead, v, trail, junk)
    && G.Within(v, max)
    && (junk == [] || junk[0] == EOF_BYTE)
  }

  lemma DerivedTextStarts(body: Text, lead: Text, v: G.Value, trail: Text, rest: Text)
    requires G.Derives(body, lead, v, trail, rest)
    ensures body != [] && NUL < body[0] <= LEFT_BRACE && SkipWs(body) == G.Spell(v, trail + rest)
  {
    SpellStarts(v, trail + rest);
    SkipWsOver(lead, G.Spell(v, trail + rest));
    assert lead == [] ==> body == G.Spell(v, trail + rest);
  }

  lemma BodyIsParsed(body: Text, max: Limits, lead: Text, v: G.Value, trail: Text, junk: Text)
    requires Accepted(body, max, lead, v, trail, junk)
    ensures ParseBody(body, max) == Ok(G.Meaning(v), junk)
  {
    hide ParseValue, G.Spell, G.Valid, G.Meaning, G.Fits;
    var s := G.Spell(v, trail + junk);
    DerivedTextStarts(body, lead, v, trail, junk);
    SpellStarts(v, trail + junk);
    SkipWsOver(trail, junk);
    assert SkipWs(junk) == junk;
    assert EndsNumber(trail + junk) by {
      assert trail == [] ==> trail + junk == junk;
    }
    ParseValueOf(v, 0, max, trail + junk);
    SkipWsTwice(trail + junk);
    assert ParseValue(s, 0, max) == Ok(G.Meaning(v), After(v, trail + junk));
  }

  /** Completeness for whole texts, with the value that is returned. */
  lemma AcceptedTextsAreParsed(text: Text, max: Limits, lead: Text, v: G.Value, trail: Text, junk: Text)
    requires Accepted(SkipBom(text), max, lead, v, trail, junk)
    ensures Parse(text, max) == Ok(G.Meaning(v), junk)
  {
    hide ParseBody, G.Spell, G.Valid, G.Meaning, G.Within;
    DerivedTextStarts(SkipBom(text), lead, v, trail, junk);
    BodyIsParsed(SkipBom(text), max, lead, v, trail, junk);
  }

  /** Soundness for whole texts. */
  lemma ParsedTextsAreAccepted(text: Text, max: Limits) returns (lead: Text, v: G.Value, trail: Text, junk: Text)
    requires NulFree(text) && Parse(text, max).Ok?
    ensures Accepted(SkipBom(text), max, lead, v, trail, junk)
    ensures Parse(text, max) == Ok(G.Meaning(v), junk)
  {
    var body := SkipBom(text);
    var i: G.Item;
    i, junk := ItemIsGrammatical(body, 0, max);
    lead, v, trail := i.lead, i.value, i.trail;
    RestEndsText(body, lead, v, trail, junk);
  }

  /** The parser accepts a text iff its body derives from the grammar, within the limits. */
  lemma ParserAcceptsExactlyTheGrammar(text: Text, max: Limits)
    requires NulFree(text)
    ensures Parse(text, max).Ok? <==> exists lead, v, trail, junk :: Accepted(SkipBom(text), max, lead, v, trail, junk)
  {
    if Parse(text, max).Ok? {
      var lead, v, trail, junk := ParsedTextsAreAccepted(text, max);
    }
    forall lead, v, trail, junk | Accepted(SkipBom(text), max, lead, v, trail, junk)
      ensures Parse(text, max).Ok?
    {
      AcceptedTextsAreParsed(text, max, lead, v, trail, junk);
    }
  }

  /** JSON-text of RFC 8259, within the limits. */
  ghost predicate IsJsonText(text: Text, max: Limits) {
    exists lead, v, trail :: Accepted(text, max, lead, v, trail, [])
  }

  /** What the signed comparison with EOF leaves of a text. */
  function UpToEof(s: Text): (r: Text)
    ensures |r| <= |s| && r == s[..|r|] && EOF_BYTE !in r
    ensures |r| < |s| ==> s[|r|] == EOF_BYTE
    ensures EOF_BYTE !in s ==> r == s
  {
    if s == [] || s[0] == EOF_BYTE then [] else [s[0]] + UpToEof(s[1..])
  }

  /** Nothing of a derivation is 0xFF, so what is left of the text starts at the first such byte. */
  lemma DerivationEndsAtEof(body: Text, lead: Text, v: G.Value, trail: Text, junk: Text)
    requires G.Derives(body, lead, v, trail, junk) && (junk == [] || junk[0] == EOF_BYTE)
    ensures G.Derives(UpToEof(body), lead, v, trail, []) && junk == body[|UpToEof(body)|..]
  {
    var s := lead + G.Spell(v, trail);
    assert body == s + junk by {
      SpellConcat(v, trail, junk);
    }
    assert EOF_BYTE !in s by {
      ValueHasNoEof(v, trail);
    }
    EofIsFirst(s, junk);
    assert trail + [] == trail;
  }

  lemma {:induction false} EofIsFirst(s: Text, junk: Text)
    requires EOF_BYTE !in s && (junk == [] || junk[0] == EOF_BYTE)
    ensures UpToEof(s + junk) == s
  {
    if s == [] {
      assert s + junk == junk;
    } else {
      assert (s + junk)[1..] == s[1..] + junk;
      EofIsFirst(s[1..], junk);
    }
  }

  lemma HeadIsAccepted(body: Text, max: Limits, lead: Text, v: G.Value, trail: Text)
    requires Accepted(UpToEof(body), max, lead, v, trail, [])
    ensures Accepted(body, max, lead, v, trail, body[|UpToEof(body)|..])
  {
    hide G.Spell, G.Valid, G.Within;
    var head := UpToEof(body);
    var junk := body[|head|..];
    assert trail + [] == trail && body == head + junk;
    SpellConcat(v, trail, junk);
  }

  /** On every C string: the parser accepts iff what precedes the first byte 0xFF, without the byte order mark, is
      a JSON text of RFC 8259 within the limits. */
  lemma ParserReadsUpToEof(text: Text, max: Limits)
    requires NulFree(text)
    ensures Parse(text, max).Ok? <==> IsJsonText(UpToEof(SkipBom(text)), max)
  {
    hide Parse, SkipBom, G.Spell, G.Valid, G.Within, UpToEof;
    var body := SkipBom(text);
    var head := UpToEof(body);
    var junk := body[|head|..];
    if Parse(text, max).Ok? {
      var lead, v, trail, left := ParsedTextsAreAccepted(text, max);
      DerivationEndsAtEof(body, lead, v, trail, left);
      assert Accepted(head, max, lead, v, trail, []);
    }
    forall lead, v, trail | Accepted(head, max, lead, v, trail, [])
      ensures Parse(text, max).Ok?
    {
      HeadIsAccepted(body, max, lead, v, trail);
      AcceptedTextsAreParsed(text, max, lead, v, trail, junk);
    }
  }

  /** On a text without byte order mark, the parser is exactly RFC 8259 within the limits, except when the byte 0xFF
      ends a JSON text too early. */
  lemma ParserIsRfc8259(text: Text, max: Limits)
    requires NulFree(text) && !(UTF8_BOM <= text)
    ensures (Parse(text, max).Ok? <==> IsJsonText(text, max))
       <==> EOF_BYTE !in text || !IsJsonText(UpToEof(text), max)
  {
    ParserReadsUpToEof(text, max);
    if IsJsonText(text, max) {
      var lead, v, trail :| Accepted(text, max, lead, v, trail, []);
      DerivationEndsAtEof(text, lead, v, trail, []);
    }
  }

  /** The byte 0xFF and a brace after a JSON text are accepted, though this is no JSON text. */
  lemma JunkIsAccepted(max: Limits)
    ensures var text := KEYWORD_NULL + [EOF_BYTE, LEFT_BRACE];
            Parse(text, max) == Ok(Null, [EOF_BYTE, LEFT_BRACE]) && !IsJsonText(text, max)
  {
    var junk := [EOF_BYTE, LEFT_BRACE];
    var text := KEYWORD_NULL + junk;
    assert [] + G.Spell(G.NullName, [] + junk) == text;
    assert text[0] == 0x6E && SkipBom(text) == text;
    assert Accepted(text, max, [], G.NullName, [], junk);
    AcceptedTextsAreParsed(text, max, [], G.NullName, [], junk);
    if IsJsonText(text, max) {
      var lead, v, trail :| Accepted(text, max, lead, v, trail, []);
      DerivationEndsAtEof(text, lead, v, trail, []);
    }
  }

  /** A text that is one string: it is read if there is room for its bytes, and overruns the scratch arena if not. */
  lemma StringNeedsRoom(cs: seq<G.StrChar>, max: Limits)
    requires G.ValidChars(cs)
    ensures IsJsonText(G.SpellString(cs, []), max) <==> |G.StringBytes(cs)| <= max.room
    ensures var r := Parse(G.SpellString(cs, []), max);
            if |G.StringBytes(cs)| <= max.room then r == Ok(String(G.StringBytes(cs)), [])
            else r.ErrorCode() == Some(MemoryOverrun)
  {
    hide G.StringBytes, G.SpellString, Accepted, Parse, SkipBom, G.ValidChars;
    var text := G.SpellString(cs, []);
    StringIsParsed(cs, max);
    if |G.StringBytes(cs)| <= max.room {
      StringIsAccepted(cs, max);
    }
    forall lead, v, trail | Accepted(text, max, lead, v, trail, [])
      ensures |G.StringBytes(cs)| <= max.room
    {
      AcceptedTextsAreParsed(text, max, lead, v, trail, []);
    }
  }

  lemma StringIsAccepted(cs: seq<G.StrChar>, max: Limits)
    requires G.ValidChars(cs) && |G.StringBytes(cs)| <= max.room
    ensures Accepted(G.SpellString(cs, []), max, [], G.Str(cs), [], [])
  {
    hide G.StringBytes, G.SpellString;
    var empty: Text, text := [], G.SpellString(cs, []);
    assert empty + empty == empty && empty + text == text;
  }

  lemma StringIsParsed(cs: seq<G.StrChar>, max: Limits)
    requires G.ValidChars(cs)
    ensures SkipBom(G.SpellString(cs, [])) == G.SpellString(cs, [])
    ensures var r := Parse(G.SpellString(cs, []), max);
            if |G.StringBytes(cs)| <= max.room then r == Ok(String(G.StringBytes(cs)), [])
            else r.ErrorCode() == Some(MemoryOverrun)
  {
    hide G.StringBytes, ParseString, G.SpellChars;
    var text := G.SpellString(cs, []);
    assert text[0] == QUOTE && SkipBom(text) == text && SkipWs(text) == text;
    ParseStringOf(cs, [], max.room);
    assert ParseValue(text, 0, max).ErrorCode() == ParseString(text, max.room).ErrorCode();
  }

  // ---------------------------------------------------------------------------------------------
  //  Unambiguity
  // ---------------------------------------------------------------------------------------------

  /** Limits for a value; larger ones do as well. */
  lemma {:induction false} LargeLimitsFit(v: G.Value) returns (n: nat)
    requires G.Valid(v)
    ensures forall max: Limits {:trigger G.Fits(v, max)} :: n <= max.room && n < max.buffer ==> G.Fits(v, max)
    decreases v
  {
    hide G.StringBytes, G.SpellNumber;
    n := 0;
    match v
    case Num(number) => n := |G.SpellNumber(number, [])|;
    case Str(cs) => n := |G.StringBytes(cs)|;
    case Arr(first, more) =>
      var a := LargeLimitsFit(first.value);
      var b := LargeLimitsFitItems(more);
      n := Max(a, b);
    case Obj(m, others) =>
      var a := LargeLimitsFit(m.value);
      var b := LargeLimitsFitMembers(others);
      n := Max(|G.StringBytes(m.key)|, Max(a, b));
    case _ =>
  }

  lemma {:induction false} LargeLimitsFitItems(items: seq<G.Item>) returns (n: nat)
    requires G.ValidItems(items)
    ensures forall max: Limits {:trigger G.ItemsFit(items, max)} ::
              n <= max.room && n < max.buffer ==> G.ItemsFit(items, max)
    decreases items
  {
    n := 0;
    if items != [] {
      var a := LargeLimitsFit(items[0].value);
      var b := LargeLimitsFitItems(items[1..]);
      n := Max(a, b);
    }
  }

  lemma {:induction false} LargeLimitsFitMembers(ms: seq<G.Member>) returns (n: nat)
    requires G.ValidMembers(ms)
    ensures forall max: Limits {:trigger G.MembersFit(ms, max)} ::
              n <= max.room && n < max.buffer ==> G.MembersFit(ms, max)
    decreases ms
  {
    hide G.StringBytes;
    n := 0;
    if ms != [] {
      var a := LargeLimitsFit(ms[0].value);
      var b := LargeLimitsFitMembers(ms[1..]);
      n := Max(|G.StringBytes(ms[0].key)|, Max(a, b));
    }
  }

  /** The grammar is unambiguous: all derivations of a text denote the same value. */
  lemma MeaningIsUnique(text: Text, l1: Text, v1: G.Value, t1: Text, l2: Text, v2: G.Value, t2: Text)
    requires G.Derives(text, l1, v1, t1, []) && G.Derives(text, l2, v2, t2, [])
    ensures G.Meaning(v1) == G.Meaning(v2)
  {
    var n1 := LargeLimitsFit(v1);
    var n2 := LargeLimitsFit(v2);
    var n := Max(n1, n2);
    var max := Limits(Max(G.Depth(v1), G.Depth(v2)), n, n + 1);
    assert G.Fits(v1, max) && G.Fits(v2, max);
    DerivedTextStarts(text, l1, v1, t1, []);
    AcceptedTextsAreParsed(text, max, l1, v1, t1, []);
    AcceptedTextsAreParsed(text, max, l2, v2, t2, []);
  }
}
