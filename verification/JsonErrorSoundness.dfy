/** Every error is reported for a flaw of the text, and so a text is either accepted or flawed. */
module JsonErrorSoundness {
  import opened Bytes
  import opened JsonBytes
  import opened JsonValues
  import opened JsonParserSpec
  import opened JsonStrings
  import opened JsonNumbers
  import opened JsonCompleteness
  import opened JsonSoundness
  import opened JsonLanguage
  import opened JsonFlaws
  import opened Wrappers
  import JsonErrors
  import G = JsonGrammar
  import Utf8

  // ---------------------------------------------------------------------------------------------
  //  Strings
  // ---------------------------------------------------------------------------------------------

  lemma {:induction false} DigitsErrorIsBreak(s: Text, count: nat, value: nat) returns (n: nat)
    requires ParseHex(s, count, value).Err?
    ensures n < count && n <= |s| && (forall i :: 0 <= i < n ==> IsHex(s[i])) && !(n < |s| && IsHex(s[n]))
    ensures ParseHex(s, count, value).error == if AtEnd(s[n..]) then UnexpectedEof else InvalidUnicodeEscape
    decreases count
  {
    n := 0;
    if Cur(s) != NUL && IsHex(s[0]) {
      var m := DigitsErrorIsBreak(s[1..], count - 1, value * 16 + HexDigit(s[0]));
      assert s[1..][m..] == s[m + 1..];
      assert forall i :: 1 <= i <= m ==> s[i] == s[1..][i - 1];
      n := m + 1;
    }
  }

  lemma DigitsAreCodeUnit(x: Text)
    requires StartsUnicodeEscape(x) && ParseHex(x[2..], 4, 0).Ok?
    ensures IsUnicodeEscape(x) && ParseHex(x[2..], 4, 0) == Ok(CodeUnit(x), x[6..])
  {
    ParseHexGivesHex(x[2..]);
    assert x[2..][..4] == x[2..6] && x[2..][4..] == x[6..];
  }

  lemma BrokenHexIsFlaw(x: Text, s: Text)
    requires ParseHex(s, 4, 0).Err?
    requires (StartsUnicodeEscape(x) && s == x[2..])
             || (IsHighEscape(x) && StartsUnicodeEscape(x[6..]) && s == x[8..])
    ensures CharFlaw(x, ParseHex(s, 4, 0).error)
  {
    var n := DigitsErrorIsBreak(s, 4, 0);
    assert HasTooFewDigits(s, n, s[n..]);
    assert BreaksDigitsAt(x, s[n..]);
  }

  lemma EscapeErrorIsFlaw(x: Text)
    requires Cur(x) == BACKSLASH && ParseEscape(x).Err?
    ensures CharFlaw(x, ParseEscape(x).error)
  {
    hide ParseHex, HasTooFewDigits, BreaksDigitsAt;
    if StartsUnicodeEscape(x) {
      assert x[1..][1..] == x[2..];
      if ParseHex(x[2..], 4, 0).Err? {
        BrokenHexIsFlaw(x, x[2..]);
      } else {
        DigitsAreCodeUnit(x);
        var y := x[6..];
        if StartsUnicodeEscape(y) {
          assert y[2..] == x[8..];
          if ParseHex(x[8..], 4, 0).Err? && IsHigh(CodeUnit(x)) {
            BrokenHexIsFlaw(x, x[8..]);
          } else if ParseHex(x[8..], 4, 0).Ok? {
            DigitsAreCodeUnit(y);
          }
        }
      }
    } else {
      ShortEscapesAgree(Cur(x[1..]));
    }
  }

  lemma {:induction false} TailsErrorIsBreak(s: Text, count: nat) returns (n: nat)
    requires ParseTails(s, count).Err?
    ensures n < count && n <= |s| && (forall i :: 0 <= i < n ==> Utf8.IsTail(s[i])) && !(n < |s| && Utf8.IsTail(s[n]))
    ensures ParseTails(s, count).error == InvalidUtf8ContinuationByte
    decreases count
  {
    n := 0;
    if Utf8.IsTail(Cur(s)) {
      var m := TailsErrorIsBreak(s[1..], count - 1);
      assert forall i :: 1 <= i <= m ==> s[i] == s[1..][i - 1];
      n := m + 1;
    }
  }

  /** Some character that starts with these bytes */
  function Completion(lead: Byte, second: Byte, third: Byte): (o: Text)
    requires 0 < TailsAfter(lead) && SecondByteOk(lead, second) && Utf8.IsTail(third)
    ensures Utf8.IsOctets(o) && |o| == TailsAfter(lead) + 1 && o[0] == lead && o[1] == second
    ensures 3 <= |o| ==> o[2] == third
  {
    if TailsAfter(lead) == 1 then [lead, second]
    else if TailsAfter(lead) == 2 then [lead, second, third]
    else [lead, second, third, 0x80]
  }

  function AnySecond(lead: Byte): (second: Byte)
    ensures SecondByteOk(lead, second)
  {
    if lead == 0xE0 then 0xA0 else if lead == 0xF0 then 0x90 else 0x80
  }

  lemma Utf8ErrorIsFlaw(x: Text)
    requires x != [] && ParseUtf8Char(x).Err?
    ensures CharFlaw(x, ParseUtf8Char(x).error)
  {
    var lead := x[0];
    if 0 < TailsAfter(lead) {
      var t := x[1..];
      if !SecondByteOk(lead, Cur(t)) {
        var o := Completion(lead, AnySecond(lead), 0x80);
        assert o[..1] == x[..1];
        assert BreaksOctetsAt(x, 1) <==> !(1 < |x| && Utf8.IsTail(x[1]));
      } else {
        BrokenTailsAreFlaw(x);
      }
    }
  }

  lemma BrokenTailsAreFlaw(x: Text)
    requires 2 <= |x| && 0 < TailsAfter(x[0]) && SecondByteOk(x[0], x[1])
    requires ParseTails(x[2..], TailsAfter(x[0]) - 1).Err?
    ensures CharFlaw(x, InvalidUtf8ContinuationByte)
    ensures ParseTails(x[2..], TailsAfter(x[0]) - 1).error == InvalidUtf8ContinuationByte
  {
    var n := TailsErrorIsBreak(x[2..], TailsAfter(x[0]) - 1);
    var k := n + 2;
    var o := Completion(x[0], x[1], if n == 0 then 0x80 else x[2..][0]);
    assert o[..k] == x[..k];
    assert BreaksOctetsAt(x, k);
  }

  lemma CharErrorIsFlaw(x: Text)
    requires Cur(x) != NUL && ParseChar(x).Err?
    ensures CharFlaw(x, ParseChar(x).error)
  {
    hide ParseEscape, ParseUtf8Char;
    if x[0] == BACKSLASH {
      EscapeErrorIsFlaw(x);
    } else if 0x1F < x[0] {
      Utf8ErrorIsFlaw(x);
    }
  }

  /** One char that the loop of pvt_parse_string has read. */
  lemma CharIsRead(s: Text) returns (c: G.StrChar)
    requires Cur(s) != NUL && s[0] != QUOTE && ParseChar(s).Ok?
    ensures G.ValidChar(c) && s == G.SpellChar(c, ParseChar(s).rest) && ParseChar(s).value == CharBytes(c)
  {
    if s[0] == BACKSLASH {
      c := EscapeIsChar(s);
    } else {
      c := OctetsAreChar(s);
    }
  }

  /** What the loop of pvt_parse_string has read before it fails. */
  lemma {:induction false} CharsErrorIsFlaw(s: Text, acc: Text, room: nat) returns (cs: seq<G.StrChar>, rest: Text)
    requires ParseChars(s, acc, room).Err? && |acc| <= room
    ensures G.ValidChars(cs) && s == G.SpellChars(cs, rest)
    ensures var e := ParseChars(s, acc, room).error;
            if |acc| + |G.StringBytes(cs)| <= room then CharFlaw(rest, e) else e == MemoryOverrun
    decreases |s|
  {
    hide ParseChar, CharFlaw, G.StringBytes;
    cs, rest := [], s;
    NothingHasNoBytes();
    if Cur(s) == NUL {
      TextEndIsFlaw(s);
    } else if ParseChar(s).Err? {
      CharErrorIsFlaw(s);
    } else {
      var c := CharIsRead(s);
      var after := ParseChar(s).rest;
      var more := [];
      rest := after;
      if |acc| + |CharBytes(c)| <= room {
        more, rest := CharsErrorIsFlaw(after, acc + CharBytes(c), room);
      }
      cs := [c] + more;
      assert cs[0] == c && cs[1..] == more;
      StringBytesStep(cs);
    }
  }

  lemma TextEndIsFlaw(s: Text)
    requires Cur(s) == NUL
    ensures CharFlaw(s, UnterminatedString)
  {
  }

  lemma NothingHasNoBytes()
    ensures G.StringBytes([]) == []
  {
  }

  lemma StringErrorIsFlaw(s: Text, room: nat)
    requires Cur(s) == QUOTE && ParseString(s, room).Err?
    ensures StringFlaw(s, room, ParseString(s, room).error)
  {
    hide ParseChars, CharFlaw, G.StringBytes;
    var cs, rest := CharsErrorIsFlaw(s[1..], [], room);
    assert s == [QUOTE] + s[1..];
    assert SpellsString(s, cs, rest);
  }

  // ---------------------------------------------------------------------------------------------
  //  Numbers and names
  // ---------------------------------------------------------------------------------------------

  lemma NumberErrorIsFlaw(x: Text, size: nat)
    requires StartsNumber(Cur(x)) && ParseNumber(x, size).Err?
    ensures NumberFlaw(x, size, ParseNumber(x, size).error)
  {
    hide ParseFraction, ParseExponent;
    if Cur(x) != POINT && ParseIntegerPart(x).Ok? {
      var n := IntegerPartIsGrammatical(x);
      var u := ParseIntegerPart(x).rest;
      if Cur(u) == POINT || IsExponentMark(Cur(u)) {
        DoubleErrorIsFlaw(x, n, u, size);
      } else {
        LongNumberIsFlaw(x, n, u, size);
      }
    }
  }

  lemma LongNumberIsFlaw(x: Text, n: G.Number, rest: Text, size: nat)
    requires G.ValidNumber(n) && x == G.SpellNumber(n, rest) && |rest| <= |x| && size <= |Consumed(x, rest)|
    requires !IsDigit(Cur(rest))
    requires n.exponent.NoExponent? ==> !IsExponentMark(Cur(rest)) && (n.fraction.NoFraction? ==> Cur(rest) != POINT)
    ensures NumberFlaw(x, size, MemoryOverrun)
  {
    SpellNumberConcat(n, rest);
    ConsumedPrefix(G.SpellNumber(n, []), rest);
    assert G.EndsAfter(n, rest);
  }

  lemma FractionErrorIsFlaw(x: Text, n: G.Number, u: Text, size: nat)
    requires IsInteger(n) && x == G.SpellInteger(n, u) && ParseFraction(u).Err?
    ensures NumberFlaw(x, size, ParseFraction(u).error)
  {
    assert u == [POINT] + u[1..];
    assert BreaksFraction(x, n, u[1..]);
  }

  lemma ExponentErrorIsFlaw(x: Text, n: G.Number, v: Text, size: nat)
    requires G.ValidNumber(n) && n.exponent.NoExponent? && x == G.SpellNumber(n, v) && ParseExponent(v).Err?
    ensures NumberFlaw(x, size, ParseExponent(v).error)
  {
    var sign, d := ExponentSplits(v);
    hide G.SpellNumber, G.ValidNumber, ParseExponent;
    assert BreaksExponent(x, n, v[0], sign, d);
  }

  lemma ExponentSplits(v: Text) returns (sign: Text, d: Text)
    requires ParseExponent(v).Err?
    ensures ParseExponent(v).error == InvalidNumberFormat && IsExponentMark(v[0])
    ensures v == [v[0]] + (sign + d) && !StartsWithDigit(d)
    ensures if sign == [] then !StartsWith(d, PLUS) && !StartsWith(d, MINUS) else sign in {[PLUS], [MINUS]}
  {
    var u := v[1..];
    d := SkipSign(u);
    sign := if Cur(u) == MINUS || Cur(u) == PLUS then [u[0]] else [];
    assert u == sign + d;
    assert v == [v[0]] + u;
  }

  lemma DoubleErrorIsFlaw(x: Text, n: G.Number, u: Text, size: nat)
    requires IsInteger(n) && x == G.SpellInteger(n, u) && |u| <= |x| && ParseDouble(x, u, size).Err?
    requires Cur(u) == POINT || IsExponentMark(Cur(u))
    ensures NumberFlaw(x, size, ParseDouble(x, u, size).error)
  {
    hide NumberFlaw;
    if ParseFraction(u).Err? {
      FractionErrorIsFlaw(x, n, u, size);
    } else {
      var f := FractionIsGrammatical(u);
      var v := ParseFraction(u).rest;
      var m := n.(fraction := f);
      if ParseExponent(v).Err? {
        ExponentErrorIsFlaw(x, m, v, size);
      } else {
        var e := ExponentIsGrammatical(v);
        LongNumberIsFlaw(x, m.(exponent := e), ParseExponent(v).rest, size);
      }
    }
  }

  lemma {:induction false} LiteralErrorIsBreak(x: Text, name: Text, literal: JsonValue) returns (n: nat)
    requires NulFree(name) && ParseLiteral(x, name, literal).Err?
    ensures n < |name| && n <= |x| && x[..n] == name[..n] && !(n < |x| && x[n] == name[n])
    ensures ParseLiteral(x, name, literal).error == if AtEnd(x[n..]) then UnexpectedEof else UnexpectedText
    ensures x != [] && name != [] && x[0] == name[0] != NUL ==> 1 <= n
    decreases |name|
  {
    n := 0;
    if Cur(x) != NUL && x[0] == name[0] {
      var m := LiteralErrorIsBreak(x[1..], name[1..], literal);
      n := m + 1;
      assert x[..n] == [x[0]] + x[1..][..m] && name[..n] == [name[0]] + name[1..][..m] && x[n..] == x[1..][m..];
    }
  }

  lemma NameErrorIsFlaw(x: Text, name: Text, literal: JsonValue)
    requires name in NAMES && Cur(x) == name[0] && ParseLiteral(x, name, literal).Err?
    ensures NameFlaw(x, ParseLiteral(x, name, literal).error)
  {
    var n := LiteralErrorIsBreak(x, name, literal);
    assert BreaksName(x, name, n);
  }

  /** What is wrong with a text that starts neither an array nor an object. */
  lemma ScalarErrorIsFlaw(t: Text, depth: nat, max: Limits)
    requires SkipWs(t) == t && StartsScalar(Cur(t)) && ParseValue(t, depth, max).Err?
    ensures ValueFlaw(t, depth, max, ParseValue(t, depth, max).error)
  {
    hide ParseNumber, ParseString, ParseLiteral, NumberFlaw, StringFlaw, NameFlaw;
    var c := Cur(t);
    if c == QUOTE {
      StringErrorIsFlaw(t, max.room);
    } else if StartsNumber(c) {
      NumberErrorIsFlaw(t, max.buffer);
    } else if c == LOWER_T {
      NameErrorIsFlaw(t, KEYWORD_TRUE, Boolean(true));
    } else if c == LOWER_F {
      NameErrorIsFlaw(t, KEYWORD_FALSE, Boolean(false));
    } else if c == LOWER_N {
      NameErrorIsFlaw(t, KEYWORD_NULL, Null);
    }
  }

  // ---------------------------------------------------------------------------------------------
  //  Arrays
  // ---------------------------------------------------------------------------------------------

  /** An array that is flawed after its first elements, and the same flaw after others */
  function WithItems(f: Flaw, items: seq<G.Item>): Flaw
    requires f.AfterItems? || f.InItem?
  {
    f.(items := items)
  }

  /** The text after the last element before the flaw */
  function ItemsTail(f: Flaw): Text
    requires f.AfterItems? || f.InItem?
  {
    if f.AfterItems? then f.rest else [COMMA] + (f.lead + Spell(f.element))
  }

  /** The flaw that the loop of pvt_parse_array comes to, once there are elements */
  ghost predicate StopsItems(f: Flaw, depth: nat, max: Limits, e: ErrorType) {
    match f
    case AfterItems(_, rest) => ListFlaw(false, rest, RIGHT_BRACKET, UnterminatedArray, e)
    case InItem(_, lead, element) =>
      G.IsWs(lead) && !StartsWith(Spell(element), RIGHT_BRACKET) && InArray(element, depth, max, e)
    case _ => false
  }

  lemma CommaErrorIsFlaw(s: Text, close: Byte, unterminated: ErrorType)
    requires SkipWs(s) == s && !AtEnd(s) && s[0] != close && ParseComma(s, close).Err?
    requires close == RIGHT_BRACKET || close == RIGHT_BRACE
    requires unterminated == UnterminatedArray || unterminated == UnterminatedObject
    ensures ListFlaw(false, s, close, unterminated, ParseComma(s, close).error)
  {
    hide EndsInComma;
    if s[0] == COMMA {
      TrailingCommaIsFlaw(s, close);
    }
  }

  lemma TrailingCommaIsFlaw(s: Text, close: Byte)
    requires StartsWith(s, COMMA) && Cur(SkipWs(s[1..])) == close != NUL
    ensures EndsInComma(s, close)
  {
    hide SkipWs, G.IsWs;
    var gap := SkipWsSplits(s[1..]);
    var u := SkipWs(s[1..]);
    var rest := u[1..];
    CommaAndClose(s, gap, u, close);
    assert G.IsWs(gap) && s == [COMMA] + (gap + ([close] + rest));
  }

  lemma CommaAndClose(s: Text, gap: Text, u: Text, close: Byte)
    requires StartsWith(s, COMMA) && s[1..] == gap + u && StartsWith(u, close)
    ensures s == [COMMA] + (gap + ([close] + u[1..]))
  {
    assert u == [close] + u[1..] && s == [COMMA] + s[1..];
  }

  lemma EndIsFlaw(empty: bool, gap: Text, end: Text, close: Byte, unterminated: ErrorType)
    requires G.IsWs(gap) && AtEnd(end)
    ensures ListFlaw(empty, gap + end, close, unterminated, unterminated)
  {
  }

  lemma NothingIsItems(depth: nat, max: Limits, tail: Text)
    requires depth <= max.depth
    ensures AreItems([], depth, max) && AreMembers([], depth, max)
    ensures G.EndsItems([], tail) && G.EndsMembers([], tail)
  {
  }

  lemma PrependToItems(first: G.Item, more: seq<G.Item>, tail: Text, depth: nat, max: Limits)
    requires G.ValidItem(first) && G.Valid(first.value) && G.Fits(first.value, max)
    requires depth + G.Depth(first.value) <= max.depth && AreItems(more, depth, max)
    requires G.Ends(first.value, first.trail + G.SpellMore(more, tail)) && G.EndsItems(more, tail)
    ensures AreItems([first] + more, depth, max) && G.EndsItems([first] + more, tail)
    ensures G.SpellMore([first] + more, tail)
         == [COMMA] + (first.lead + G.Spell(first.value, first.trail + G.SpellMore(more, tail)))
    ensures SpellItems([first] + more, tail)
         == first.lead + G.Spell(first.value, first.trail + G.SpellMore(more, tail))
  {
    hide G.Ends, G.Depth, G.Spell, G.Fits;
    assert ([first] + more)[1..] == more;
  }

  /** An element that pvt_parse_value fails on */
  lemma ElementError(f: Flaw, y: Text, depth: nat, max: Limits)
    requires ParseElement(y, depth, max).Err? && ParseValue(y, depth, max).Err?
    requires IsFlaw(f, depth, max, ParseValue(y, depth, max).error)
    ensures InArray(f, depth, max, ParseElement(y, depth, max).error)
  {
    hide ParseValue;
  }

  lemma {:induction false} ItemsErrorHasFlaw(s: Text, depth: nat, max: Limits, acc: seq<JsonValue>)
    returns (items: seq<G.Item>, f: Flaw)
    requires depth <= max.depth && SkipWs(s) == s && ParseElements(s, depth, max, acc).Err?
    ensures f.AfterItems? || f.InItem?
    ensures StopsItems(f, depth, max, ParseElements(s, depth, max, acc).error)
    ensures AreItems(items, depth, max) && s == G.SpellMore(items, ItemsTail(f)) && G.EndsItems(items, ItemsTail(f))
    decreases |s|, 0
  {
    hide ParseValue, ParseComma, ParseElement, ListFlaw, G.Spell, G.Valid, G.Fits, G.Depth, IsFlaw, InArray, AreItems;
    items := [];
    NothingIsItems(depth, max, s);
    if Cur(s) == NUL {
      f := AfterItems([], s);
      assert [] + s == s;
      EndIsFlaw(false, [], s, RIGHT_BRACKET, UnterminatedArray);
    } else if ParseComma(s, RIGHT_BRACKET).Err? {
      f := AfterItems([], s);
      CommaErrorIsFlaw(s, RIGHT_BRACKET, UnterminatedArray);
    } else {
      CommaSplits(s, RIGHT_BRACKET);
      var y := SkipWs(s[1..]);
      if ParseElement(y, depth, max).Err? {
        var gap := SkipWsSplits(s[1..]);
        var element := ElementErrorHasFlaw(y, depth, max);
        f := InItem([], gap, element);
      } else {
        NextElementSteps(s, depth, max);
        var first, u := ItemIsGrammatical(s[1..], depth, max);
        var more;
        more, f := ItemsErrorHasFlaw(u, depth, max, acc + [G.Meaning(first.value)]);
        PrependToItems(first, more, ItemsTail(f), depth, max);
        items := [first] + more;
      }
    }
  }

  lemma CommaSplits(s: Text, close: Byte)
    requires SkipWs(s) == s && ParseComma(s, close).Ok?
    ensures StartsWith(s, COMMA) && s == [COMMA] + s[1..]
    ensures var y := SkipWs(s[1..]);
            SkipWs(y) == y && ParseComma(s, close) == Ok((), y) && (close != NUL ==> !StartsWith(y, close))
  {
    SkipWsTwice(s[1..]);
  }

  lemma {:induction false} ElementErrorHasFlaw(y: Text, depth: nat, max: Limits) returns (f: Flaw)
    requires depth <= max.depth && SkipWs(y) == y && ParseElement(y, depth, max).Err?
    ensures y == Spell(f) && InArray(f, depth, max, ParseElement(y, depth, max).error)
    decreases |y|, 5
  {
    f := ValueErrorHasFlaw(y, depth, max);
    ElementError(f, y, depth, max);
  }

  lemma {:induction false} ArrayErrorHasFlaw(t: Text, depth: nat, max: Limits) returns (f: Flaw)
    requires depth + 1 <= max.depth && Cur(t) == LEFT_BRACKET && ParseValue(t, depth, max).Err?
    ensures t == Spell(f) && IsFlaw(f, depth, max, ParseValue(t, depth, max).error)
    decreases |t|, 3
  {
    hide ParseValue, ParseElement, ParseElements, InArray, AreItems, G.Spell, G.Valid, G.Fits, G.Depth, Spell, IsFlaw;
    hide G.EndsItems, G.Ends, G.SpellMore, SkipWs, G.IsWs, StopsItems;
    var e := ParseValue(t, depth, max).error;
    var gap := SkipWsSplits(t[1..]);
    var b := SkipWs(t[1..]);
    assert t == [LEFT_BRACKET] + t[1..];
    ArrayReachesBody(t, depth, max);
    SkipWsTwice(t[1..]);
    EmptyArrayError(b, depth + 1, max);
    if Cur(b) == NUL {
      f := AfterItems([], t[1..]);
      EndOfArrayIsFlawed(gap, b, depth, max);
    } else if Cur(b) == RIGHT_BRACKET {
      assert false;
    } else if ParseElement(b, depth + 1, max).Err? {
      var element := ElementErrorHasFlaw(b, depth + 1, max);
      f := InItem([], gap, element);
      FirstItemIsFlawed(gap, element, depth, max, e);
    } else {
      FirstElementSteps(b, depth + 1, max);
      var first, u := ItemIsGrammatical(t[1..], depth + 1, max);
      var more, g := ItemsErrorHasFlaw(u, depth + 1, max, [G.Meaning(first.value)]);
      PrependToItems(first, more, ItemsTail(g), depth + 1, max);
      f := WithItems(g, [first] + more);
      ArrayIsFlawed(g, [first] + more, depth, max, e);
    }
  }

  lemma EndOfArrayIsFlawed(gap: Text, b: Text, depth: nat, max: Limits)
    requires depth + 1 <= max.depth && G.IsWs(gap) && AtEnd(b)
    ensures var f := AfterItems([], gap + b);
            IsFlaw(f, depth, max, UnterminatedArray) && Spell(f) == [LEFT_BRACKET] + (gap + b)
  {
    EndIsFlaw(true, gap, b, RIGHT_BRACKET, UnterminatedArray);
  }

  lemma FirstItemIsFlawed(gap: Text, element: Flaw, depth: nat, max: Limits, e: ErrorType)
    requires depth + 1 <= max.depth && G.IsWs(gap) && InArray(element, depth + 1, max, e)
    requires !AtEnd(Spell(element)) && !StartsWith(Spell(element), RIGHT_BRACKET)
    ensures var f := InItem([], gap, element);
            IsFlaw(f, depth, max, e) && Spell(f) == [LEFT_BRACKET] + (gap + Spell(element))
  {
    hide InArray;
    NothingIsItems(depth + 1, max, []);
  }

  /** The flaw of the loop is one of the array. */
  lemma ArrayIsFlawed(g: Flaw, items: seq<G.Item>, depth: nat, max: Limits, e: ErrorType)
    requires items != [] && AreItems(items, depth + 1, max) && (g.AfterItems? || g.InItem?)
    requires StopsItems(g, depth + 1, max, e) && G.EndsItems(items, ItemsTail(g))
    ensures var f := WithItems(g, items);
            IsFlaw(f, depth, max, e) && Spell(f) == [LEFT_BRACKET] + SpellItems(items, ItemsTail(g))
  {
    hide AreItems, G.EndsItems, ListFlaw, SpellItems;
  }

  lemma EmptyArrayError(b: Text, depth: nat, max: Limits)
    ensures Cur(b) == NUL ==> ParseArrayBody(b, depth, max).ErrorCode() == Some(UnterminatedArray)
    ensures Cur(b) == RIGHT_BRACKET ==> ParseArrayBody(b, depth, max).Ok?
  {
  }

  lemma FirstElementSteps(b: Text, depth: nat, max: Limits)
    requires Cur(b) != NUL && Cur(b) != RIGHT_BRACKET && ParseElement(b, depth, max).Ok?
    ensures var p := ParseValue(b, depth, max);
            p.Ok? && ParseArrayBody(b, depth, max) == ParseElements(SkipWs(p.rest), depth, max, [p.value])
  {
    hide ParseElements, ParseValue;
  }

  // ---------------------------------------------------------------------------------------------
  //  Objects
  // ---------------------------------------------------------------------------------------------

  /** The flaw of an object, with other members in front of it */
  function WithMembers(f: Flaw, ms: seq<G.Member>): Flaw
    requires f.AfterMembers? || f.NoKey? || f.AfterKey? || f.InMember?
  {
    f.(members := ms)
  }

  /** The text of the member in which there is a flaw */
  function EntryText(f: Flaw): Text
    requires f.NoKey? || f.AfterKey? || f.InMember?
  {
    match f
    case NoKey(_, lead, rest) => lead + rest
    case AfterKey(_, key, rest) => SpellName(key, rest)
    case InMember(_, key, after, value) => SpellName(key, [COLON] + (after + Spell(value)))
  }

  /** The text after the last member before the flaw */
  function MembersTail(f: Flaw): Text
    requires f.AfterMembers? || f.NoKey? || f.AfterKey? || f.InMember?
  {
    if f.AfterMembers? then f.rest else [COMMA] + EntryText(f)
  }

  /** The flaw of a member */
  ghost predicate StopsEntry(f: Flaw, depth: nat, max: Limits, e: ErrorType) {
    match f
    case NoKey(_, lead, rest) => G.IsWs(lead) && !StartsWith(rest, RIGHT_BRACE) && KeyFlaw(rest, max, e)
    case AfterKey(_, key, rest) => IsKey(key, max) && ColonFlaw(rest, e)
    case InMember(_, key, after, value) =>
      IsKey(key, max) && G.IsWs(after) && !AtEnd(Spell(value)) && IsFlaw(value, depth, max, e)
    case _ => false
  }

  /** The flaw that the loop of pvt_parse_object comes to, once there are members */
  ghost predicate StopsMembers(f: Flaw, depth: nat, max: Limits, e: ErrorType) {
    if f.AfterMembers? then ListFlaw(false, f.rest, RIGHT_BRACE, UnterminatedObject, e)
    else StopsEntry(f, depth, max, e)
  }

  lemma PrependToMembers(first: G.Member, more: seq<G.Member>, tail: Text, depth: nat, max: Limits)
    requires G.ValidMember(first) && G.Valid(first.value) && G.Fits(first.value, max)
    requires |G.StringBytes(first.key)| <= max.room
    requires depth + G.Depth(first.value) <= max.depth && AreMembers(more, depth, max)
    requires G.Ends(first.value, first.trail + G.SpellOthers(more, tail)) && G.EndsMembers(more, tail)
    ensures AreMembers([first] + more, depth, max) && G.EndsMembers([first] + more, tail)
    ensures var text := G.SpellKey(first, G.Spell(first.value, first.trail + G.SpellOthers(more, tail)));
            G.SpellOthers([first] + more, tail) == [COMMA] + text && SpellMembers([first] + more, tail) == text
  {
    hide G.Ends, G.Depth, G.Spell, G.Fits, G.StringBytes, G.SpellKey;
    assert ([first] + more)[1..] == more;
  }

  /** The steps of pvt_parse_one_entry that fail before the value */
  lemma KeyErrorHasFlaw(y: Text, gap: Text, depth: nat, max: Limits) returns (f: Flaw)
    requires SkipWs(y) == y && G.IsWs(gap) && Cur(y) != RIGHT_BRACE && ParseKey(y, max.room).Err?
    ensures f.NoKey? || f.AfterKey? || f.InMember?
    ensures StopsEntry(f, depth, max, ParseKey(y, max.room).error) && gap + y == EntryText(f)
    ensures f.NoKey? ==> f.rest == y
  {
    hide ParseString, StringFlaw, CharFlaw, G.StringBytes, G.SpellString;
    if Cur(y) != QUOTE {
      f := NoKey([], gap, y);
    } else if ParseString(y, max.room).Err? {
      StringErrorIsFlaw(y, max.room);
      f := NoKey([], gap, y);
    } else {
      var chars := StringIsGrammatical(y, max.room);
      var r := ParseString(y, max.room).rest;
      var trail := SkipWsSplits(r);
      var u := SkipWs(r);
      SkipWsTwice(r);
      f := AfterKey([], Key(gap, chars, trail), u);
      ColonErrorIsFlaw(r, u);
    }
  }

  lemma ColonErrorIsFlaw(r: Text, u: Text)
    requires ParseColon(r).Err? && u == SkipWs(r)
    ensures ColonFlaw(u, ParseColon(r).error)
  {
    if Cur(u) == COLON {
      var gap := SkipWsSplits(u[1..]);
      assert u == [COLON] + (gap + SkipWs(u[1..]));
    }
  }

  /** A key and its colon, and the text at which the value is parsed */
  lemma KeyIsRead(y: Text, gap: Text, max: Limits) returns (key: Key, after: Text)
    requires SkipWs(y) == y && G.IsWs(gap) && ParseKey(y, max.room).Ok?
    ensures IsKey(key, max) && G.IsWs(after)
    ensures var w := ParseKey(y, max.room).rest;
            gap + y == SpellName(key, [COLON] + (after + w)) && SkipWs(w) == w && Cur(w) != NUL
  {
    hide ParseString, G.StringBytes, G.SpellString;
    var chars := StringIsGrammatical(y, max.room);
    var r := ParseString(y, max.room).rest;
    var trail := SkipWsSplits(r);
    var u := SkipWs(r);
    after := SkipWsSplits(u[1..]);
    SkipWsTwice(u[1..]);
    key := Key(gap, chars, trail);
    assert u == [COLON] + u[1..];
  }

  lemma {:induction false} EntryErrorHasFlaw(y: Text, gap: Text, depth: nat, max: Limits) returns (f: Flaw)
    requires depth <= max.depth && SkipWs(y) == y && G.IsWs(gap) && Cur(y) != RIGHT_BRACE
    requires ParseEntry(y, depth, max).Err?
    ensures f.NoKey? || f.AfterKey? || f.InMember?
    ensures StopsEntry(f, depth, max, ParseEntry(y, depth, max).error) && gap + y == EntryText(f)
    ensures f.NoKey? ==> f.rest == y
    decreases |y|, 5
  {
    hide ParseKey, ParseValue, KeyFlaw, ColonFlaw, IsKey, SpellName;
    if ParseKey(y, max.room).Err? {
      f := KeyErrorHasFlaw(y, gap, depth, max);
    } else {
      var key, after := KeyIsRead(y, gap, max);
      var w := ParseKey(y, max.room).rest;
      var value := ValueErrorHasFlaw(w, depth, max);
      f := InMember([], key, after, value);
    }
  }

  lemma {:induction false} MembersErrorHasFlaw(s: Text, depth: nat, max: Limits, acc: seq<Entry>)
    returns (ms: seq<G.Member>, f: Flaw)
    requires depth <= max.depth && SkipWs(s) == s && ParseMembers(s, depth, max, acc).Err?
    ensures f.AfterMembers? || f.NoKey? || f.AfterKey? || f.InMember?
    ensures StopsMembers(f, depth, max, ParseMembers(s, depth, max, acc).error)
    ensures AreMembers(ms, depth, max) && s == G.SpellOthers(ms, MembersTail(f)) && G.EndsMembers(ms, MembersTail(f))
    decreases |s|, 0
  {
    hide ParseComma, ParseEntry, ListFlaw, G.Spell, G.Valid, G.Fits, G.Depth, G.StringBytes, G.SpellKey;
    hide StopsEntry, EntryText, AreMembers;
    ms := [];
    NothingIsItems(depth, max, s);
    if Cur(s) == NUL {
      f := AfterMembers([], s);
      assert [] + s == s;
      EndIsFlaw(false, [], s, RIGHT_BRACE, UnterminatedObject);
    } else if ParseComma(s, RIGHT_BRACE).Err? {
      f := AfterMembers([], s);
      CommaErrorIsFlaw(s, RIGHT_BRACE, UnterminatedObject);
    } else {
      CommaSplits(s, RIGHT_BRACE);
      var y := SkipWs(s[1..]);
      if ParseEntry(y, depth, max).Err? {
        var gap := SkipWsSplits(s[1..]);
        f := EntryErrorHasFlaw(y, gap, depth, max);
      } else {
        NextEntrySteps(s, depth, max);
        var first, u := MemberIsGrammatical(s[1..], depth, max);
        var more;
        more, f := MembersErrorHasFlaw(u, depth, max, acc + [Entry(G.StringBytes(first.key), G.Meaning(first.value))]);
        PrependToMembers(first, more, MembersTail(f), depth, max);
        ms := [first] + more;
      }
    }
  }

  lemma {:induction false} ObjectErrorHasFlaw(t: Text, depth: nat, max: Limits) returns (f: Flaw)
    requires depth + 1 <= max.depth && Cur(t) == LEFT_BRACE && ParseValue(t, depth, max).Err?
    ensures t == Spell(f) && IsFlaw(f, depth, max, ParseValue(t, depth, max).error)
    decreases |t|, 3
  {
    hide ParseValue, ParseEntry, ParseMembers, AreMembers, G.Spell, G.Valid, G.Fits, G.Depth, Spell, IsFlaw;
    hide G.EndsMembers, G.Ends, G.SpellOthers, G.SpellKey, G.StringBytes, SkipWs, G.IsWs, StopsMembers, StopsEntry;
    hide EntryText;
    var e := ParseValue(t, depth, max).error;
    var gap := SkipWsSplits(t[1..]);
    var b := SkipWs(t[1..]);
    assert t == [LEFT_BRACE] + t[1..];
    ObjectReachesBody(t, depth, max);
    SkipWsTwice(t[1..]);
    EmptyObjectError(b, depth + 1, max);
    if Cur(b) == NUL {
      f := AfterMembers([], t[1..]);
      EndOfObjectIsFlawed(gap, b, depth, max);
    } else if Cur(b) == RIGHT_BRACE {
      assert false;
    } else if ParseEntry(b, depth + 1, max).Err? {
      f := EntryErrorHasFlaw(b, gap, depth + 1, max);
      FirstEntryIsFlawed(f, depth, max, e);
      f := WithMembers(f, []);
    } else {
      FirstEntrySteps(b, depth + 1, max);
      var first, u := MemberIsGrammatical(t[1..], depth + 1, max);
      var more, g := MembersErrorHasFlaw(u, depth + 1, max, [Entry(G.StringBytes(first.key), G.Meaning(first.value))]);
      PrependToMembers(first, more, MembersTail(g), depth + 1, max);
      f := WithMembers(g, [first] + more);
      ObjectIsFlawed(g, [first] + more, depth, max, e);
    }
  }

  lemma EndOfObjectIsFlawed(gap: Text, b: Text, depth: nat, max: Limits)
    requires depth + 1 <= max.depth && G.IsWs(gap) && AtEnd(b)
    ensures var f := AfterMembers([], gap + b);
            IsFlaw(f, depth, max, UnterminatedObject) && Spell(f) == [LEFT_BRACE] + (gap + b)
  {
    EndIsFlaw(true, gap, b, RIGHT_BRACE, UnterminatedObject);
  }

  /** The flaw of the loop is one of the object. */
  lemma ObjectIsFlawed(g: Flaw, ms: seq<G.Member>, depth: nat, max: Limits, e: ErrorType)
    requires ms != [] && AreMembers(ms, depth + 1, max)
    requires g.AfterMembers? || g.NoKey? || g.AfterKey? || g.InMember?
    requires StopsMembers(g, depth + 1, max, e) && G.EndsMembers(ms, MembersTail(g))
    ensures var f := WithMembers(g, ms);
            IsFlaw(f, depth, max, e) && Spell(f) == [LEFT_BRACE] + SpellMembers(ms, MembersTail(g))
  {
    hide AreMembers, G.EndsMembers, ListFlaw, KeyFlaw, ColonFlaw, SpellMembers;
  }

  /** So is the flaw of the first member. */
  lemma FirstEntryIsFlawed(g: Flaw, depth: nat, max: Limits, e: ErrorType)
    requires depth + 1 <= max.depth && (g.NoKey? || g.AfterKey? || g.InMember?) && (g.NoKey? ==> !AtEnd(g.rest))
    requires StopsEntry(g, depth + 1, max, e)
    ensures var f := WithMembers(g, []);
            IsFlaw(f, depth, max, e) && Spell(f) == [LEFT_BRACE] + EntryText(g)
  {
    hide AreMembers, KeyFlaw, ColonFlaw, SpellName;
    NothingIsItems(depth + 1, max, []);
  }

  lemma EmptyObjectError(b: Text, depth: nat, max: Limits)
    ensures Cur(b) == NUL ==> ParseObjectBody(b, depth, max).ErrorCode() == Some(UnterminatedObject)
    ensures Cur(b) == RIGHT_BRACE ==> ParseObjectBody(b, depth, max).Ok?
  {
  }

  lemma FirstEntrySteps(b: Text, depth: nat, max: Limits)
    requires Cur(b) != NUL && Cur(b) != RIGHT_BRACE && ParseEntry(b, depth, max).Ok?
    ensures var p := ParseEntry(b, depth, max);
            ParseObjectBody(b, depth, max) == ParseMembers(SkipWs(p.rest), depth, max, [p.value])
  {
    hide ParseMembers, ParseEntry;
  }

  // ---------------------------------------------------------------------------------------------
  //  Values and texts
  // ---------------------------------------------------------------------------------------------

  /** Whatever pvt_parse_value reports, there is a flaw with this error in the text. */
  lemma {:induction false} ValueErrorHasFlaw(t: Text, depth: nat, max: Limits) returns (f: Flaw)
    requires depth <= max.depth && SkipWs(t) == t && ParseValue(t, depth, max).Err?
    ensures t == Spell(f) && IsFlaw(f, depth, max, ParseValue(t, depth, max).error)
    decreases |t|, 4
  {
    if StartsScalar(Cur(t)) {
      ScalarErrorIsFlaw(t, depth, max);
      f := NoValue(t);
    } else if max.depth < depth + 1 {
      f := NoValue(t);
    } else if Cur(t) == LEFT_BRACKET {
      f := ArrayErrorHasFlaw(t, depth, max);
    } else {
      f := ObjectErrorHasFlaw(t, depth, max);
    }
  }

  lemma BodyErrorIsFlaw(body: Text, max: Limits)
    requires ParseBody(body, max).Err?
    ensures BodyFlaw(body, max, ParseBody(body, max).error)
  {
    hide ParseValue, G.Spell, G.Valid, G.Fits, G.Depth, G.Ends, IsFlaw, Spell;
    var ws := SkipWsSplits(body);
    var s := SkipWs(body);
    SkipWsTwice(body);
    if Cur(s) != NUL && Cur(s) != EOF_BYTE {
      if ParseValue(s, 0, max).Err? {
        var f := ValueErrorHasFlaw(s, 0, max);
      } else {
        var i, u := ItemIsGrammatical(body, 0, max);
        assert G.Derives(body, i.lead, i.value, i.trail, u);
      }
    }
  }

  /** The error of a text says what is wrong with it: the parser reports an error iff the text has a flaw with it. */
  lemma ErrorsAreFlaws(text: Text, max: Limits, e: ErrorType)
    ensures Parse(text, max).ErrorCode() == Some(e) <==> TextFlaw(text, max, e)
  {
    hide BodyFlaw, ParseBody;
    if TextFlaw(text, max, e) {
      JsonErrors.TextFlawIsReported(text, max, e);
    }
    if Parse(text, max).ErrorCode() == Some(e) {
      TextErrorIsFlaw(text, max);
    }
  }

  lemma TextErrorIsFlaw(text: Text, max: Limits)
    requires Parse(text, max).Err?
    ensures TextFlaw(text, max, Parse(text, max).error)
  {
    hide BodyFlaw;
    if !([0xFE, 0xFF] <= text || [0xFF, 0xFE] <= text) {
      if Cur(text) == NUL {
        EmptyBodyError(text, max);
      }
      BodyErrorIsFlaw(SkipBom(text), max);
    }
  }

  lemma EmptyBodyError(text: Text, max: Limits)
    requires Cur(text) == NUL
    ensures SkipBom(text) == text && ParseBody(text, max) == Err(EmptyText, text)
  {
  }

  /** No text has two different flaws, and a C string has one iff it is no JSON text up to the first byte 0xFF. */
  lemma FlawedOrAccepted(text: Text, max: Limits)
    requires NulFree(text)
    ensures forall e1, e2 :: TextFlaw(text, max, e1) && TextFlaw(text, max, e2) ==> e1 == e2
    ensures (exists e :: TextFlaw(text, max, e)) <==> !IsJsonText(UpToEof(SkipBom(text)), max)
  {
    hide TextFlaw, Parse, IsJsonText, SkipBom, UpToEof;
    forall e
      ensures TextFlaw(text, max, e) <==> Parse(text, max).ErrorCode() == Some(e)
    {
      ErrorsAreFlaws(text, max, e);
    }
    ParserReadsUpToEof(text, max);
    assert Parse(text, max).Err? ==> TextFlaw(text, max, Parse(text, max).error);
  }
}
