/** How the printed text is laid out, read off the text alone: where its lines break, and how far they are indented. */
module JsonLayout {
  import opened Bytes
  import opened JsonBytes
  import opened JsonValues
  import opened JsonPrinterSpec
  import opened JsonRoundTrip
  import opened JsonLiterals

  // ---------------------------------------------------------------------------------------------
  //  Reading a layout
  // ---------------------------------------------------------------------------------------------

  /** What the last byte before the cursor is, spaces aside */
  datatype Place = OnNewLine | AfterOpening | AfterComma | AfterToken

  /** What a reader from left to right knows: how many brackets are open, and whether the cursor is in a string. */
  datatype Reader = Reader(open: int, inString: bool, escaped: bool, place: Place)

  const START := Reader(0, false, false, OnNewLine)

  predicate IsOpening(b: Byte) {
    b == '[' as int || b == '{' as int
  }

  predicate IsClosing(b: Byte) {
    b == ']' as int || b == '}' as int
  }

  function Step(at: Reader, b: Byte): Reader {
    if at.escaped then at.(escaped := false)
    else if at.inString then
      if b == '\\' as int then at.(escaped := true) else if b == '"' as int then at.(inString := false) else at
    else if b == ' ' as int then at
    else if b == '\n' as int then at.(place := OnNewLine)
    else if b == ',' as int then at.(place := AfterComma)
    else if IsOpening(b) then at.(open := at.open + 1, place := AfterOpening)
    else if IsClosing(b) then at.(open := at.open - 1, place := AfterToken)
    else at.(inString := b == '"' as int, place := AfterToken)
  }

  function Read(at: Reader, s: Text): Reader
    decreases |s|
  {
    if s == [] then at else Read(Step(at, s[0]), s[1..])
  }

  function Spaces(s: Text): (n: nat)
    ensures n <= |s|
  {
    if s == [] || s[0] != ' ' as int then 0 else 1 + Spaces(s[1..])
  }

  /** A line, from behind its newline, starts with exactly `indent` spaces for every open bracket; a closing bracket
      at its start counts as closed. */
  predicate StartsLine(line: Text, open: int, indent: nat) {
    var n := Spaces(line);
    n < |line| && n == indent * if IsClosing(line[n]) then open - 1 else open
  }

  /** What the layout asks of the text ahead: no newline in a string; a new line after every comma, after every
      bracket that is not closed at once, and before every bracket that closes elements; and the indentation. */
  predicate IsLaidOut(at: Reader, s: Text, indent: nat)
    requires s != []
  {
    if at.inString then s[0] != '\n' as int
    else
      && (at.place.AfterComma? ==> s[0] == '\n' as int)
      && (at.place.AfterOpening? ==> s[0] == '\n' as int || IsClosing(s[0]))
      && (IsClosing(s[0]) ==> at.place.OnNewLine? || at.place.AfterOpening?)
      && (s[0] == '\n' as int ==> StartsLine(s[1..], at.open, indent))
  }

  /** Everywhere in the text */
  predicate LaidOut(at: Reader, s: Text, indent: nat)
    decreases |s|
  {
    s == [] || (IsLaidOut(at, s, indent) && LaidOut(Step(at, s[0]), s[1..], indent))
  }

  // ---------------------------------------------------------------------------------------------
  //  Strings and other tokens
  // ---------------------------------------------------------------------------------------------

  /** Outside strings */
  function Outside(open: int, place: Place): Reader {
    Reader(open, false, false, place)
  }

  function Inside(open: int): Reader {
    Reader(open, true, false, AfterToken)
  }

  /** What is between two quotes does not end before the second one, and has no newline. */
  predicate StaysInside(s: Text) {
    if s == [] then true
    else if s[0] == '\\' as int then 2 <= |s| && s[1] != '\n' as int && StaysInside(s[2..])
    else s[0] != '"' as int && s[0] != '\n' as int && StaysInside(s[1..])
  }

  /** Keys are printed raw: this says when a raw key is still one string. */
  predicate KeysStayInside(v: JsonValue) {
    match v
    case Array(es) => forall i :: 0 <= i < |es| ==> KeysStayInside(es[i])
    case Object(es) => forall i :: 0 <= i < |es| ==> StaysInside(RawKey(es[i].key)) && KeysStayInside(es[i].value)
    case _ => true
  }

  lemma OneByte(at: Reader, b: Byte, rest: Text, indent: nat)
    ensures LaidOut(at, [b] + rest, indent) <==> IsLaidOut(at, [b] + rest, indent) && LaidOut(Step(at, b), rest, indent)
  {
    assert ([b] + rest)[1..] == rest;
  }

  lemma {:induction false} InsideIsLaidOut(open: int, s: Text, rest: Text, indent: nat)
    requires StaysInside(s) && LaidOut(Inside(open), rest, indent)
    ensures LaidOut(Inside(open), s + rest, indent)
    decreases |s|
  {
    hide LaidOut;
    if s == [] {
      assert s + rest == rest;
    } else if s[0] == '\\' as int {
      InsideIsLaidOut(open, s[2..], rest, indent);
      var t := s[2..] + rest;
      assert s + rest == [s[0]] + ([s[1]] + t);
      OneByte(Inside(open).(escaped := true), s[1], t, indent);
      OneByte(Inside(open), s[0], [s[1]] + t, indent);
    } else {
      InsideIsLaidOut(open, s[1..], rest, indent);
      assert s + rest == [s[0]] + (s[1..] + rest);
      OneByte(Inside(open), s[0], s[1..] + rest, indent);
    }
  }

  /** Escapes keep a string on one line. */
  lemma {:induction false} EscapesStayInside(t: Text)
    ensures StaysInside(EscapeBytes(t))
  {
    if t != [] {
      EscapesStayInside(t[1..]);
      EscapeStaysInside(t[0], EscapeBytes(t[1..]));
    }
  }

  lemma PlainStaysInside(b: Byte, more: Text)
    requires StaysInside(more) && b != '\\' as int && b != '"' as int && b != '\n' as int
    ensures StaysInside([b] + more)
  {
    assert ([b] + more)[1..] == more;
  }

  lemma EscapeStaysInside(b: Byte, more: Text)
    requires StaysInside(more)
    ensures StaysInside(EscapeByte(b) + more)
  {
    var e := EscapeByte(b);
    if |e| == 6 {
      PlainStaysInside(e[5], more);
      PlainStaysInside(e[4], [e[5]] + more);
      PlainStaysInside(e[3], [e[4]] + ([e[5]] + more));
      PlainStaysInside(e[2], [e[3]] + ([e[4]] + ([e[5]] + more)));
      assert (e + more)[2..] == [e[2]] + ([e[3]] + ([e[4]] + ([e[5]] + more)));
    } else if |e| == 2 {
      assert (e + more)[2..] == more;
    } else {
      assert e + more == [b] + more;
      PlainStaysInside(b, more);
    }
  }

  /** A quoted string that stays inside its quotes is one token. */
  lemma QuotedIsLaidOut(open: int, place: Place, s: Text, rest: Text, indent: nat)
    requires StaysInside(s) && (place.OnNewLine? || place.AfterToken?)
    requires LaidOut(Outside(open, AfterToken), rest, indent)
    ensures LaidOut(Outside(open, place), [QUOTE] + (s + ([QUOTE] + rest)), indent)
  {
    OneByte(Inside(open), QUOTE, rest, indent);
    InsideIsLaidOut(open, s, [QUOTE] + rest, indent);
    OneByte(Outside(open, place), QUOTE, s + ([QUOTE] + rest), indent);
  }

  /** Bytes that are no part of the layout */
  predicate AreTokens(s: Text) {
    forall i :: 0 <= i < |s| ==>
      && s[i] != ' ' as int && s[i] != '\n' as int && s[i] != ',' as int && s[i] != '"' as int
      && !IsOpening(s[i]) && !IsClosing(s[i])
  }

  lemma {:induction false} TokensAreLaidOut(open: int, place: Place, s: Text, rest: Text, indent: nat)
    requires AreTokens(s) && s != [] && (place.OnNewLine? || place.AfterToken?)
    requires LaidOut(Outside(open, AfterToken), rest, indent)
    ensures LaidOut(Outside(open, place), s + rest, indent)
    decreases |s|
  {
    if |s| == 1 {
      assert s == [s[0]];
    } else {
      TokensAreLaidOut(open, AfterToken, s[1..], rest, indent);
      assert s + rest == [s[0]] + (s[1..] + rest);
    }
    OneByte(Outside(open, place), s[0], (s + rest)[1..], indent);
    assert s + rest == [s[0]] + (s + rest)[1..];
    assert |s| == 1 ==> (s + rest)[1..] == rest;
    assert |s| != 1 ==> (s + rest)[1..] == s[1..] + rest;
  }

  lemma ScalarIsLaidOut(v: JsonValue, open: int, place: Place, rest: Text, indent: nat)
    requires NoDoubles(v) && !v.Array? && !v.Object? && (place.OnNewLine? || place.AfterToken?)
    requires LaidOut(Outside(open, AfterToken), rest, indent)
    ensures LaidOut(Outside(open, place), PrintScalar(v) + rest, indent)
  {
    hide LaidOut, Digits;
    match v
    case String(t) =>
      EscapesStayInside(t);
      QuotedIsLaidOut(open, place, EscapeBytes(t), rest, indent);
      assert PrintScalar(v) + rest == [QUOTE] + (EscapeBytes(t) + ([QUOTE] + rest));
    case Null => TokensAreLaidOut(open, place, KEYWORD_NULL, rest, indent);
    case Boolean(b) => TokensAreLaidOut(open, place, if b then KEYWORD_TRUE else KEYWORD_FALSE, rest, indent);
    case Long(n) => TokensAreLaidOut(open, place, Decimal(n), rest, indent);
  }

  // ---------------------------------------------------------------------------------------------
  //  Gaps and brackets
  // ---------------------------------------------------------------------------------------------

  /** What may stand at the start of a line */
  predicate StartsToken(s: Text) {
    s != [] && s[0] != ' ' as int && s[0] != '\n' as int && s[0] != ',' as int && !IsClosing(s[0])
  }

  lemma {:induction false} SpacesBefore(n: nat, s: Text)
    requires s != [] && s[0] != ' ' as int
    ensures Spaces(Repeat(SPACE, n) + s) == n
  {
    var text := Repeat(SPACE, n) + s;
    if n == 0 {
      assert text == s;
    } else {
      assert text[1..] == Repeat(SPACE, n - 1) + s;
      SpacesBefore(n - 1, s);
    }
  }

  lemma {:induction false} SpacesAreLaidOut(open: int, n: nat, s: Text, indent: nat)
    requires LaidOut(Outside(open, OnNewLine), s, indent)
    ensures LaidOut(Outside(open, OnNewLine), Repeat(SPACE, n) + s, indent)
  {
    var text := Repeat(SPACE, n) + s;
    if n == 0 {
      assert text == s;
    } else {
      SpacesAreLaidOut(open, n - 1, s, indent);
      assert text == [SPACE] + (Repeat(SPACE, n - 1) + s);
      OneByte(Outside(open, OnNewLine), SPACE, Repeat(SPACE, n - 1) + s, indent);
    }
  }

  lemma LineStarts(open: nat, level: nat, s: Text, indent: nat)
    requires if s != [] && IsClosing(s[0]) then open == level + 1 else open == level && StartsToken(s)
    ensures StartsLine(Repeat(SPACE, level * indent) + s, open, indent)
  {
    hide Spaces;
    SpacesBefore(level * indent, s);
    assert (Repeat(SPACE, level * indent) + s)[level * indent] == s[0];
    assert level * indent == indent * level;
  }

  /** A gap in front of a token or of a closing bracket */
  lemma GapIsLaidOut(open: nat, place: Place, level: nat, s: Text, indent: nat)
    requires if s != [] && IsClosing(s[0]) then open == level + 1 && !place.AfterComma?
             else open == level && StartsToken(s)
    requires LaidOut(Outside(open, OnNewLine), s, indent)
    ensures LaidOut(Outside(open, place), Gap(MultiLine(indent), level) + s, indent)
  {
    hide LaidOut, StartsLine;
    var line := Repeat(SPACE, level * indent) + s;
    LineStarts(open, level, s, indent);
    SpacesAreLaidOut(open, level * indent, s, indent);
    assert Gap(MultiLine(indent), level) + s == [NEWLINE] + line;
    OneByte(Outside(open, place), NEWLINE, line, indent);
  }

  lemma OpeningIsLaidOut(bracket: Byte, level: nat, place: Place, line: Text, indent: nat)
    requires IsOpening(bracket) && (place.OnNewLine? || place.AfterToken?)
    requires LaidOut(Outside(level + 1, AfterOpening), line, indent)
    ensures LaidOut(Outside(level, place), [bracket] + line, indent)
  {
    OneByte(Outside(level, place), bracket, line, indent);
  }

  /** Brackets with nothing between them */
  lemma EmptyIsLaidOut(opening: Byte, closing: Byte, level: nat, place: Place, rest: Text, indent: nat)
    requires IsOpening(opening) && IsClosing(closing) && (place.OnNewLine? || place.AfterToken?)
    requires LaidOut(Outside(level, AfterToken), rest, indent)
    ensures LaidOut(Outside(level, place), [opening] + ([closing] + rest), indent)
  {
    OneByte(Outside(level + 1, AfterOpening), closing, rest, indent);
    OpeningIsLaidOut(opening, level, place, [closing] + rest, indent);
  }

  /** The end of the elements */
  lemma CloseIsLaidOut(closing: Byte, level: nat, rest: Text, indent: nat)
    requires IsClosing(closing) && LaidOut(Outside(level, AfterToken), rest, indent)
    ensures LaidOut(Outside(level + 1, AfterToken), Gap(MultiLine(indent), level) + ([closing] + rest), indent)
  {
    OneByte(Outside(level + 1, OnNewLine), closing, rest, indent);
    GapIsLaidOut(level + 1, AfterToken, level, [closing] + rest, indent);
  }

  lemma CommaIsLaidOut(level: nat, line: Text, indent: nat)
    requires LaidOut(Outside(level, AfterComma), line, indent)
    ensures LaidOut(Outside(level, AfterToken), [COMMA] + line, indent)
  {
    OneByte(Outside(level, AfterToken), COMMA, line, indent);
  }

  lemma ColonIsLaidOut(level: nat, value: Text, indent: nat)
    requires LaidOut(Outside(level, AfterToken), value, indent)
    ensures LaidOut(Outside(level, AfterToken), [SPACE] + ([COLON] + ([SPACE] + value)), indent)
  {
    OneByte(Outside(level, AfterToken), SPACE, value, indent);
    OneByte(Outside(level, AfterToken), COLON, [SPACE] + value, indent);
    OneByte(Outside(level, AfterToken), SPACE, [COLON] + ([SPACE] + value), indent);
  }

  lemma KeyIsLaidOut(key: Text, level: nat, value: Text, indent: nat)
    requires StaysInside(RawKey(key)) && LaidOut(Outside(level, AfterToken), value, indent)
    ensures LaidOut(Outside(level, OnNewLine), PrintKey(key) + value, indent)
    ensures StartsToken(PrintKey(key) + value)
  {
    hide LaidOut, StaysInside, RawKey;
    ColonIsLaidOut(level, value, indent);
    var colon := [SPACE] + ([COLON] + ([SPACE] + value));
    QuotedIsLaidOut(level, OnNewLine, RawKey(key), colon, indent);
    assert PrintKey(key) + value == [QUOTE] + (RawKey(key) + ([QUOTE] + colon));
  }

  // ---------------------------------------------------------------------------------------------
  //  Values
  // ---------------------------------------------------------------------------------------------

  lemma PrintStartsToken(v: JsonValue, indent: nat, level: nat, rest: Text)
    requires NoDoubles(v)
    ensures StartsToken(Print(v, MultiLine(indent), level) + rest)
  {
    match v
    case Long(n) => assert IsDigit(Digits(if n < 0 then 0 - n else n)[0]);
    case _ =>
  }

  lemma {:induction false} PrintIsLaidOut(v: JsonValue, level: nat, place: Place, rest: Text, indent: nat)
    requires NoDoubles(v) && KeysStayInside(v) && (place.OnNewLine? || place.AfterToken?)
    requires LaidOut(Outside(level, AfterToken), rest, indent)
    ensures LaidOut(Outside(level, place), Print(v, MultiLine(indent), level) + rest, indent)
    decreases v
  {
    hide LaidOut, Gap;
    var l := MultiLine(indent);
    match v
    case Array(es) =>
      if es == [] {
        EmptyIsLaidOut(LEFT_BRACKET, RIGHT_BRACKET, level, place, rest, indent);
        assert Print(v, l, level) + rest == [LEFT_BRACKET] + ([RIGHT_BRACKET] + rest);
      } else {
        var more := PrintMore(es[1..], l, level + 1, Gap(l, level) + [RIGHT_BRACKET]);
        MoreIsLaidOut(es[1..], level, rest, indent);
        PrintIsLaidOut(es[0], level + 1, OnNewLine, more + rest, indent);
        PrintStartsToken(es[0], indent, level + 1, more + rest);
        LineIsLaidOut(LEFT_BRACKET, level, place, Print(es[0], l, level + 1), more, rest, indent);
        assert Print(v, l, level) == [LEFT_BRACKET] + (Gap(l, level + 1) + (Print(es[0], l, level + 1) + more));
      }
    case Object(es) =>
      if es == [] {
        EmptyIsLaidOut(LEFT_BRACE, RIGHT_BRACE, level, place, rest, indent);
        assert Print(v, l, level) + rest == [LEFT_BRACE] + ([RIGHT_BRACE] + rest);
      } else {
        var more := PrintOthers(es[1..], l, level + 1, Gap(l, level) + [RIGHT_BRACE]);
        OthersAreLaidOut(es[1..], level, rest, indent);
        PrintIsLaidOut(es[0].value, level + 1, AfterToken, more + rest, indent);
        EntryIsLaidOut(es[0], level + 1, more, rest, indent);
        LineIsLaidOut(LEFT_BRACE, level, place, PrintEntry(es[0], l, level + 1), more, rest, indent);
        assert Print(v, l, level) == [LEFT_BRACE] + (Gap(l, level + 1) + (PrintEntry(es[0], l, level + 1) + more));
      }
    case _ => ScalarIsLaidOut(v, level, place, rest, indent);
  }

  /** An opening bracket, a gap and an element */
  lemma LineIsLaidOut(bracket: Byte, level: nat, place: Place, element: Text, more: Text, rest: Text, indent: nat)
    requires IsOpening(bracket) && (place.OnNewLine? || place.AfterToken?)
    requires StartsToken(element + (more + rest))
    requires LaidOut(Outside(level + 1, OnNewLine), element + (more + rest), indent)
    ensures var gap := Gap(MultiLine(indent), level + 1);
            LaidOut(Outside(level, place), [bracket] + (gap + (element + more)) + rest, indent)
  {
    hide LaidOut, Gap, StartsToken;
    var gap := Gap(MultiLine(indent), level + 1);
    GapAtToken(level + 1, AfterOpening, element + (more + rest), indent);
    OpeningIsLaidOut(bracket, level, place, gap + (element + (more + rest)), indent);
    assert [bracket] + (gap + (element + more)) + rest == [bracket] + (gap + (element + (more + rest)));
  }

  lemma GapAtToken(level: nat, place: Place, s: Text, indent: nat)
    requires StartsToken(s) && LaidOut(Outside(level, OnNewLine), s, indent)
    ensures LaidOut(Outside(level, place), Gap(MultiLine(indent), level) + s, indent)
  {
    GapIsLaidOut(level, place, level, s, indent);
  }

  /** A comma, a gap and an element */
  lemma NextLineIsLaidOut(level: nat, element: Text, more: Text, rest: Text, indent: nat)
    requires StartsToken(element + (more + rest))
    requires LaidOut(Outside(level, OnNewLine), element + (more + rest), indent)
    ensures var gap := Gap(MultiLine(indent), level);
            LaidOut(Outside(level, AfterToken), [COMMA] + (gap + (element + more)) + rest, indent)
  {
    hide LaidOut, Gap, StartsToken;
    var gap := Gap(MultiLine(indent), level);
    GapAtToken(level, AfterComma, element + (more + rest), indent);
    CommaIsLaidOut(level, gap + (element + (more + rest)), indent);
    assert [COMMA] + (gap + (element + more)) + rest == [COMMA] + (gap + (element + (more + rest)));
  }

  lemma EntryIsLaidOut(e: Entry, level: nat, more: Text, rest: Text, indent: nat)
    requires NoDoubles(e.value) && StaysInside(RawKey(e.key))
    requires LaidOut(Outside(level, AfterToken), Print(e.value, MultiLine(indent), level) + (more + rest), indent)
    ensures var text := PrintEntry(e, MultiLine(indent), level) + (more + rest);
            LaidOut(Outside(level, OnNewLine), text, indent) && StartsToken(text)
  {
    hide LaidOut, StaysInside, StartsToken, Print, PrintKey;
    var value := Print(e.value, MultiLine(indent), level);
    KeyIsLaidOut(e.key, level, value + (more + rest), indent);
    assert PrintKey(e.key) + (value + (more + rest)) == PrintEntry(e, MultiLine(indent), level) + (more + rest);
  }

  /** The elements after the first one of an array at the given level, and its end */
  lemma {:induction false} MoreIsLaidOut(es: seq<JsonValue>, level: nat, rest: Text, indent: nat)
    requires forall i :: 0 <= i < |es| ==> NoDoubles(es[i]) && KeysStayInside(es[i])
    requires LaidOut(Outside(level, AfterToken), rest, indent)
    ensures var l := MultiLine(indent);
            var more := PrintMore(es, l, level + 1, Gap(l, level) + [RIGHT_BRACKET]);
            LaidOut(Outside(level + 1, AfterToken), more + rest, indent)
    decreases es
  {
    hide LaidOut, Gap, Print, KeysStayInside, NoDoubles;
    var l := MultiLine(indent);
    var end := Gap(l, level) + [RIGHT_BRACKET];
    if es == [] {
      CloseIsLaidOut(RIGHT_BRACKET, level, rest, indent);
      assert end + rest == Gap(l, level) + ([RIGHT_BRACKET] + rest);
    } else {
      var more := PrintMore(es[1..], l, level + 1, end);
      MoreIsLaidOut(es[1..], level, rest, indent);
      PrintIsLaidOut(es[0], level + 1, OnNewLine, more + rest, indent);
      PrintStartsToken(es[0], indent, level + 1, more + rest);
      NextLineIsLaidOut(level + 1, Print(es[0], l, level + 1), more, rest, indent);
    }
  }

  /** The same for the entries of an object */
  lemma {:induction false} OthersAreLaidOut(es: seq<Entry>, level: nat, rest: Text, indent: nat)
    requires forall i :: 0 <= i < |es| ==>
               NoDoubles(es[i].value) && KeysStayInside(es[i].value) && StaysInside(RawKey(es[i].key))
    requires LaidOut(Outside(level, AfterToken), rest, indent)
    ensures var l := MultiLine(indent);
            var others := PrintOthers(es, l, level + 1, Gap(l, level) + [RIGHT_BRACE]);
            LaidOut(Outside(level + 1, AfterToken), others + rest, indent)
    decreases es
  {
    hide LaidOut, Gap, PrintEntry, KeysStayInside, NoDoubles, StaysInside;
    var l := MultiLine(indent);
    var end := Gap(l, level) + [RIGHT_BRACE];
    if es == [] {
      CloseIsLaidOut(RIGHT_BRACE, level, rest, indent);
      assert end + rest == Gap(l, level) + ([RIGHT_BRACE] + rest);
    } else {
      var others := PrintOthers(es[1..], l, level + 1, end);
      OthersAreLaidOut(es[1..], level, rest, indent);
      PrintIsLaidOut(es[0].value, level + 1, AfterToken, others + rest, indent);
      EntryIsLaidOut(es[0], level + 1, others, rest, indent);
      NextLineIsLaidOut(level + 1, PrintEntry(es[0], l, level + 1), others, rest, indent);
    }
  }

  lemma {:induction false} LaidOutAt(at: Reader, s: Text, indent: nat, i: nat)
    requires LaidOut(at, s, indent) && i < |s|
    ensures IsLaidOut(Read(at, s[..i]), s[i..], indent)
    decreases i
  {
    if i == 0 {
      assert s[i..] == s;
    } else {
      LaidOutAt(Step(at, s[0]), s[1..], indent, i - 1);
      assert s[..i][1..] == s[1..][..i - 1] && s[i..] == s[1..][i - 1..];
    }
  }

  /** In the multi-line layout, wherever the reader stands: the lines break where they should, and every newline is
      followed by as many spaces as `indent` times the open brackets, without the one that is closed right there. */
  lemma LinesAreIndented(v: JsonValue, indent: nat)
    requires NoDoubles(v) && KeysStayInside(v)
    ensures var text := Print(v, MultiLine(indent), 0);
            forall i :: 0 <= i < |text| ==> IsLaidOut(Read(START, text[..i]), text[i..], indent)
  {
    var text := Print(v, MultiLine(indent), 0);
    PrintIsLaidOut(v, 0, OnNewLine, [], indent);
    assert text + [] == text;
    forall i | 0 <= i < |text|
      ensures IsLaidOut(Read(START, text[..i]), text[i..], indent)
    {
      LaidOutAt(START, text, indent, i);
    }
  }

  /** Nothing is asked of the keys of a printable value beyond that. */
  lemma {:induction false} PrintableKeysStayInside(v: JsonValue)
    requires Printable(v)
    ensures KeysStayInside(v) && KeysHaveNoNewline(v)
    decreases v
  {
    match v
    case Array(es) =>
      forall i | 0 <= i < |es|
        ensures KeysStayInside(es[i]) && KeysHaveNoNewline(es[i])
      {
        PrintableKeysStayInside(es[i]);
      }
    case Object(es) =>
      forall i | 0 <= i < |es|
        ensures StaysInside(RawKey(es[i].key)) && KeysStayInside(es[i].value)
        ensures NEWLINE !in RawKey(es[i].key) && KeysHaveNoNewline(es[i].value)
      {
        PlainTextStaysInside(RawKey(es[i].key));
        PrintableKeysStayInside(es[i].value);
      }
    case _ =>
  }

  lemma {:induction false} PlainTextStaysInside(s: Text)
    requires IsPlain(s)
    ensures StaysInside(s)
  {
    if s != [] {
      PlainTextStaysInside(s[1..]);
    }
  }

  // ---------------------------------------------------------------------------------------------
  //  On a single line
  // ---------------------------------------------------------------------------------------------

  predicate KeysHaveNoNewline(v: JsonValue) {
    match v
    case Array(es) => forall i :: 0 <= i < |es| ==> KeysHaveNoNewline(es[i])
    case Object(es) => forall i :: 0 <= i < |es| ==> '\n' as int !in RawKey(es[i].key) && KeysHaveNoNewline(es[i].value)
    case _ => true
  }

  lemma {:induction false} EscapesHaveNoNewline(t: Text)
    ensures NEWLINE !in EscapeBytes(t)
  {
    if t != [] {
      EscapesHaveNoNewline(t[1..]);
      assert NEWLINE !in EscapeByte(t[0]);
    }
  }

  /** In the single-line layout there is no newline, exactly if no key brings one. */
  lemma {:induction false} SingleLineHasNoNewline(v: JsonValue, level: nat)
    requires NoDoubles(v)
    ensures '\n' as int !in Print(v, SingleLine, level) <==> KeysHaveNoNewline(v)
    decreases v
  {
    hide EscapeByte, RawKey;
    match v
    case String(t) => EscapesHaveNoNewline(t);
    case Array(es) =>
      if es != [] {
        SingleLineHasNoNewline(es[0], level + 1);
        MoreHaveNoNewline(es[1..], level + 1, Gap(SingleLine, level) + [RIGHT_BRACKET]);
      }
    case Object(es) =>
      if es != [] {
        SingleLineHasNoNewline(es[0].value, level + 1);
        OthersHaveNoNewline(es[1..], level + 1, Gap(SingleLine, level) + [RIGHT_BRACE]);
      }
    case _ =>
  }

  lemma {:induction false} MoreHaveNoNewline(es: seq<JsonValue>, level: nat, end: Text)
    requires NEWLINE !in end && forall i :: 0 <= i < |es| ==> NoDoubles(es[i])
    ensures NEWLINE !in PrintMore(es, SingleLine, level, end)
       <==> forall i :: 0 <= i < |es| ==> KeysHaveNoNewline(es[i])
    decreases es
  {
    hide KeysHaveNoNewline, Print, NoDoubles;
    if es != [] {
      SingleLineHasNoNewline(es[0], level);
      MoreHaveNoNewline(es[1..], level, end);
    }
  }

  lemma {:induction false} OthersHaveNoNewline(es: seq<Entry>, level: nat, end: Text)
    requires NEWLINE !in end && forall i :: 0 <= i < |es| ==> NoDoubles(es[i].value)
    ensures NEWLINE !in PrintOthers(es, SingleLine, level, end) <==>
              forall i :: 0 <= i < |es| ==> NEWLINE !in RawKey(es[i].key) && KeysHaveNoNewline(es[i].value)
    decreases es
  {
    hide KeysHaveNoNewline, Print, NoDoubles, RawKey;
    if es != [] {
      SingleLineHasNoNewline(es[0].value, level);
      OthersHaveNoNewline(es[1..], level, end);
    }
  }

  // ---------------------------------------------------------------------------------------------
  //  One layout from the other
  // ---------------------------------------------------------------------------------------------

  /** A space in place of every newline */
  function Spaced(s: Text): (r: Text)
    ensures |r| == |s| && NEWLINE !in r
    ensures forall i :: 0 <= i < |s| ==> r[i] == if s[i] == '\n' as int then ' ' as int else s[i]
  {
    seq(|s|, i requires 0 <= i < |s| => if s[i] == NEWLINE then SPACE else s[i])
  }

  lemma SpacedConcat(a: Text, b: Text)
    ensures Spaced(a + b) == Spaced(a) + Spaced(b)
  {
  }

  lemma SpacedLine(open: Text, gap: Text, value: Text, more: Text)
    ensures Spaced(open + (gap + (value + more))) == Spaced(open) + (Spaced(gap) + (Spaced(value) + Spaced(more)))
  {
    SpacedConcat(value, more);
    SpacedConcat(gap, value + more);
    SpacedConcat(open, gap + (value + more));
  }

  lemma SpacedSame(s: Text)
    requires NEWLINE !in s
    ensures Spaced(s) == s
  {
  }

  /** How many empty objects there are: the single-line layout has a space in them. */
  function EmptyObjects(v: JsonValue): nat {
    match v
    case Array(es) => EmptyInElements(es)
    case Object(es) => if es == [] then 1 else EmptyInEntries(es)
    case _ => 0
  }

  function EmptyInElements(es: seq<JsonValue>): nat {
    if es == [] then 0 else EmptyObjects(es[0]) + EmptyInElements(es[1..])
  }

  function EmptyInEntries(es: seq<Entry>): nat {
    if es == [] then 0 else EmptyObjects(es[0].value) + EmptyInEntries(es[1..])
  }

  lemma {:induction false} LayoutLengths(v: JsonValue, m: nat, n: nat)
    requires NoDoubles(v)
    ensures |Print(v, SingleLine, m)| == |Print(v, MultiLine(0), n)| + EmptyObjects(v)
    decreases v
  {
    hide PrintScalar, PrintKey;
    match v
    case Array(es) =>
      if es != [] {
        LayoutLengths(es[0], m + 1, n + 1);
        MoreLengths(es[1..], m, n);
      }
    case Object(es) =>
      if es != [] {
        LayoutLengths(es[0].value, m + 1, n + 1);
        OthersLengths(es[1..], m, n);
      }
    case _ =>
  }

  lemma {:induction false} MoreLengths(es: seq<JsonValue>, m: nat, n: nat)
    requires forall i :: 0 <= i < |es| ==> NoDoubles(es[i])
    ensures |PrintMore(es, SingleLine, m + 1, Gap(SingleLine, m) + [RIGHT_BRACKET])|
         == |PrintMore(es, MultiLine(0), n + 1, Gap(MultiLine(0), n) + [RIGHT_BRACKET])| + EmptyInElements(es)
    decreases es
  {
    hide Print, EmptyObjects, NoDoubles;
    if es != [] {
      LayoutLengths(es[0], m + 1, n + 1);
      MoreLengths(es[1..], m, n);
    }
  }

  lemma {:induction false} OthersLengths(es: seq<Entry>, m: nat, n: nat)
    requires forall i :: 0 <= i < |es| ==> NoDoubles(es[i].value)
    ensures |PrintOthers(es, SingleLine, m + 1, Gap(SingleLine, m) + [RIGHT_BRACE])|
         == |PrintOthers(es, MultiLine(0), n + 1, Gap(MultiLine(0), n) + [RIGHT_BRACE])| + EmptyInEntries(es)
    decreases es
  {
    hide Print, EmptyObjects, NoDoubles, PrintKey;
    if es != [] {
      LayoutLengths(es[0].value, m + 1, n + 1);
      OthersLengths(es[1..], m, n);
    }
  }

  lemma GapsDiffer(m: nat, n: nat)
    ensures Gap(SingleLine, m) == Spaced(Gap(MultiLine(0), n))
  {
  }

  lemma ClosesDiffer(m: nat, n: nat, closing: Byte)
    requires IsClosing(closing)
    ensures Gap(SingleLine, m) + [closing] == Spaced(Gap(MultiLine(0), n) + [closing])
  {
  }

  lemma {:induction false} LayoutsDiffer(v: JsonValue, m: nat, n: nat)
    requires NoDoubles(v) && EmptyObjects(v) == 0 && KeysHaveNoNewline(v)
    ensures Print(v, SingleLine, m) == Spaced(Print(v, MultiLine(0), n))
    decreases v
  {
    hide PrintScalar, PrintKey, Spaced, Gap, RawKey;
    if v.Array? {
      var es := v.elements;
      if es == [] {
        SpacedSame([LEFT_BRACKET, RIGHT_BRACKET]);
      } else {
        LayoutsDiffer(es[0], m + 1, n + 1);
        MoreDiffer(es[1..], m, n);
        GapsDiffer(m + 1, n + 1);
        SpacedSame([LEFT_BRACKET]);
        SpacedLine([LEFT_BRACKET], Gap(MultiLine(0), n + 1), Print(es[0], MultiLine(0), n + 1),
                   PrintMore(es[1..], MultiLine(0), n + 1, Gap(MultiLine(0), n) + [RIGHT_BRACKET]));
      }
    } else if v.Object? {
      var es := v.entries;
      EntryDiffers(es[0], m + 1, n + 1);
      OthersDiffer(es[1..], m, n);
      GapsDiffer(m + 1, n + 1);
      SpacedSame([LEFT_BRACE]);
      SpacedLine([LEFT_BRACE], Gap(MultiLine(0), n + 1), PrintEntry(es[0], MultiLine(0), n + 1),
                 PrintOthers(es[1..], MultiLine(0), n + 1, Gap(MultiLine(0), n) + [RIGHT_BRACE]));
    } else {
      SingleLineHasNoNewline(v, 0);
      SpacedSame(PrintScalar(v));
    }
  }

  lemma {:induction false} EntryDiffers(e: Entry, m: nat, n: nat)
    requires NoDoubles(e.value) && EmptyObjects(e.value) == 0 && KeysHaveNoNewline(e.value)
    requires NEWLINE !in RawKey(e.key)
    ensures PrintEntry(e, SingleLine, m) == Spaced(PrintEntry(e, MultiLine(0), n))
    decreases e
  {
    hide Print, Spaced, RawKey;
    LayoutsDiffer(e.value, m, n);
    SpacedSame(PrintKey(e.key));
    SpacedConcat(PrintKey(e.key), Print(e.value, MultiLine(0), n));
  }

  lemma {:induction false} MoreDiffer(es: seq<JsonValue>, m: nat, n: nat)
    requires EmptyInElements(es) == 0
    requires forall i :: 0 <= i < |es| ==> NoDoubles(es[i]) && KeysHaveNoNewline(es[i])
    ensures PrintMore(es, SingleLine, m + 1, Gap(SingleLine, m) + [RIGHT_BRACKET])
         == Spaced(PrintMore(es, MultiLine(0), n + 1, Gap(MultiLine(0), n) + [RIGHT_BRACKET]))
    decreases es
  {
    hide Print, EmptyObjects, NoDoubles, KeysHaveNoNewline, Spaced, Gap;
    ClosesDiffer(m, n, RIGHT_BRACKET);
    if es != [] {
      LayoutsDiffer(es[0], m + 1, n + 1);
      MoreDiffer(es[1..], m, n);
      GapsDiffer(m + 1, n + 1);
      SpacedSame([COMMA]);
      SpacedLine([COMMA], Gap(MultiLine(0), n + 1), Print(es[0], MultiLine(0), n + 1),
                 PrintMore(es[1..], MultiLine(0), n + 1, Gap(MultiLine(0), n) + [RIGHT_BRACKET]));
    }
  }

  lemma {:induction false} OthersDiffer(es: seq<Entry>, m: nat, n: nat)
    requires EmptyInEntries(es) == 0
    requires forall i :: 0 <= i < |es| ==>
               NoDoubles(es[i].value) && NEWLINE !in RawKey(es[i].key) && KeysHaveNoNewline(es[i].value)
    ensures PrintOthers(es, SingleLine, m + 1, Gap(SingleLine, m) + [RIGHT_BRACE])
         == Spaced(PrintOthers(es, MultiLine(0), n + 1, Gap(MultiLine(0), n) + [RIGHT_BRACE]))
    decreases es
  {
    hide PrintEntry, EmptyObjects, NoDoubles, KeysHaveNoNewline, Spaced, Gap, RawKey;
    ClosesDiffer(m, n, RIGHT_BRACE);
    if es != [] {
      EntryDiffers(es[0], m + 1, n + 1);
      OthersDiffer(es[1..], m, n);
      GapsDiffer(m + 1, n + 1);
      SpacedSame([COMMA]);
      SpacedLine([COMMA], Gap(MultiLine(0), n + 1), PrintEntry(es[0], MultiLine(0), n + 1),
                 PrintOthers(es[1..], MultiLine(0), n + 1, Gap(MultiLine(0), n) + [RIGHT_BRACE]));
    }
  }

  /** The single-line layout is the multi-line one without indentation, with a space for every newline, exactly for
      the values without empty objects and without newlines in their keys. */
  lemma SingleLineIsSpaced(v: JsonValue)
    requires NoDoubles(v)
    ensures Print(v, SingleLine, 0) == Spaced(Print(v, MultiLine(0), 0))
       <==> EmptyObjects(v) == 0 && KeysHaveNoNewline(v)
  {
    LayoutLengths(v, 0, 0);
    SingleLineHasNoNewline(v, 0);
    if EmptyObjects(v) == 0 && KeysHaveNoNewline(v) {
      LayoutsDiffer(v, 0, 0);
    }
  }

  // ---------------------------------------------------------------------------------------------
  //  Examples
  // ---------------------------------------------------------------------------------------------

  /** A quote in a key lets the comma behind it out of the string. */
  lemma QuoteInKeyBreaksLayout()
    ensures var text := Print(Object([Entry(Ascii("\","), Null)]), MultiLine(0), 0);
            6 <= |text| && text[..6] == Ascii("{\n\"\",\"") && !IsLaidOut(Read(START, text[..5]), text[5..], 0)
  {
    hide Print, Read, Ascii;
    QuoteInKeyText();
    var text := Print(Object([Entry(Ascii("\","), Null)]), MultiLine(0), 0);
    assert text[..5] == text[..6][..5];
    ReadStep(START, LEFT_BRACE, [NEWLINE] + ([QUOTE] + ([QUOTE] + ([COMMA] + []))));
    ReadStep(Outside(1, AfterOpening), NEWLINE, [QUOTE] + ([QUOTE] + ([COMMA] + [])));
    ReadStep(Outside(1, OnNewLine), QUOTE, [QUOTE] + ([COMMA] + []));
    ReadStep(Inside(1), QUOTE, [COMMA] + []);
    ReadStep(Outside(1, AfterToken), COMMA, []);
    ReadNothing(Outside(1, AfterComma));
    assert text[5..][0] == text[..6][5];
  }

  lemma QuoteInKeyText()
    ensures var text := Print(Object([Entry(Ascii("\","), Null)]), MultiLine(0), 0);
            6 <= |text| && text[..6] == Ascii("{\n\"\",\"")
    ensures Ascii("{\n\"\",\"")[..5] == [LEFT_BRACE] + ([NEWLINE] + ([QUOTE] + ([QUOTE] + ([COMMA] + []))))
    ensures Ascii("{\n\"\",\"")[5] == QUOTE
  {
    var key := Ascii("\",");
    assert RawKey(key) == key;
  }

  lemma ReadNothing(at: Reader)
    ensures Read(at, []) == at
  {
  }

  lemma ReadStep(at: Reader, b: Byte, s: Text)
    ensures Read(at, [b] + s) == Read(Step(at, b), s)
  {
    assert ([b] + s)[1..] == s;
  }

  /** An array with two elements */
  function Sample(): JsonValue {
    Array([Long(-1), Object([])])
  }

  lemma SampleOnOneLine()
    ensures Print(Sample(), SingleLine, 0) == Ascii("[ -1, { } ]")
  {
    hide Print;
    SampleElements(SingleLine, 0);
    OneLine();
  }

  lemma OneLine()
    ensures Ascii("[ -1, { } ]")
         == Ascii("[") + ([SPACE] + (Ascii("-1") + (Ascii(",") + ([SPACE]
            + (([LEFT_BRACE] + ([SPACE] + [RIGHT_BRACE])) + ([SPACE] + [RIGHT_BRACKET]))))))
  {
    assert Ascii("[") == [LEFT_BRACKET] && Ascii("-1") == [MINUS, 0x31] && Ascii(",") == [COMMA];
    hide Ascii;
  }

  lemma SampleOnLines()
    ensures Print(Sample(), MultiLine(2), 0)
         == Ascii("[") + (Ascii("\n  ") + (Ascii("-1") + (Ascii(",") + (Ascii("\n  ") + (Ascii("{}") + Ascii("\n]"))))))
  {
    SampleElements(MultiLine(2), 0);
    hide Print, Ascii;
    assert [NEWLINE] + Repeat(SPACE, 2) == Ascii("\n  ");
    assert [NEWLINE] + Repeat(SPACE, 0) + [RIGHT_BRACKET] == Ascii("\n]");
    assert [LEFT_BRACE] + ([] + [RIGHT_BRACE]) == Ascii("{}");
  }

  lemma SampleElements(l: Layout, level: nat)
    ensures Print(Sample(), l, level)
         == Ascii("[") + (Gap(l, level + 1) + (Ascii("-1") + (Ascii(",") + (Gap(l, level + 1)
            + (([LEFT_BRACE] + (EmptyGap(l) + [RIGHT_BRACE])) + (Gap(l, level) + [RIGHT_BRACKET]))))))
  {
    hide Gap, EmptyGap;
    var es := [Long(-1), Object([])];
    assert es[1..] == [Object([])] && es[1..][1..] == [];
    assert Decimal(-1) == Ascii("-1") && Ascii("[") == [LEFT_BRACKET] && Ascii(",") == [COMMA];
    var end := Gap(l, level) + [RIGHT_BRACKET];
    assert PrintMore([], l, level + 1, end) == end;
    assert PrintMore(es[1..], l, level + 1, end) == [COMMA] + (Gap(l, level + 1) + (Print(es[1], l, level + 1) + end));
  }

  /** A key with its quotes and its colon */
  lemma SampleKey()
    ensures PrintKey(Ascii("k")) == Ascii("\"k\" : ")
  {
    assert RawKey(Ascii("k")) == Ascii("k");
  }
}
