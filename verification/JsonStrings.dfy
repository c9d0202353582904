/** Strings: the byte automaton accepts exactly the octets of RFC 3629, and the string parser accepts exactly
    the strings of section 7 of RFC 8259 and returns what they denote. */
module JsonStrings {
  import opened Bytes
  import opened JsonBytes
  import opened JsonValues
  import opened JsonParserSpec
  import opened JsonGrammar
  import Wrappers
  import Utf8

  // ---------------------------------------------------------------------------------------------
  //  The UTF-8 automaton
  // ---------------------------------------------------------------------------------------------

  lemma {:induction false} ParseTailsOf(ts: Text, rest: Text)
    requires forall i :: 0 <= i < |ts| ==> Utf8.IsTail(ts[i])
    ensures ParseTails(ts + rest, |ts|) == Ok(ts, rest)
  {
    if ts == [] {
      assert ts + rest == rest;
    } else {
      assert (ts + rest)[1..] == ts[1..] + rest;
      ParseTailsOf(ts[1..], rest);
      assert ts == [ts[0]] + ts[1..];
    }
  }

  lemma {:induction false} ParseTailsGivesTails(s: Text, n: nat)
    requires ParseTails(s, n).Ok?
    ensures forall i :: 0 <= i < n ==> Utf8.IsTail(ParseTails(s, n).value[i])
  {
    if n != 0 {
      ParseTailsGivesTails(s[1..], n - 1);
    }
  }

  /** Octets are copied unchanged. */
  lemma AutomatonAcceptsOctets(o: Text, rest: Text)
    requires Utf8.IsOctets(o)
    ensures ParseUtf8Char(o + rest) == Ok(o, rest)
  {
    var s := o + rest;
    if |o| == 1 {
      assert s[1..] == rest && o == [s[0]];
    } else {
      var t := s[1..];
      assert t[1..] == o[2..] + rest && t[0] == o[1];
      ParseTailsOf(o[2..], rest);
      assert o == [o[0], o[1]] + o[2..];
    }
  }

  lemma AutomatonAcceptsOnlyOctets(s: Text)
    requires s != [] && ParseUtf8Char(s).Ok?
    ensures Utf8.IsOctets(ParseUtf8Char(s).value)
    ensures s == ParseUtf8Char(s).value + ParseUtf8Char(s).rest
  {
    if 127 < s[0] {
      MultiByteIsOctets(s);
    } else {
      assert s == [s[0]] + s[1..];
    }
  }

  lemma MultiByteIsOctets(s: Text)
    requires s != [] && 127 < s[0] && ParseUtf8Char(s).Ok?
    ensures Utf8.IsOctets(ParseUtf8Char(s).value)
    ensures s == ParseUtf8Char(s).value + ParseUtf8Char(s).rest
  {
    hide ParseTails;
    var n := TailsAfter(s[0]) - 1;
    assert s[1..][1..] == s[2..] && s[1..][0] == s[1];
    var r := ParseTails(s[2..], n);
    assert ParseUtf8Char(s) == Ok([s[0], s[1]] + r.value, r.rest);
    ParseTailsGivesTails(s[2..], n);
    assert s == [s[0], s[1]] + s[2..];
    LeadAndTails(s[0], s[1], r.value);
  }

  lemma LeadAndTails(lead: Byte, second: Byte, tails: Text)
    requires 0 < TailsAfter(lead) == |tails| + 1 && SecondByteOk(lead, second)
    requires forall i :: 0 <= i < |tails| ==> Utf8.IsTail(tails[i])
    ensures Utf8.IsOctets([lead, second] + tails)
  {
  }

  /** The automaton accepts iff the text starts with UTF-8 octets, and then consumes exactly those. */
  lemma AutomatonIsRfc3629(s: Text)
    requires s != []
    ensures ParseUtf8Char(s).Ok? <==> 0 < Utf8.HeadLen(s)
    ensures ParseUtf8Char(s).Ok? ==> ParseUtf8Char(s) == Ok(s[..Utf8.HeadLen(s)], s[Utf8.HeadLen(s)..])
  {
    var n := Utf8.HeadLen(s);
    if 0 < n {
      var o, rest := s[..n], s[n..];
      assert s == o + rest;
      AutomatonAcceptsOctets(o, rest);
    } else if ParseUtf8Char(s).Ok? {
      AutomatonAcceptsOnlyOctets(s);
      var o, rest := ParseUtf8Char(s).value, ParseUtf8Char(s).rest;
      Utf8.HeadLenOfOctets(o, rest);
    }
  }

  // ---------------------------------------------------------------------------------------------
  //  Hexadecimal digits and escapes
  // ---------------------------------------------------------------------------------------------

  lemma HexStep(h: Byte, s: Text, count: nat, value: nat)
    requires IsHex(h)
    ensures ParseHex([h] + s, count + 1, value) == ParseHex(s, count, value * 16 + HexDigit(h))
  {
    assert ([h] + s)[1..] == s;
  }

  lemma ParseHexOf(h: Text, rest: Text)
    requires IsFourHex(h)
    ensures ParseHex(h + rest, 4, 0) == Ok(HexValue(h), rest)
  {
    var s3 := [h[3]] + rest;
    var s2 := [h[2]] + s3;
    var s1 := [h[1]] + s2;
    assert h + rest == [h[0]] + s1;
    var v1 := HexDigit(h[0]);
    var v2 := v1 * 16 + HexDigit(h[1]);
    var v3 := v2 * 16 + HexDigit(h[2]);
    HexStep(h[0], s1, 3, 0);
    HexStep(h[1], s2, 2, v1);
    HexStep(h[2], s3, 1, v2);
    HexStep(h[3], rest, 0, v3);
  }

  lemma {:induction false} ParseHexReadsHex(s: Text, count: nat, value: nat)
    requires ParseHex(s, count, value).Ok?
    ensures count <= |s| && forall i :: 0 <= i < count ==> IsHex(s[i])
  {
    if count != 0 {
      ParseHexReadsHex(s[1..], count - 1, value * 16 + HexDigit(s[0]));
      forall i | 0 <= i < count ensures IsHex(s[i]) {
        assert 0 < i ==> s[i] == s[1..][i - 1];
      }
    }
  }

  lemma ParseHexGivesHex(s: Text)
    requires ParseHex(s, 4, 0).Ok?
    ensures 4 <= |s| && IsFourHex(s[..4])
    ensures ParseHex(s, 4, 0) == Ok(HexValue(s[..4]), s[4..])
  {
    ParseHexReadsHex(s, 4, 0);
    ParseHexOf(s[..4], s[4..]);
    assert s == s[..4] + s[4..];
  }

  /** What a char adds to the StringBuilder. */
  function CharBytes(c: StrChar): Text
    requires ValidChar(c)
  {
    Kept(CharScalar(c))
  }

  lemma {:induction false} StringBytesStep(cs: seq<StrChar>)
    requires ValidChars(cs) && cs != []
    ensures StringBytes(cs) == CharBytes(cs[0]) + StringBytes(cs[1..])
  {
    var cp := CharScalar(cs[0]);
    var more := NonZero(CharScalars(cs[1..]));
    if cp != 0 {
      assert NonZero(CharScalars(cs)) == [cp] + more;
      assert ([cp] + more)[1..] == more;
    } else {
      assert NonZero(CharScalars(cs)) == more;
    }
  }

  lemma StringBytesAfter(cs: seq<StrChar>, acc: Text)
    requires ValidChars(cs) && cs != []
    ensures acc + CharBytes(cs[0]) + StringBytes(cs[1..]) == acc + StringBytes(cs)
  {
    hide StringBytes, CharBytes;
    StringBytesStep(cs);
    assert acc + CharBytes(cs[0]) + StringBytes(cs[1..]) == acc + (CharBytes(cs[0]) + StringBytes(cs[1..]));
  }

  lemma ShortEscapesAgree(b: Byte)
    ensures IsShortEscape(b) <==> b in ESCAPES
    ensures IsShortEscape(b) ==> Kept(ESCAPES[b]) == [ShortEscapeValue(b)]
  {
  }

  lemma ParseUnicodeOf(c: StrChar, rest: Text)
    requires ValidChar(c) && (c.Unicode? || c.SurrogatePair?)
    ensures ParseUnicodeEscape(SpellChar(c, rest)[1..]) == Ok(CharBytes(c), rest)
  {
    match c
    case Unicode(h) =>
      assert SpellChar(c, rest)[1..] == [LOWER_U] + (h + rest);
      assert ([LOWER_U] + (h + rest))[1..] == h + rest;
      ParseHexOf(h, rest);
    case SurrogatePair(h, l) =>
      var after := [BACKSLASH, LOWER_U] + (l + rest);
      assert SpellChar(c, rest)[1..] == [LOWER_U] + (h + after);
      assert ([LOWER_U] + (h + after))[1..] == h + after;
      ParseHexOf(h, after);
      assert after[2..] == l + rest;
      ParseHexOf(l, rest);
  }

  /** One char of the grammar is one turn of the parsing loop. */
  lemma ParseCharOf(c: StrChar, rest: Text, acc: Text, room: nat)
    requires ValidChar(c)
    ensures ParseChars(SpellChar(c, rest), acc, room)
         == if room < |acc| + |CharBytes(c)| then Err(MemoryOverrun, rest)
            else ParseChars(rest, acc + CharBytes(c), room)
  {
    var s := SpellChar(c, rest);
    match c
    case Unescaped(o) =>
      AutomatonAcceptsOctets(o, rest);
      Utf8.EncodeUndoesDecode(o);
      assert CharBytes(c) == o;
    case Escaped(b) =>
      ShortEscapesAgree(b);
      assert s[1..] == [b] + rest && ([b] + rest)[1..] == rest;
      assert ParseEscape(s) == Ok(CharBytes(c), rest);
    case _ =>
      ParseUnicodeOf(c, rest);
      assert ParseEscape(s) == Ok(CharBytes(c), rest);
  }

  /** The chars before any text are read into their bytes, if there is room for them. */
  lemma {:induction false} ParseCharsOf(cs: seq<StrChar>, rest: Text, acc: Text, room: nat)
    requires ValidChars(cs) && |acc| <= room
    ensures var r := ParseChars(SpellChars(cs, rest), acc, room);
            if |acc| + |StringBytes(cs)| <= room then r == ParseChars(rest, acc + StringBytes(cs), room)
            else r.ErrorCode() == Wrappers.Some(MemoryOverrun)
  {
    if cs == [] {
      assert acc + StringBytes(cs) == acc;
    } else {
      ParseCharOf(cs[0], SpellChars(cs[1..], rest), acc, room);
      StringBytesAfter(cs, acc);
      if |acc| + |CharBytes(cs[0])| <= room {
        ParseCharsOf(cs[1..], rest, acc + CharBytes(cs[0]), room);
      }
    }
  }

  /** Completeness: every string of the grammar is parsed into its bytes, and what follows it is left, exactly if
      there is room for the bytes. */
  lemma ParseStringOf(cs: seq<StrChar>, rest: Text, room: nat)
    requires ValidChars(cs)
    ensures var r := ParseString(SpellString(cs, rest), room);
            if |StringBytes(cs)| <= room then r == Ok(StringBytes(cs), rest)
            else r.ErrorCode() == Wrappers.Some(MemoryOverrun)
  {
    assert SpellString(cs, rest)[1..] == SpellChars(cs, [QUOTE] + rest);
    ParseCharsOf(cs, [QUOTE] + rest, [], room);
    assert [] + StringBytes(cs) == StringBytes(cs) && ([QUOTE] + rest)[1..] == rest;
  }

  // ---------------------------------------------------------------------------------------------
  //  Soundness
  // ---------------------------------------------------------------------------------------------

  lemma UnicodeEscapeIsChar(s: Text) returns (c: StrChar)
    requires Cur(s) == LOWER_U && ParseUnicodeEscape(s).Ok?
    ensures ValidChar(c) && [BACKSLASH] + s == SpellChar(c, ParseUnicodeEscape(s).rest)
    ensures ParseUnicodeEscape(s).value == CharBytes(c)
  {
    var h := s[1..];
    ParseHexGivesHex(h);
    var r := h[4..];
    assert [BACKSLASH] + s == [BACKSLASH, LOWER_U] + (h[..4] + r);
    if IsHigh(HexValue(h[..4])) {
      var l := r[2..];
      ParseHexGivesHex(l);
      c := SurrogatePair(h[..4], l[..4]);
      assert r == [BACKSLASH, LOWER_U] + (l[..4] + l[4..]);
    } else {
      c := Unicode(h[..4]);
    }
  }

  lemma EscapeIsChar(s: Text) returns (c: StrChar)
    requires Cur(s) == BACKSLASH && ParseEscape(s).Ok?
    ensures ValidChar(c) && s == SpellChar(c, ParseEscape(s).rest)
    ensures ParseEscape(s).value == CharBytes(c)
  {
    var t := s[1..];
    assert s == [BACKSLASH] + t;
    ShortEscapesAgree(t[0]);
    if IsShortEscape(t[0]) {
      c := Escaped(t[0]);
      assert s == [BACKSLASH, t[0]] + t[1..];
    } else {
      c := UnicodeEscapeIsChar(t);
    }
  }

  lemma OctetsAreChar(s: Text) returns (c: StrChar)
    requires s != [] && 0x1F < s[0] && s[0] != QUOTE && s[0] != BACKSLASH && ParseUtf8Char(s).Ok?
    ensures ValidChar(c) && s == SpellChar(c, ParseUtf8Char(s).rest)
    ensures ParseUtf8Char(s).value == CharBytes(c)
    ensures c == Unescaped(ParseUtf8Char(s).value)
  {
    AutomatonAcceptsOnlyOctets(s);
    var o := ParseUtf8Char(s).value;
    assert o[0] == s[0];
    c := Unescaped(o);
    Utf8.EncodeUndoesDecode(o);
  }

  /** One turn of the parsing loop reads one char of the grammar. */
  lemma CharIsGrammatical(s: Text, acc: Text, room: nat) returns (c: StrChar, after: Text)
    requires ParseChars(s, acc, room).Ok? && s[0] != QUOTE
    ensures ValidChar(c) && s == SpellChar(c, after) && |after| < |s|
    ensures |acc| + |CharBytes(c)| <= room
    ensures ParseChars(s, acc, room) == ParseChars(after, acc + CharBytes(c), room)
  {
    if s[0] == BACKSLASH {
      c := EscapeIsChar(s);
      after := ParseEscape(s).rest;
    } else {
      c := OctetsAreChar(s);
      after := ParseUtf8Char(s).rest;
    }
  }

  lemma PrependChar(c: StrChar, more: seq<StrChar>, s: Text, after: Text, tail: Text, acc: Text, value: Text)
    requires ValidChar(c) && ValidChars(more)
    requires s == SpellChar(c, after) && after == SpellChars(more, tail)
    requires value == acc + CharBytes(c) + StringBytes(more)
    ensures ValidChars([c] + more)
    ensures s == SpellChars([c] + more, tail)
    ensures value == acc + StringBytes([c] + more)
  {
    var cs := [c] + more;
    assert cs[0] == c && cs[1..] == more;
    StringBytesAfter(cs, acc);
  }

  lemma QuoteEndsString(s: Text, acc: Text, room: nat)
    requires ParseChars(s, acc, room).Ok? && s[0] == QUOTE
    ensures ParseChars(s, acc, room) == Ok(acc + StringBytes([]), s[1..])
    ensures s == SpellChars([], [QUOTE] + s[1..])
  {
    assert acc + StringBytes([]) == acc;
  }

  lemma {:induction false} CharsAreString(s: Text, acc: Text, room: nat, r: Outcome<Text>) returns (cs: seq<StrChar>)
    requires ParseChars(s, acc, room) == r && r.Ok? && |acc| <= room
    ensures ValidChars(cs) && |r.value| <= room
    ensures s == SpellChars(cs, [QUOTE] + r.rest)
    ensures r.value == acc + StringBytes(cs)
    decreases |s|
  {
    if s[0] == QUOTE {
      cs := [];
      QuoteEndsString(s, acc, room);
    } else {
      var c, after := CharIsGrammatical(s, acc, room);
      var more := CharsAreString(after, acc + CharBytes(c), room, r);
      PrependChar(c, more, s, after, [QUOTE] + r.rest, acc, r.value);
      cs := [c] + more;
    }
  }

  /** Soundness: what the string parser accepts is a string of the grammar, and it returns its bytes. */
  lemma StringIsGrammatical(s: Text, room: nat) returns (cs: seq<StrChar>)
    requires Cur(s) == QUOTE && ParseString(s, room).Ok?
    ensures ValidChars(cs)
    ensures s == SpellString(cs, ParseString(s, room).rest)
    ensures ParseString(s, room).value == StringBytes(cs) && |StringBytes(cs)| <= room
  {
    cs := CharsAreString(s[1..], [], room, ParseString(s, room));
    assert s == [QUOTE] + s[1..];
  }

  /** Whatever the string parser returns is well-formed UTF-8 without NUL. */
  lemma ParsedStringsAreWellFormed(s: Text, room: nat)
    requires Cur(s) == QUOTE && ParseString(s, room).Ok?
    ensures Utf8.WellFormed(ParseString(s, room).value) && NulFree(ParseString(s, room).value)
  {
    var cs := StringIsGrammatical(s, room);
    EncodedNonZero(NonZero(CharScalars(cs)));
  }
}
