/** Keys are printed without escaping. A key is read back as itself only if there was nothing to escape. */
module JsonKeys {
  import opened Bytes
  import opened JsonBytes
  import opened JsonValues
  import opened JsonParserSpec
  import opened JsonPrinterSpec
  import opened JsonStrings
  import opened JsonRoundTrip
  import G = JsonGrammar
  import JsonLanguage
  import Utf8

  /** An escape is longer than what it stands for; an unescaped character stands for itself, and is plain. */
  lemma CharIsPlainOrShrinks(c: G.StrChar)
    requires G.ValidChar(c)
    ensures |CharBytes(c)| <= |G.SpellChar(c, [])|
    ensures |CharBytes(c)| == |G.SpellChar(c, [])| ==> c.Unescaped? && IsPlain(G.SpellChar(c, []))
  {
    if c.Unescaped? {
      Utf8.EncodeUndoesDecode(c.octets);
      PlainOctets(c.octets);
      assert G.SpellChar(c, []) == c.octets;
    }
  }

  lemma PlainOctets(o: Text)
    requires Utf8.IsOctets(o) && 0x20 <= o[0] && o[0] != QUOTE && o[0] != BACKSLASH
    ensures IsPlain(o) && NulFree(o)
  {
  }

  /** A quote can only be spelled by its escape, which puts one into the string. */
  lemma QuoteNeedsEscape(c: G.StrChar)
    requires G.ValidChar(c)
    ensures QUOTE in G.SpellChar(c, []) ==> c == G.Escaped(QUOTE) && CharBytes(c) == [QUOTE]
    ensures c.Escaped? ==> G.SpellChar(c, [])[0] == BACKSLASH && |CharBytes(c)| == 1
  {
    if c.Unescaped? {
      PlainOctets(c.octets);
    }
  }

  /** The text that a raw key of n bytes makes: everything up to its closing quote is taken from the key. */
  function RawText(k: Text, n: nat, tail: Text): Text
    requires n <= |k|
  {
    k[..n] + ([QUOTE] + tail)
  }

  /** Reading has come to byte j of the raw text and has produced the first i bytes of k: then no quote is read
      next. A quote at i, before j, would have been passed; and byte j itself starts the escape. */
  lemma NoQuoteIsRead(c: G.StrChar, k: Text, n: nat, i: nat, j: nat, tail: Text)
    requires G.ValidChar(c) && i <= j <= n <= |k| && QUOTE !in k[..j]
    requires G.SpellChar(c, []) <= RawText(k, n, tail)[j..]
    requires CharBytes(c) <= k[i..]
    ensures QUOTE !in G.SpellChar(c, [])
  {
    var sp, text := G.SpellChar(c, []), RawText(k, n, tail);
    QuoteNeedsEscape(c);
    assert text[j] == text[j..][0];
    assert CharBytes(c) != [] ==> k[i] == k[i..][0] == CharBytes(c)[0];
    assert i < j ==> k[i] == k[..j][i];
  }

  /** So what is read next lies inside the key. */
  lemma CharLiesInKey(c: G.StrChar, k: Text, n: nat, j: nat, tail: Text)
    requires G.ValidChar(c) && j <= n <= |k| && QUOTE !in k[..j]
    requires G.SpellChar(c, []) <= RawText(k, n, tail)[j..] && QUOTE !in G.SpellChar(c, [])
    ensures var next := j + |G.SpellChar(c, [])|;
            next <= n && k[j..next] == G.SpellChar(c, []) && QUOTE !in k[..next]
  {
    var sp, text := G.SpellChar(c, []), RawText(k, n, tail);
    var next := j + |sp|;
    assert forall m :: j <= m < next ==> text[m] == sp[m - j] != QUOTE;
    assert text[n] == QUOTE;
    assert forall m :: 0 <= m < |sp| ==> sp[m] == text[j..][m] == text[j + m] == k[j + m];
    assert k[..next] == k[..j] + k[j..next];
  }

  /** Reading one character moves on in the text and in the key. */
  lemma ReadStep(cs: seq<G.StrChar>, k: Text, n: nat, i: nat, j: nat, tail: Text, rest: Text)
    requires G.ValidChars(cs) && cs != [] && i <= j <= n <= |k| && QUOTE !in k[..j]
    requires G.SpellChars(cs, [QUOTE] + rest) == RawText(k, n, tail)[j..]
    requires G.StringBytes(cs) == k[i..]
    ensures G.ValidChar(cs[0]) && G.ValidChars(cs[1..])
    ensures var sp, b := G.SpellChar(cs[0], []), CharBytes(cs[0]);
            && j + |sp| <= n && i + |b| <= |k| && k[j..j + |sp|] == sp && QUOTE !in k[..j + |sp|]
            && G.SpellChars(cs[1..], [QUOTE] + rest) == RawText(k, n, tail)[j + |sp|..]
            && G.StringBytes(cs[1..]) == k[i + |b|..]
  {
    hide G.SpellChar, CharBytes, G.StringBytes;
    var text, c, more := RawText(k, n, tail), cs[0], cs[1..];
    var sp, b := G.SpellChar(c, []), CharBytes(c);
    assert text[j..] == sp + G.SpellChars(more, [QUOTE] + rest) by {
      JsonLanguage.SpellCharConcat(c, G.SpellChars(more, [QUOTE] + rest));
    }
    StringBytesStep(cs);
    hide RawText;
    NoQuoteIsRead(c, k, n, i, j, tail);
    CharLiesInKey(c, k, n, j, tail);
    assert k[i..][|b|..] == k[i + |b|..] && text[j..][|sp|..] == text[j + |sp|..];
  }

  lemma {:induction false} KeyIsRead(cs: seq<G.StrChar>, k: Text, n: nat, i: nat, j: nat, tail: Text, rest: Text)
    requires G.ValidChars(cs) && i <= j <= n <= |k| && QUOTE !in k[..j]
    requires G.SpellChars(cs, [QUOTE] + rest) == RawText(k, n, tail)[j..]
    requires G.StringBytes(cs) == k[i..]
    ensures i == j && n == |k| && IsPlain(k[j..]) && rest == tail
    decreases |cs|
  {
    hide *;
    if cs == [] {
      AllIsRead(cs, k, n, i, j, tail, rest);
    } else {
      ReadStep(cs, k, n, i, j, tail, rest);
      var sp, b := G.SpellChar(cs[0], []), CharBytes(cs[0]);
      CharIsPlainOrShrinks(cs[0]);
      KeyIsRead(cs[1..], k, n, i + |b|, j + |sp|, tail, rest);
      PlainSlices(k, j, |sp|);
    }
  }

  lemma PlainSlices(k: Text, j: nat, m: nat)
    requires j + m <= |k| && IsPlain(k[j..j + m]) && IsPlain(k[j + m..])
    ensures IsPlain(k[j..])
  {
    assert k[j..] == k[j..j + m] + k[j + m..];
  }

  /** The closing quote is the one after the raw key, and everything of k has been produced. */
  lemma AllIsRead(cs: seq<G.StrChar>, k: Text, n: nat, i: nat, j: nat, tail: Text, rest: Text)
    requires cs == [] && i <= j <= n <= |k|
    requires G.SpellChars(cs, [QUOTE] + rest) == RawText(k, n, tail)[j..]
    requires G.ValidChars(cs) && G.StringBytes(cs) == k[i..]
    ensures i == j && n == |k| && IsPlain(k[j..]) && rest == tail
  {
    assert RawText(k, n, tail)[n..] == [QUOTE] + tail;
    assert ([QUOTE] + tail)[1..] == tail && ([QUOTE] + rest)[1..] == rest;
  }

  /** A printed key that is read back as itself was clean, and ends where its printed form ends. */
  lemma KeyReadBack(k: Text, tail: Text, room: nat)
    requires var r := ParseString([QUOTE] + (RawKey(k) + ([QUOTE] + tail)), room);
             r.Ok? && r.value == k
    ensures CleanKey(k)
    ensures ParseString([QUOTE] + (RawKey(k) + ([QUOTE] + tail)), room) == Ok(k, tail)
  {
    var s := [QUOTE] + (RawKey(k) + ([QUOTE] + tail));
    var cs := StringIsGrammatical(s, room);
    ParsedStringsAreWellFormed(s, room);
    var n := Min(|k|, MAX_KEY);
    assert RawKey(k) == k[..n];
    assert s[1..] == RawText(k, n, tail)[0..];
    assert s[1..] == G.SpellChars(cs, [QUOTE] + ParseString(s, room).rest);
    assert k[0..] == k;
    KeyIsRead(cs, k, n, 0, 0, tail, ParseString(s, room).rest);
  }
}
