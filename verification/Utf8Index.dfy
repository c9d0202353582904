/** string_utils_utf8.c: counting and indexing the characters of a UTF-8 string. */
module Utf8Index {
  import opened Bytes
  import opened Utf8

  const UINT32_MAX: int := 0xFFFF_FFFF

  /** The byte at the start of s, and the terminating NUL at its end */
  function First(s: Text): Byte {
    if s == [] then NUL else s[0]
  }

  /** The sequence length that a lead byte announces, 0 for a byte that cannot lead */
  function Announced(b: Byte): (n: nat)
    ensures n <= 4
  {
    if b < 0x80 then 1
    else if b < 0xC0 then 0
    else if b < 0xE0 then 2
    else if b < 0xF0 then 3
    else if b < 0xF8 then 4
    else 0
  }

  /** The bits of the code point that a lead byte holds */
  function LeadBits(b: Byte): nat {
    if b < 0x80 then b
    else if b < 0xE0 then b % 0x20
    else if b < 0xF0 then b % 0x10
    else b % 0x08
  }

  /** Adds n continuation bytes to a code point; UINT32_MAX when one is missing. */
  function AddTails(s: Text, n: nat, cp: nat): int
    decreases n
  {
    if n == 0 then cp
    else if !IsTail(First(s)) then UINT32_MAX
    else AddTails(s[1..], n - 1, cp * 0x40 + s[0] % 0x40)
  }

  /** What sutil8_char_at finds, whether s is well-formed or not. */
  function CharAt(s: Text, index: nat): int
    decreases index
  {
    if First(s) == NUL then UINT32_MAX
    else
      var n := Announced(s[0]);
      if n == 0 then UINT32_MAX
      else if index == 0 then AddTails(s[1..], n - 1, LeadBits(s[0]))
      else if |s| < n then UINT32_MAX
      else CharAt(s[n..], index - 1)
  }

  /** The bytes of s that are not continuation bytes */
  function CharCount(s: Text): nat {
    if s == [] then 0 else (if IsTail(s[0]) then 0 else 1) + CharCount(s[1..])
  }

  // ---------------------------------------------------------------------------------------------
  //  The loops
  // ---------------------------------------------------------------------------------------------

  /** The loop of sutil8_char_at over the continuation bytes */
  method DecodeTails(s: Text, start: nat, bytes: nat, lead: nat) returns (codePoint: int)
    requires start <= |s|
    ensures codePoint == AddTails(s[start..], bytes, lead)
  {
    codePoint := lead;
    var i, p := 0, start;
    while i < bytes
      invariant i <= bytes && start <= p <= |s| && 0 <= codePoint
      invariant AddTails(s[p..], bytes - i, codePoint) == AddTails(s[start..], bytes, lead)
    {
      var b := if p < |s| then s[p] else NUL;
      if !IsTail(b) {
        return UINT32_MAX;
      }
      codePoint := codePoint * 0x40 + b % 0x40;
      p, i := p + 1, i + 1;
    }
  }

  /** sutil8_char_at */
  method Sutil8CharAt(s: Text, index: nat) returns (codePoint: int)
    requires NulFree(s)
    ensures codePoint == CharAt(s, index)
  {
    var currentIndex, p := 0, 0;
    while p < |s|
      invariant p <= |s| && currentIndex <= index
      invariant CharAt(s[p..], index - currentIndex) == CharAt(s, index)
    {
      var bytes := Announced(s[p]);
      if bytes == 0 {
        return UINT32_MAX;
      }
      if currentIndex == index {
        codePoint := DecodeTails(s, p + 1, bytes - 1, LeadBits(s[p]));
        assert s[p..][1..] == s[p + 1..];
        return;
      }
      ghost var before := p;
      var left := bytes;
      while 0 < left
        invariant p + left == before + bytes && p <= |s|
      {
        if p == |s| {
          return UINT32_MAX;
        }
        p, left := p + 1, left - 1;
      }
      assert s[before..][bytes..] == s[p..];
      currentIndex := currentIndex + 1;
    }
    return UINT32_MAX;
  }

  /** sutil8_char_count */
  method Sutil8CharCount(s: Text) returns (count: nat)
    requires NulFree(s)
    ensures count == CharCount(s)
  {
    count := 0;
    var p := 0;
    while p < |s|
      invariant p <= |s| && count + CharCount(s[p..]) == CharCount(s)
    {
      if !IsTail(s[p]) {
        count := count + 1;
      }
      assert s[p..][1..] == s[p + 1..];
      p := p + 1;
    }
  }

  // ---------------------------------------------------------------------------------------------
  //  Characters are code points
  // ---------------------------------------------------------------------------------------------

  lemma {:induction false} CharCountConcat(a: Text, b: Text)
    ensures CharCount(a + b) == CharCount(a) + CharCount(b)
  {
    if a == [] {
      assert a + b == b;
    } else {
      assert (a + b)[0] == a[0] && (a + b)[1..] == a[1..] + b;
      CharCountConcat(a[1..], b);
    }
  }

  lemma CharCountOfOctets(o: Text)
    requires IsOctets(o)
    ensures CharCount(o) == 1
  {
    assert forall s: Text :: |s| == 1 ==> CharCount(s) == (if IsTail(s[0]) then 0 else 1) + CharCount([]);
    if |o| == 2 {
      TailsAreNotCounted(o[1..]);
    } else if |o| == 3 {
      TailsAreNotCounted(o[1..]);
    } else if |o| == 4 {
      TailsAreNotCounted(o[1..]);
    }
  }

  lemma {:induction false} TailsAreNotCounted(s: Text)
    requires forall i :: 0 <= i < |s| ==> IsTail(s[i])
    ensures CharCount(s) == 0
  {
    if s != [] {
      TailsAreNotCounted(s[1..]);
    }
  }

  /** On well-formed text, the count is the number of code points. */
  lemma {:induction false} CountIsNumberOfCodePoints(cps: seq<Scalar>)
    ensures CharCount(EncodeAll(cps)) == |cps|
  {
    if cps != [] {
      var o := Encode(cps[0]);
      CharCountOfOctets(o);
      CharCountConcat(o, EncodeAll(cps[1..]));
      CountIsNumberOfCodePoints(cps[1..]);
    }
  }

  /** The lead byte of octets announces their length, and decoding goes on to give what Decode gives. */
  lemma OctetsAreDecoded(o: Text, rest: Text)
    requires IsOctets(o)
    ensures Announced(o[0]) == |o|
    ensures AddTails((o + rest)[1..], |o| - 1, LeadBits(o[0])) == Decode(o)
  {
    var t0 := (o + rest)[1..];
    if |o| == 2 {
      assert t0[0] == o[1];
      assert Bits(o[0], 0x40) == LeadBits(o[0]);
    } else if |o| == 3 {
      assert t0[0] == o[1] && t0[1..][0] == o[2];
      assert Bits(o[0], 0x20) == LeadBits(o[0]);
      ThreeSteps(t0, LeadBits(o[0]));
    } else if |o| == 4 {
      assert t0[0] == o[1] && t0[1..][0] == o[2] && t0[2..][0] == o[3];
      assert Bits(o[0], 0x10) == LeadBits(o[0]);
      FourSteps(t0, LeadBits(o[0]));
    }
  }

  lemma ThreeSteps(t: Text, lead: nat)
    requires 2 <= |t| && IsTail(t[0]) && IsTail(t[1])
    ensures AddTails(t, 2, lead) == lead * 0x1000 + Bits(t[0], 0x40) * 0x40 + Bits(t[1], 0x40)
  {
    var cp := lead * 0x40 + t[0] % 0x40;
    assert AddTails(t, 2, lead) == AddTails(t[1..], 1, cp);
    assert AddTails(t[1..], 1, cp) == AddTails(t[1..][1..], 0, cp * 0x40 + t[1] % 0x40);
  }

  lemma FourSteps(t: Text, lead: nat)
    requires 3 <= |t| && IsTail(t[0]) && IsTail(t[1]) && IsTail(t[2])
    ensures AddTails(t, 3, lead)
         == lead * 0x40000 + Bits(t[0], 0x40) * 0x1000 + Bits(t[1], 0x40) * 0x40 + Bits(t[2], 0x40)
  {
    var cp := lead * 0x40 + t[0] % 0x40;
    assert AddTails(t, 3, lead) == AddTails(t[1..], 2, cp);
    ThreeSteps(t[1..], cp);
  }

  /** On the encoding of code points other than NUL, char_at(i) is the i-th code point, and UINT32_MAX past the
      last one. */
  lemma {:induction false} CharAtIsCodePoint(cps: seq<Scalar>, index: nat)
    requires 0 !in cps
    ensures CharAt(EncodeAll(cps), index) == if index < |cps| then cps[index] else 0xFFFF_FFFF
  {
    if cps != [] {
      var o, rest := Encode(cps[0]), EncodeAll(cps[1..]);
      OctetsAreDecoded(o, rest);
      DecodeUndoesEncode(cps[0]);
      assert (o + rest)[0] == o[0];
      if 0 < index {
        assert (o + rest)[|o|..] == rest;
        CharAtIsCodePoint(cps[1..], index - 1);
      }
    }
  }

  /** Both loops agree on every C string that is well-formed. */
  lemma CharactersAreCodePoints(s: Text, index: nat)
    requires NulFree(s) && WellFormed(s)
    ensures CharCount(s) == |DecodeAll(s)|
    ensures CharAt(s, index) == if index < CharCount(s) then DecodeAll(s)[index] else 0xFFFF_FFFF
  {
    var cps := DecodeAll(s);
    EncodeAllUndoesDecodeAll(s);
    CountIsNumberOfCodePoints(cps);
    NulFreeHasNoZero(s);
    CharAtIsCodePoint(cps, index);
  }
}
