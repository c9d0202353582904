/** The UTF-8 layer of the JSON parser: the octet grammar of RFC 3629, the encoder, the decoder and the
    byte-level automaton of json_parser.c. */
module Utf8 {
  import opened Bytes

  // ---------------------------------------------------------------------------------------------
  //  Section 4 of RFC 3629, production by production
  // ---------------------------------------------------------------------------------------------

  predicate Within(b: Byte, lo: Byte, hi: Byte) {
    lo <= b <= hi
  }

  predicate IsTail(b: Byte) {
    Within(b, 0x80, 0xBF)
  }

  predicate IsUtf8One(o: Text) {
    |o| == 1 && Within(o[0], 0x00, 0x7F)
  }

  predicate IsUtf8Two(o: Text) {
    |o| == 2 && Within(o[0], 0xC2, 0xDF) && IsTail(o[1])
  }

  predicate IsUtf8Three(o: Text) {
    && |o| == 3
    && (|| (o[0] == 0xE0 && Within(o[1], 0xA0, 0xBF))
        || (Within(o[0], 0xE1, 0xEC) && IsTail(o[1]))
        || (o[0] == 0xED && Within(o[1], 0x80, 0x9F))
        || (Within(o[0], 0xEE, 0xEF) && IsTail(o[1])))
    && IsTail(o[2])
  }

  predicate IsUtf8Four(o: Text) {
    && |o| == 4
    && (|| (o[0] == 0xF0 && Within(o[1], 0x90, 0xBF))
        || (Within(o[0], 0xF1, 0xF3) && IsTail(o[1]))
        || (o[0] == 0xF4 && Within(o[1], 0x80, 0x8F)))
    && IsTail(o[2]) && IsTail(o[3])
  }

  /** UTF8-char: the octets of one Unicode scalar value. */
  predicate IsOctets(o: Text) {
    IsUtf8One(o) || IsUtf8Two(o) || IsUtf8Three(o) || IsUtf8Four(o)
  }

  // ---------------------------------------------------------------------------------------------
  //  Encoding and decoding one scalar value
  // ---------------------------------------------------------------------------------------------

  predicate IsSurrogate(cp: int) {
    0xD800 <= cp <= 0xDFFF
  }

  predicate IsScalar(cp: int) {
    0 <= cp <= 0x10FFFF && !IsSurrogate(cp)
  }

  type Scalar = cp: int | IsScalar(cp)

  /** The six bits of cp that start at the given weight, as a continuation byte. */
  function Sextet(cp: int, weight: int): (r: Byte)
    requires 0 <= cp && 0 < weight
    ensures IsTail(r)
  {
    0x80 + cp / weight % 0x40
  }

  /** pvt_encode_utf8 on a scalar value; masks and shifts appear as remainders and quotients (see module Utf8Bits). */
  function Encode(cp: int): (o: Text)
    requires IsScalar(cp)
    ensures IsOctets(o)
    ensures cp != 0 ==> NulFree(o)
    ensures |o| == 1 <==> cp <= 0x7F
  {
    if cp <= 0x7F then
      [cp]
    else if cp <= 0x7FF then
      [0xC0 + cp / 0x40, Sextet(cp, 1)]
    else if cp <= 0xFFFF then
      SplitThree(cp);
      [0xE0 + cp / 0x1000, Sextet(cp, 0x40), Sextet(cp, 1)]
    else
      SplitFour(cp);
      [0xF0 + cp / 0x40000, Sextet(cp, 0x1000), Sextet(cp, 0x40), Sextet(cp, 1)]
  }

  /** pvt_decode_utf8: no error checking, only the number of bytes is looked at. */
  function Decode(o: Text): int {
    if |o| == 1 then o[0]
    else if |o| == 2 then Bits(o[0], 0x40) * 0x40 + Bits(o[1], 0x40)
    else if |o| == 3 then Bits(o[0], 0x20) * 0x1000 + Bits(o[1], 0x40) * 0x40 + Bits(o[2], 0x40)
    else if |o| == 4 then
      Bits(o[0], 0x10) * 0x40000 + Bits(o[1], 0x40) * 0x1000 + Bits(o[2], 0x40) * 0x40 + Bits(o[3], 0x40)
    else 0xFFFF_FFFF
  }

  /** The bits of b below the given power of two. */
  function Bits(b: int, bound: int): int
    requires 0 < bound
  {
    b % bound
  }

  lemma SplitThree(cp: int)
    requires 0 <= cp
    ensures cp == cp / 0x1000 * 0x1000 + cp / 0x40 % 0x40 * 0x40 + cp % 0x40
    ensures cp / 0x40 == cp / 0x1000 * 0x40 + cp / 0x40 % 0x40
    ensures cp / 0x40 / 0x40 == cp / 0x1000
  {
    assert cp / 0x40 / 0x40 == cp / 0x1000;
  }

  lemma SplitFour(cp: int)
    requires 0 <= cp
    ensures cp == cp / 0x40000 * 0x40000 + cp / 0x1000 % 0x40 * 0x1000 + cp / 0x40 % 0x40 * 0x40 + cp % 0x40
    ensures cp / 0x1000 / 0x40 == cp / 0x40000
    ensures cp <= 0x10FFFF ==> cp / 0x40000 <= 4
  {
    SplitThree(cp);
    assert cp / 0x1000 / 0x40 == cp / 0x40000;
  }

  lemma DecodeUndoesEncode(cp: int)
    requires IsScalar(cp)
    ensures Decode(Encode(cp)) == cp
  {
    if cp <= 0x7F {
    } else if cp <= 0x7FF {
      DecodeTwo(cp);
    } else if cp <= 0xFFFF {
      DecodeThree(cp);
    } else {
      DecodeFour(cp);
    }
  }

  lemma DecodeTwo(cp: int)
    requires 0x7F < cp <= 0x7FF
    ensures Bits(0xC0 + cp / 0x40, 0x40) * 0x40 + Bits(Sextet(cp, 1), 0x40) == cp
  {
    SextetBits(cp, 1);
    assert Bits(0xC0 + cp / 0x40, 0x40) == cp / 0x40;
  }

  lemma DecodeThree(cp: int)
    requires 0x7FF < cp <= 0xFFFF
    ensures Bits(0xE0 + cp / 0x1000, 0x20) * 0x1000 + Bits(Sextet(cp, 0x40), 0x40) * 0x40
            + Bits(Sextet(cp, 1), 0x40) == cp
  {
    SplitThree(cp);
    SextetBits(cp, 1);
    SextetBits(cp, 0x40);
    assert Bits(0xE0 + cp / 0x1000, 0x20) == cp / 0x1000;
  }

  lemma DecodeFour(cp: int)
    requires 0xFFFF < cp <= 0x10FFFF
    ensures Bits(0xF0 + cp / 0x40000, 0x10) * 0x40000 + Bits(Sextet(cp, 0x1000), 0x40) * 0x1000
            + Bits(Sextet(cp, 0x40), 0x40) * 0x40 + Bits(Sextet(cp, 1), 0x40) == cp
  {
    SplitFour(cp);
    SextetBits(cp, 1);
    SextetBits(cp, 0x40);
    SextetBits(cp, 0x1000);
    assert Bits(0xF0 + cp / 0x40000, 0x10) == cp / 0x40000;
  }

  lemma SextetBits(cp: int, weight: int)
    requires 0 <= cp && 0 < weight
    ensures Bits(Sextet(cp, weight), 0x40) == cp / weight % 0x40
  {
    var low := cp / weight % 0x40;
    assert (0x80 + low) % 0x40 == low;
  }

  lemma EncodeUndoesDecode(o: Text)
    requires IsOctets(o)
    ensures IsScalar(Decode(o))
    ensures Encode(Decode(o)) == o
  {
    if |o| == 2 {
      var cp := TwoBytes(o[0], o[1]);
      assert o == [o[0], o[1]];
    } else if |o| == 3 {
      var cp := ThreeBytes(o[0], o[1], o[2]);
      assert o == [o[0], o[1], o[2]];
    } else if |o| == 4 {
      var cp := FourBytes(o[0], o[1], o[2], o[3]);
      assert o == [o[0], o[1], o[2], o[3]];
    }
  }

  lemma TwoBytes(a: int, b: int) returns (cp: int)
    requires 0 <= a < 256 && 0 <= b < 256
    requires IsUtf8Two([a, b])
    ensures cp == Bits(a, 0x40) * 0x40 + Bits(b, 0x40)
    ensures IsScalar(cp) && Encode(cp) == [a, b]
  {
    cp := (a - 0xC0) * 0x40 + (b - 0x80);
    Join(a - 0xC0, b - 0x80);
  }

  lemma ThreeBytes(a: int, b: int, c: int) returns (cp: int)
    requires 0 <= a < 256 && 0 <= b < 256 && 0 <= c < 256
    requires IsUtf8Three([a, b, c])
    ensures cp == Bits(a, 0x20) * 0x1000 + Bits(b, 0x40) * 0x40 + Bits(c, 0x40)
    ensures IsScalar(cp) && Encode(cp) == [a, b, c]
  {
    cp := (a - 0xE0) * 0x1000 + (b - 0x80) * 0x40 + (c - 0x80);
    JoinThree(a - 0xE0, b - 0x80, c - 0x80);
    assert IsScalar(cp) && 0x7FF < cp <= 0xFFFF;
  }

  lemma FourBytes(a: int, b: int, c: int, d: int) returns (cp: int)
    requires 0 <= a < 256 && 0 <= b < 256 && 0 <= c < 256 && 0 <= d < 256
    requires IsUtf8Four([a, b, c, d])
    ensures cp == Bits(a, 0x10) * 0x40000 + Bits(b, 0x40) * 0x1000 + Bits(c, 0x40) * 0x40 + Bits(d, 0x40)
    ensures IsScalar(cp) && Encode(cp) == [a, b, c, d]
  {
    assert 0xF0 <= a <= 0xF4 && IsTail(b) && IsTail(c) && IsTail(d);
    assert Bits(a, 0x10) == a - 0xF0 && Bits(b, 0x40) == b - 0x80;
    assert Bits(c, 0x40) == c - 0x80 && Bits(d, 0x40) == d - 0x80;
    assert (a == 0xF0 ==> 0x90 <= b) && (a == 0xF4 ==> b <= 0x8F);
    cp := (a - 0xF0) * 0x40000 + (b - 0x80) * 0x1000 + (c - 0x80) * 0x40 + (d - 0x80);
    EncodeFour(a - 0xF0, b - 0x80, c - 0x80, d - 0x80);
  }

  lemma EncodeFour(a: int, b: int, c: int, d: int)
    requires 0 <= a <= 4 && 0 <= b < 0x40 && 0 <= c < 0x40 && 0 <= d < 0x40
    requires (a == 0 ==> 0x10 <= b) && (a == 4 ==> b < 0x10)
    ensures var cp := a * 0x40000 + b * 0x1000 + c * 0x40 + d;
            IsScalar(cp) && Encode(cp) == [0xF0 + a, 0x80 + b, 0x80 + c, 0x80 + d]
  {
    JoinFour(a, b, c, d);
  }

  lemma JoinThree(a: int, b: int, c: int)
    requires 0 <= a && 0 <= b < 0x40 && 0 <= c < 0x40
    ensures var cp := a * 0x1000 + b * 0x40 + c;
            cp / 0x1000 == a && cp / 0x40 % 0x40 == b && cp % 0x40 == c
  {
    var cp := a * 0x1000 + b * 0x40 + c;
    Join(a * 0x40 + b, c);
    Join(a, b);
    SplitThree(cp);
  }

  lemma JoinFour(a: int, b: int, c: int, d: int)
    requires 0 <= a && 0 <= b < 0x40 && 0 <= c < 0x40 && 0 <= d < 0x40
    ensures var cp := a * 0x40000 + b * 0x1000 + c * 0x40 + d;
            && cp / 0x40000 == a && cp / 0x1000 % 0x40 == b && cp / 0x40 % 0x40 == c && cp % 0x40 == d
  {
    var cp := a * 0x40000 + b * 0x1000 + c * 0x40 + d;
    JoinThree(a * 0x40 + b, c, d);
    Join(a, b);
    SplitFour(cp);
  }

  lemma Join(high: int, low: int)
    requires 0 <= high && 0 <= low < 0x40
    ensures (high * 0x40 + low) / 0x40 == high && (high * 0x40 + low) % 0x40 == low
  {
  }

  // ---------------------------------------------------------------------------------------------
  //  Whole strings
  // ---------------------------------------------------------------------------------------------

  /** The length of the octets that s starts with, 0 when it starts with none. */
  function HeadLen(s: Text): (n: nat)
    ensures n <= |s| && n <= 4
    ensures 0 < n ==> IsOctets(s[..n])
  {
    if 1 <= |s| && IsOctets(s[..1]) then 1
    else if 2 <= |s| && IsOctets(s[..2]) then 2
    else if 3 <= |s| && IsOctets(s[..3]) then 3
    else if 4 <= |s| && IsOctets(s[..4]) then 4
    else 0
  }

  /** UTF8-octets = *( UTF8-char ) */
  predicate WellFormed(s: Text)
    decreases |s|
  {
    s == [] || (0 < HeadLen(s) && WellFormed(s[HeadLen(s)..]))
  }

  function EncodeAll(cps: seq<Scalar>): Text {
    if cps == [] then [] else Encode(cps[0]) + EncodeAll(cps[1..])
  }

  function DecodeAll(s: Text): seq<Scalar>
    requires WellFormed(s)
    decreases |s|
  {
    if s == [] then []
    else
      EncodeUndoesDecode(s[..HeadLen(s)]);
      [Decode(s[..HeadLen(s)])] + DecodeAll(s[HeadLen(s)..])
  }

  /** Octets are prefix-free: what follows them does not change what the string starts with. */
  lemma HeadLenOfOctets(o: Text, rest: Text)
    requires IsOctets(o)
    ensures HeadLen(o + rest) == |o|
    ensures (o + rest)[..|o|] == o && (o + rest)[|o|..] == rest
  {
    var s := o + rest;
    assert s[..|o|] == o && s[|o|..] == rest;
    assert forall n :: 0 < n < |o| ==> s[..n] == o[..n];
    assert s[0] == o[0];
  }

  lemma {:induction false} DecodeAllUndoesEncodeAll(cps: seq<Scalar>)
    ensures WellFormed(EncodeAll(cps))
    ensures DecodeAll(EncodeAll(cps)) == cps
  {
    if cps != [] {
      HeadLenOfOctets(Encode(cps[0]), EncodeAll(cps[1..]));
      DecodeAllUndoesEncodeAll(cps[1..]);
      DecodeUndoesEncode(cps[0]);
    }
  }

  lemma {:induction false} EncodeAllUndoesDecodeAll(s: Text)
    requires WellFormed(s)
    ensures EncodeAll(DecodeAll(s)) == s
    decreases |s|
  {
    hide Decode, Encode, IsScalar;
    if s != [] {
      var n := HeadLen(s);
      EncodeUndoesDecode(s[..n]);
      EncodeAllUndoesDecodeAll(s[n..]);
      var cps := DecodeAll(s);
      assert Encode(cps[0]) == s[..n];
      assert cps[1..] == DecodeAll(s[n..]);
    }
  }

  lemma {:induction false} NulFreeHasNoZero(s: Text)
    requires NulFree(s) && WellFormed(s)
    ensures 0 !in DecodeAll(s)
    decreases |s|
  {
    if s != [] {
      var n := HeadLen(s);
      EncodeUndoesDecode(s[..n]);
      NulFreeHasNoZero(s[n..]);
      assert s[..n][0] == s[0];
    }
  }

  /** Well-formed strings are exactly the encodings of scalar values. */
  lemma WellFormedIffEncoding(s: Text)
    ensures WellFormed(s) <==> exists cps: seq<Scalar> :: EncodeAll(cps) == s
  {
    if WellFormed(s) {
      EncodeAllUndoesDecodeAll(s);
    }
    forall cps: seq<Scalar> | EncodeAll(cps) == s
      ensures WellFormed(s)
    {
      DecodeAllUndoesEncodeAll(cps);
    }
  }
}
