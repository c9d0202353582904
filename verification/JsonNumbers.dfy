/** Numbers: the number parser accepts exactly the numbers of section 6 of RFC 8259 that are shorter than its
    buffer, and converts integers exactly. */
module JsonNumbers {
  import opened Bytes
  import opened JsonBytes
  import opened JsonValues
  import opened JsonParserSpec
  import G = JsonGrammar

  /** What may follow a number without becoming part of it. */
  predicate EndsNumber(rest: Text) {
    !IsDigit(Cur(rest)) && Cur(rest) != POINT && !IsExponentMark(Cur(rest))
  }

  lemma {:induction false} SkipDigitsOver(digits: Text, rest: Text)
    requires forall i :: 0 <= i < |digits| ==> IsDigit(digits[i])
    requires !IsDigit(Cur(rest))
    ensures SkipDigits(digits + rest) == rest
  {
    if digits == [] {
      assert digits + rest == rest;
    } else {
      assert (digits + rest)[1..] == digits[1..] + rest;
      SkipDigitsOver(digits[1..], rest);
    }
  }

  lemma {:induction false} SkipDigitsSplits(s: Text) returns (digits: Text)
    ensures s == digits + SkipDigits(s)
    ensures forall i :: 0 <= i < |digits| ==> IsDigit(digits[i])
    ensures IsDigit(Cur(s)) ==> digits != [] && digits[0] == s[0]
  {
    digits := [];
    if IsDigit(Cur(s)) {
      var more := SkipDigitsSplits(s[1..]);
      digits := [s[0]] + more;
      assert s == [s[0]] + s[1..];
    }
  }

  /** The token of an integer, as the conversion sees it. */
  lemma IntegerLexeme(n: G.Number)
    requires G.ValidNumber(n)
    ensures var token := G.SpellInteger(n, []);
            IsIntegerLexeme(token) && IntegerOf(token) == G.IntegerOf(n)
  {
    var token := G.SpellInteger(n, []);
    assert (if n.minus then token[1..] else token) == n.whole;
  }

  // ---------------------------------------------------------------------------------------------
  //  Completeness
  // ---------------------------------------------------------------------------------------------

  lemma ParseIntegerPartOf(n: G.Number, rest: Text)
    requires G.ValidNumber(n) && !IsDigit(Cur(rest))
    ensures ParseIntegerPart(G.SpellInteger(n, rest)) == Ok((), rest)
    ensures Cur(G.SpellInteger(n, rest)) != POINT
  {
    var s := G.SpellInteger(n, rest);
    var t := if n.minus then s[1..] else s;
    assert t == n.whole + rest;
    if n.whole[0] == ZERO {
      assert t[1..] == rest;
    } else {
      SkipDigitsOver(n.whole, rest);
    }
  }

  lemma ParseFractionOf(f: G.Fraction, rest: Text)
    requires f.Fraction? ==> G.AreDigits(f.digits)
    requires !IsDigit(Cur(rest)) && (f.NoFraction? ==> Cur(rest) != POINT)
    ensures ParseFraction(G.SpellFraction(f, rest)) == Ok((), rest)
  {
    if f.Fraction? {
      assert G.SpellFraction(f, rest)[1..] == f.digits + rest;
      SkipDigitsOver(f.digits, rest);
    }
  }

  lemma ParseExponentOf(e: G.Exponent, rest: Text)
    requires e.Exponent? ==>
               IsExponentMark(e.mark) && e.sign in {[], [PLUS], [MINUS]} && G.AreDigits(e.digits)
    requires !IsDigit(Cur(rest)) && (e.NoExponent? ==> !IsExponentMark(Cur(rest)))
    ensures ParseExponent(G.SpellExponent(e, rest)) == Ok((), rest)
  {
    if e.Exponent? {
      var u := G.SpellExponent(e, rest)[1..];
      assert u == e.sign + (e.digits + rest);
      if e.sign == [] {
        assert u == e.digits + rest;
      } else {
        assert u[1..] == e.digits + rest;
      }
      SkipDigitsOver(e.digits, rest);
    }
  }

  lemma SpellNumberConcat(n: G.Number, rest: Text)
    ensures G.SpellNumber(n, rest) == G.SpellNumber(n, []) + rest
  {
  }

  lemma ConsumedPrefix(a: Text, b: Text)
    ensures Consumed(a + b, b) == a
  {
  }

  /** Completeness: every number is parsed into its meaning, and what follows it is left, exactly if it is shorter
      than the buffer that it is converted in. */
  lemma ParseNumberOf(n: G.Number, rest: Text, size: nat)
    requires G.ValidNumber(n) && G.EndsAfter(n, rest)
    ensures ParseNumber(G.SpellNumber(n, rest), size)
         == if |G.SpellNumber(n, [])| < size then Ok(G.NumberMeaning(n), rest)
            else Err(MemoryOverrun, rest)
  {
    var s := G.SpellNumber(n, rest);
    var v := G.SpellExponent(n.exponent, rest);
    var u := G.SpellFraction(n.fraction, v);
    ParseIntegerPartOf(n, u);
    ParseFractionOf(n.fraction, v);
    ParseExponentOf(n.exponent, rest);
    SpellNumberConcat(n, rest);
    ConsumedPrefix(G.SpellNumber(n, []), rest);
    if n.fraction.NoFraction? && n.exponent.NoExponent? {
      IntegerLexeme(n);
    }
  }

  /** The number of n nines */
  function Nines(n: nat): G.Number {
    G.Number(false, Repeat(NINE, n), G.NoFraction, G.NoExponent)
  }

  /** 1023 digits fit into the buffer with their terminator, and 1024 do not. */
  lemma OneDigitTooMany()
    ensures ParseNumber(Repeat(NINE, 1023), NUMBER_BUFFER_SIZE) == Ok(G.NumberMeaning(Nines(1023)), [])
    ensures ParseNumber(Repeat(NINE, 1024), NUMBER_BUFFER_SIZE) == Err(MemoryOverrun, [])
  {
    DigitsAreSpelled(1023);
    DigitsAreSpelled(1024);
    ParseNumberOf(Nines(1023), [], NUMBER_BUFFER_SIZE);
    ParseNumberOf(Nines(1024), [], NUMBER_BUFFER_SIZE);
  }

  lemma DigitsAreSpelled(n: nat)
    requires 0 < n
    ensures G.ValidNumber(Nines(n)) && G.SpellNumber(Nines(n), []) == Repeat(NINE, n)
  {
    assert Repeat(NINE, n) + [] == Repeat(NINE, n);
  }

  // ---------------------------------------------------------------------------------------------
  //  Soundness
  // ---------------------------------------------------------------------------------------------

  lemma IntegerPartIsGrammatical(s: Text) returns (n: G.Number)
    requires ParseIntegerPart(s).Ok?
    ensures n.fraction.NoFraction? && n.exponent.NoExponent? && G.ValidNumber(n)
    ensures s == G.SpellInteger(n, ParseIntegerPart(s).rest) && !IsDigit(Cur(ParseIntegerPart(s).rest))
  {
    var minus := Cur(s) == MINUS;
    var t := if minus then s[1..] else s;
    var whole: Text;
    if t[0] == ZERO {
      whole := [ZERO];
      assert t == [ZERO] + t[1..];
    } else {
      whole := SkipDigitsSplits(t);
    }
    n := G.Number(minus, whole, G.NoFraction, G.NoExponent);
  }

  lemma FractionIsGrammatical(u: Text) returns (f: G.Fraction)
    requires ParseFraction(u).Ok?
    ensures f.Fraction? ==> G.AreDigits(f.digits)
    ensures f.Fraction? <==> Cur(u) == POINT
    ensures u == G.SpellFraction(f, ParseFraction(u).rest)
  {
    f := G.NoFraction;
    if Cur(u) == POINT {
      var digits := SkipDigitsSplits(u[1..]);
      f := G.Fraction(digits);
      assert u == [POINT] + u[1..];
    }
  }

  lemma ExponentIsGrammatical(u: Text) returns (e: G.Exponent)
    requires ParseExponent(u).Ok?
    ensures e.Exponent? ==>
              IsExponentMark(e.mark) && e.sign in {[], [PLUS], [MINUS]} && G.AreDigits(e.digits)
    ensures e.Exponent? <==> IsExponentMark(Cur(u))
    ensures u == G.SpellExponent(e, ParseExponent(u).rest)
  {
    e := G.NoExponent;
    if IsExponentMark(Cur(u)) {
      var d := SkipSign(u[1..]);
      var sign := if d == u[1..] then [] else [u[1]];
      assert u[1..] == sign + d;
      var digits := SkipDigitsSplits(d);
      e := G.Exponent(u[0], sign, digits);
      assert u == [u[0]] + (sign + d);
    }
  }

  /** A number with a fraction or an exponent */
  lemma DoubleIsGrammatical(s: Text, i: G.Number, u: Text, size: nat) returns (n: G.Number)
    requires G.ValidNumber(i) && i.fraction.NoFraction? && i.exponent.NoExponent? && s == G.SpellInteger(i, u)
    requires Cur(u) == POINT || IsExponentMark(Cur(u))
    requires |u| <= |s| && ParseDouble(s, u, size).Ok?
    ensures G.ValidNumber(n) && (n.fraction.Fraction? || n.exponent.Exponent?)
    ensures s == G.SpellNumber(n, ParseDouble(s, u, size).rest)
    ensures G.EndsAfter(n, ParseDouble(s, u, size).rest)
    ensures ParseDouble(s, u, size).value == Double(Consumed(s, ParseDouble(s, u, size).rest))
    ensures |Consumed(s, ParseDouble(s, u, size).rest)| < size
  {
    var f := FractionIsGrammatical(u);
    var e := ExponentIsGrammatical(ParseFraction(u).rest);
    n := i.(fraction := f, exponent := e);
  }

  /** Soundness: what the number parser accepts is a number, and it returns its meaning. */
  lemma NumberIsGrammatical(s: Text, size: nat) returns (n: G.Number)
    requires ParseNumber(s, size).Ok?
    ensures G.ValidNumber(n)
    ensures s == G.SpellNumber(n, ParseNumber(s, size).rest)
    ensures ParseNumber(s, size).value == G.NumberMeaning(n) && |G.SpellNumber(n, [])| < size
    ensures G.EndsAfter(n, ParseNumber(s, size).rest)
  {
    hide ParseIntegerPart, ParseDouble, G.SpellFraction, G.SpellExponent;
    n := IntegerPartIsGrammatical(s);
    var u := ParseIntegerPart(s).rest;
    NoFractionNorExponent(n, u);
    if Cur(u) == POINT || IsExponentMark(Cur(u)) {
      n := DoubleIsGrammatical(s, n, u, size);
    } else {
      IntegerLexeme(n);
    }
    SpellNumberConcat(n, ParseNumber(s, size).rest);
    ConsumedPrefix(G.SpellNumber(n, []), ParseNumber(s, size).rest);
  }

  lemma NoFractionNorExponent(n: G.Number, rest: Text)
    requires n.fraction.NoFraction? && n.exponent.NoExponent?
    ensures G.SpellNumber(n, rest) == G.SpellInteger(n, rest) && G.SpellNumber(n, []) == G.SpellInteger(n, [])
  {
  }
}
