/** collections.c: rounding a size up to a power of two by smearing its highest bit. */
module Collections {
  import opened Bytes
  import opened Bits

  /** The width of size_t. */
  function WordBits(): nat {
    64
  }

  /** One more than the largest size_t. */
  function WordLimit(): (r: nat)
    ensures 0 < r
  {
    Pow2(WordBits())
  }

  function Clamp(n: nat, lo: nat, hi: nat): nat {
    if n < lo then lo else if hi < n then hi else n
  }

  ghost predicate IsLeastPow2AtLeast(r: nat, n: nat) {
    && IsPow2(r) && n <= r
    && forall p :: IsPow2(p) && n <= p ==> r <= p
  }

  /** col_next_power_of_two on 64-bit words. It gives the least power of two that is at least the clamped
      request, except for a request at or above a bound `max` of 1 or 2: there it falls short. */
  method NextPowerOfTwo(wanted: nat, min: nat, max: nat) returns (r: nat)
    requires IsPow2(min) && IsPow2(max) && min <= max < WordLimit() && wanted < WordLimit()
    ensures IsLeastPow2AtLeast(r, Clamp(wanted, min, max)) <==> wanted < max || 2 < max
    ensures wanted < max || 2 < max ==> min <= r <= max
  {
    if wanted < min {
      Pow2IsLeast(min);
      return min;
    }
    var n := wanted;
    if max <= n {
      n := max - 1;
    }
    r := RoundUp(n);
    if wanted < max {
      InRange(wanted, max, WordBits());
      LeastIsMonotone(min, wanted, r);
    } else {
      AtBound(max, Predecessor(max - 1), r, WordBits());
      BoundIsLeast(max, r);
    }
  }

  lemma BoundIsLeast(max: nat, r: nat)
    requires IsPow2(max) && if 2 < max then r == max else r < max
    ensures IsLeastPow2AtLeast(r, max) <==> 2 < max
  {
  }

  lemma LeastIsMonotone(min: nat, n: nat, r: nat)
    requires min <= n && IsLeastPow2AtLeast(r, n)
    ensures min <= r
  {
  }

  /** n - 1 on size_t */
  function Predecessor(n: nat): nat {
    if n == 0 then WordLimit() - 1 else n - 1
  }

  /** Subtract one, fill all bits below the highest one, add one. */
  method RoundUp(n: nat) returns (r: nat)
    requires n < WordLimit()
    ensures r == Pow2(BitLength(Predecessor(n))) % WordLimit()
  {
    var x := Smear(Predecessor(n));
    OnesArePow2(BitLength(Predecessor(n)));
    r := (x + 1) % WordLimit();
  }

  /** All the bits below the highest one become ones. */
  method Smear(x: nat) returns (n: nat)
    requires x < WordLimit()
    ensures n == Ones(BitLength(x))
  {
    ghost var bits := BitLength(x);
    BitsOfWord(x, WordBits());
    SmearStart(x);
    n := x;
    SmearBy(n, bits, 1);
    n := Or(n, ShiftRight(n, 1));
    SmearBy(n, bits, 2);
    n := Or(n, ShiftRight(n, 2));
    SmearBy(n, bits, 4);
    n := Or(n, ShiftRight(n, 4));
    SmearBy(n, bits, 8);
    n := Or(n, ShiftRight(n, 8));
    SmearBy(n, bits, 16);
    n := Or(n, ShiftRight(n, 16));
    SmearBy(n, bits, 32);
    n := Or(n, ShiftRight(n, 32));
  }

  lemma BitsOfWord(x: nat, w: nat)
    requires x < Pow2(w)
    ensures BitLength(x) <= w
  {
    if 0 < x {
      BitLengthBounds(x);
      if w < BitLength(x) {
        Pow2Grows(w, BitLength(x) - 1);
      }
    }
  }

  lemma SmearStart(x: nat)
    ensures TopOnes(x, BitLength(x), Min(1, BitLength(x)))
  {
    if 0 < x {
      BitLengthBounds(x);
      assert Ones(1) == 2 * Ones(0) + 1;
    }
  }

  lemma SmearBy(x: nat, n: nat, s: nat)
    requires TopOnes(x, n, Min(s, n))
    ensures TopOnes(Or(x, ShiftRight(x, s)), n, Min(2 * s, n))
  {
    if s <= n {
      SmearStep(x, n, s);
    } else {
      SmearDone(n, s);
    }
  }

  lemma Pow2IsLeast(n: nat)
    requires IsPow2(n)
    ensures IsLeastPow2AtLeast(n, n)
  {
  }

  /** The power of two above the highest bit of n - 1 is the least one that is at least n. */
  lemma NextIsLeast(n: nat)
    requires 0 < n
    ensures IsLeastPow2AtLeast(Pow2(BitLength(n - 1)), n)
  {
    var b := BitLength(n - 1);
    if n == 1 {
      assert Pow2(b) == 1;
    } else {
      BitLengthBounds(n - 1);
      forall p | IsPow2(p) && n <= p
        ensures Pow2(b) <= p
      {
        var k: nat :| Pow2(k) == p;
        if k < b {
          Pow2Grows(k, b - 1);
        } else {
          Pow2Grows(b, k);
        }
      }
    }
  }

  /** What is left of a request at or above the bound: the bound itself, or less when it is 1 or 2. */
  lemma AtBound(max: nat, x: nat, r: nat, w: nat)
    requires IsPow2(max) && 0 < max < Pow2(w) && 0 < w
    requires x == if max == 1 then Pow2(w) - 1 else max - 2
    requires r == Pow2(BitLength(x)) % Pow2(w)
    ensures if 2 < max then r == max else r < max
  {
    if max == 1 {
      FullWord(w);
      DivUnique(Pow2(w), Pow2(w), 1, 0);
    } else if max == 2 {
      assert Pow2(BitLength(x)) == 1;
      DivUnique(1, Pow2(w), 0, 1);
    } else {
      BelowPow2(max);
      DivUnique(max, Pow2(w), 0, max);
    }
  }

  lemma InRange(n: nat, max: nat, w: nat)
    requires IsPow2(max) && 0 < n < max < Pow2(w)
    ensures var r := Pow2(BitLength(n - 1)) % Pow2(w);
            r == Pow2(BitLength(n - 1)) && IsLeastPow2AtLeast(r, n) && r <= max
  {
    NextIsLeast(n);
    var r := Pow2(BitLength(n - 1));
    assert r <= max;
    DivUnique(r, Pow2(w), 0, r);
  }

  lemma FullWord(w: nat)
    requires 0 < w
    ensures Pow2(BitLength(Pow2(w) - 1)) == Pow2(w)
  {
    var x := Pow2(w) - 1;
    Pow2Grows(0, w);
    BitsOfWord(x, w);
    BitLengthBounds(x);
    if BitLength(x) < w {
      Pow2Grows(BitLength(x), w);
    }
  }

  /** The next power of two of max - 1 is max, for a power of two max above 2. */
  lemma BelowPow2(max: nat)
    requires IsPow2(max) && 2 < max
    ensures Pow2(BitLength(max - 2)) == max
  {
    NextIsLeast(max - 1);
    var r := Pow2(BitLength(max - 2));
    var k: nat :| Pow2(k) == max;
    if r < max {
      var b := BitLength(max - 2);
      if k <= b {
        Pow2Grows(k, b);
      } else {
        Pow2Grows(b, k);
      }
    }
  }
}
