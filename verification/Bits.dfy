/** Bitwise operators on natural numbers, and what they come to on powers of two. */
module Bits {

  function Pow2(n: nat): (r: nat)
    ensures 0 < r
  {
    if n == 0 then 1 else 2 * Pow2(n - 1)
  }

  ghost predicate IsPow2(n: nat) {
    exists k: nat :: Pow2(k) == n
  }

  /** a & b */
  function And(a: nat, b: nat): nat {
    if a == 0 || b == 0 then 0
    else 2 * And(a / 2, b / 2) + (if a % 2 == 1 && b % 2 == 1 then 1 else 0)
  }

  /** a | b */
  function Or(a: nat, b: nat): nat
    decreases a + b
  {
    if a == 0 then b
    else if b == 0 then a
    else 2 * Or(a / 2, b / 2) + (if a % 2 == 1 || b % 2 == 1 then 1 else 0)
  }

  /** a ^ b */
  function Xor(a: nat, b: nat): nat
    decreases a + b
  {
    if a == 0 then b
    else if b == 0 then a
    else 2 * Xor(a / 2, b / 2) + (if a % 2 != b % 2 then 1 else 0)
  }

  /** a >> n */
  function ShiftRight(a: nat, n: nat): nat {
    if n == 0 then a else ShiftRight(a / 2, n - 1)
  }

  /** k ones */
  function Ones(k: nat): nat {
    if k == 0 then 0 else 2 * Ones(k - 1) + 1
  }

  /** The number of bits of a without leading zeros. */
  function BitLength(a: nat): nat {
    if a == 0 then 0 else 1 + BitLength(a / 2)
  }

  // ---------------------------------------------------------------------------------------------
  //  Powers of two
  // ---------------------------------------------------------------------------------------------

  lemma {:induction false} Pow2Grows(m: nat, n: nat)
    requires m <= n
    ensures Pow2(m) <= Pow2(n)
    ensures m < n ==> 2 * Pow2(m) <= Pow2(n)
    decreases n - m
  {
    if m < n {
      Pow2Grows(m, n - 1);
    }
  }

  lemma {:induction false} OnesArePow2(k: nat)
    ensures Ones(k) + 1 == Pow2(k)
  {
    if k != 0 {
      OnesArePow2(k - 1);
    }
  }

  /** A number lies between the powers of two on either side of its highest bit. */
  lemma {:induction false} BitLengthBounds(a: nat)
    requires 0 < a
    ensures Pow2(BitLength(a) - 1) <= a < Pow2(BitLength(a))
    ensures ShiftRight(a, BitLength(a) - 1) == 1
  {
    if a != 1 {
      BitLengthBounds(a / 2);
    } else {
      assert BitLength(1) == 1 + BitLength(0);
    }
  }

  // ---------------------------------------------------------------------------------------------
  //  Masks
  // ---------------------------------------------------------------------------------------------

  /** The lowest k bits of a. */
  function Low(a: nat, k: nat): (r: nat)
    ensures r <= a
  {
    if k == 0 then 0 else 2 * Low(a / 2, k - 1) + a % 2
  }

  lemma {:induction false} LowIsRemainder(a: nat, k: nat)
    ensures Low(a, k) == a % Pow2(k)
  {
    if k != 0 {
      LowIsRemainder(a / 2, k - 1);
      ModDouble(a, Pow2(k - 1));
    }
  }

  lemma ModDouble(a: nat, m: nat)
    requires 0 < m
    ensures a % (2 * m) == 2 * (a / 2 % m) + a % 2
    ensures a / (2 * m) == a / 2 / m
  {
    var q := a / 2 / m;
    assert a / 2 == q * m + a / 2 % m;
    assert a == q * (2 * m) + (2 * (a / 2 % m) + a % 2);
    DivUnique(a, 2 * m, q, 2 * (a / 2 % m) + a % 2);
  }

  lemma {:induction false} ShiftIsQuotient(a: nat, n: nat)
    ensures ShiftRight(a, n) == a / Pow2(n)
  {
    if n != 0 {
      ShiftIsQuotient(a / 2, n - 1);
      ModDouble(a, Pow2(n - 1));
    }
  }

  lemma DivUnique(a: nat, d: nat, q: nat, r: nat)
    requires 0 < d && a == q * d + r && r < d
    ensures a / d == q && a % d == r
  {
    if a / d < q {
      MulLe(a / d + 1, q, d);
    } else if q < a / d {
      MulLe(q + 1, a / d, d);
    }
  }

  lemma MulLe(a: int, b: int, c: int)
    requires a <= b && 0 <= c
    ensures a * c <= b * c
  {
  }

  lemma {:induction false} AndOnes(x: nat, k: nat)
    ensures And(x, Ones(k)) == Low(x, k)
  {
    if k != 0 && x != 0 {
      AndOnes(x / 2, k - 1);
    } else if k != 0 {
      LowOfZero(k);
    }
  }

  lemma {:induction false} LowOfZero(k: nat)
    ensures Low(0, k) == 0
  {
    if k != 0 {
      LowOfZero(k - 1);
    }
  }

  /** x & (n - 1) is the remainder modulo n, for a power of two n. */
  lemma MaskIsRemainder(x: nat, n: nat)
    requires IsPow2(n)
    ensures 0 < n && And(x, n - 1) == x % n
  {
    var k: nat :| Pow2(k) == n;
    OnesArePow2(k);
    AndOnes(x, k);
    LowIsRemainder(x, k);
  }

  /** w bits, the lowest k of them zeros and the others ones. */
  function HighOnes(k: nat, w: nat): nat
    requires k <= w
  {
    if k == 0 then Ones(w) else 2 * HighOnes(k - 1, w - 1)
  }

  lemma {:induction false} HighOnesValue(k: nat, w: nat)
    requires k <= w
    ensures HighOnes(k, w) == Pow2(w) - Pow2(k)
  {
    if k == 0 {
      OnesArePow2(w);
    } else {
      HighOnesValue(k - 1, w - 1);
    }
  }

  lemma {:induction false} AndHighOnes(x: nat, k: nat, w: nat)
    requires k <= w && x < Pow2(w)
    ensures And(x, HighOnes(k, w)) == x - Low(x, k)
  {
    if x == 0 {
      LowOfZero(k);
    } else if k == 0 {
      AndOnes(x, w);
      LowOfSmall(x, w);
    } else {
      AndHighOnes(x / 2, k - 1, w - 1);
    }
  }

  lemma {:induction false} LowOfSmall(x: nat, w: nat)
    requires x < Pow2(w)
    ensures Low(x, w) == x
  {
    if w != 0 {
      LowOfSmall(x / 2, w - 1);
    }
  }

  /** ~m in w bits */
  function Not(m: nat, w: nat): nat
    requires m < Pow2(w)
  {
    Pow2(w) - 1 - m
  }

  /** x & ~(n - 1) rounds x down to a multiple of n, for a power of two n that fits into w bits. */
  lemma InverseMaskRoundsDown(x: nat, n: nat, w: nat)
    requires IsPow2(n) && n <= Pow2(w) && x < Pow2(w)
    ensures 0 < n && And(x, Not(n - 1, w)) == x - x % n
  {
    var k: nat :| Pow2(k) == n;
    if w < k {
      Pow2Grows(w, k);
    }
    HighOnesValue(k, w);
    AndHighOnes(x, k, w);
    LowIsRemainder(x, k);
  }

  // ---------------------------------------------------------------------------------------------
  //  Smearing the highest bit downwards
  // ---------------------------------------------------------------------------------------------

  lemma {:induction false} OrShift(a: nat, b: nat, n: nat)
    ensures ShiftRight(Or(a, b), n) == Or(ShiftRight(a, n), ShiftRight(b, n))
    decreases n
  {
    if n != 0 {
      OrHalf(a, b);
      OrShift(a / 2, b / 2, n - 1);
    }
  }

  lemma OrHalf(a: nat, b: nat)
    ensures Or(a, b) / 2 == Or(a / 2, b / 2)
  {
  }

  lemma {:induction false} ShiftSum(a: nat, m: nat, n: nat)
    ensures ShiftRight(ShiftRight(a, m), n) == ShiftRight(a, m + n)
    decreases m
  {
    if m != 0 {
      ShiftSum(a / 2, m - 1, n);
    }
  }

  lemma {:induction false} ShiftOnes(k: nat, n: nat)
    ensures ShiftRight(Ones(k + n), n) == Ones(k)
    decreases n
  {
    if n != 0 {
      assert Ones(k + n) / 2 == Ones(k + n - 1);
      ShiftOnes(k, n - 1);
    }
  }

  /** OR with k ones completes a number whose higher bits are all ones. */
  lemma {:induction false} OrOnes(z: nat, m: nat, k: nat)
    requires ShiftRight(z, k) == Ones(m)
    ensures Or(z, Ones(k)) == Ones(m + k)
    decreases k
  {
    if k != 0 {
      OrOnes(z / 2, m, k - 1);
      assert Ones(k) / 2 == Ones(k - 1);
      OrHalf(z, Ones(k));
      OddOr(z, Ones(k));
    }
  }

  lemma OddOr(a: nat, b: nat)
    requires b % 2 == 1
    ensures Or(a, b) % 2 == 1
  {
  }

  /** x has n bits, and its highest m bits are ones. */
  predicate TopOnes(x: nat, n: nat, m: nat) {
    m <= n && ShiftRight(x, n - m) == Ones(m)
  }

  /** x |= x >> m doubles the run of ones at the top, as far as there are bits left. */
  lemma SmearStep(x: nat, n: nat, m: nat)
    requires TopOnes(x, n, m)
    ensures TopOnes(Or(x, ShiftRight(x, m)), n, if 2 * m <= n then 2 * m else n)
  {
    var k := if 2 * m <= n then m else n - m;
    var j := n - m - k;
    var y := ShiftRight(x, m);
    OrShift(x, y, j);
    ShiftSum(x, m, j);
    ShiftSum(x, n - m, m - k);
    ShiftOnes(k, m - k);
    assert ShiftRight(y, j) == Ones(k);
    ShiftSum(x, j, k);
    OrOnes(ShiftRight(x, j), m, k);
  }

  lemma {:induction false} ShiftOut(x: nat, n: nat)
    requires x < Pow2(n)
    ensures ShiftRight(x, n) == 0
  {
    if n != 0 {
      ShiftOut(x / 2, n - 1);
    }
  }

  /** Further steps change nothing once all bits are ones. */
  lemma SmearDone(n: nat, s: nat)
    requires n <= s
    ensures Or(Ones(n), ShiftRight(Ones(n), s)) == Ones(n)
  {
    OnesArePow2(n);
    Pow2Grows(n, s);
    ShiftOut(Ones(n), s);
  }

  // ---------------------------------------------------------------------------------------------
  //  Exclusive or
  // ---------------------------------------------------------------------------------------------

  lemma XorStep(a: nat, b: nat)
    ensures Xor(a, b) / 2 == Xor(a / 2, b / 2)
    ensures Xor(a, b) % 2 == if a % 2 != b % 2 then 1 else 0
  {
  }

  lemma {:induction false} ShiftXor(a: nat, b: nat, n: nat)
    ensures ShiftRight(Xor(a, b), n) == Xor(ShiftRight(a, n), ShiftRight(b, n))
    decreases n
  {
    if n != 0 {
      XorStep(a, b);
      ShiftXor(a / 2, b / 2, n - 1);
    }
  }

  lemma {:induction false} XorCancels(a: nat, b: nat)
    ensures Xor(Xor(a, b), b) == a
    decreases a + b
  {
    if a + b != 0 {
      var x := Xor(a, b);
      XorStep(a, b);
      XorStep(x, b);
      XorCancels(a / 2, b / 2);
    }
  }

  lemma {:induction false} XorBelow(a: nat, b: nat, w: nat)
    requires a < Pow2(w) && b < Pow2(w)
    ensures Xor(a, b) < Pow2(w)
    decreases w
  {
    if w != 0 {
      XorStep(a, b);
      XorBelow(a / 2, b / 2, w - 1);
    }
  }

  lemma {:induction false} ShiftBelow(a: nat, n: nat)
    ensures ShiftRight(a, n) <= a
    decreases n
  {
    if n != 0 {
      ShiftBelow(a / 2, n - 1);
    }
  }

  lemma {:induction false} AndBelow(a: nat, b: nat)
    ensures And(a, b) <= b
  {
    if a != 0 && b != 0 {
      AndBelow(a / 2, b / 2);
    }
  }

  lemma {:induction false} Pow2Sum(m: nat, n: nat)
    ensures Pow2(m + n) == Pow2(m) * Pow2(n)
    decreases m
  {
    if m != 0 {
      Pow2Sum(m - 1, n);
      assert 2 * (Pow2(m - 1) * Pow2(n)) == (2 * Pow2(m - 1)) * Pow2(n);
    }
  }

  /** Shifting by half the width or more: x ^ (x >> n) is undone by doing it again. */
  lemma XorShiftTwice(x: nat, n: nat, w: nat)
    requires x < Pow2(w) && w <= 2 * n
    ensures var y := Xor(x, ShiftRight(x, n));
            Xor(y, ShiftRight(y, n)) == x
  {
    var s := ShiftRight(x, n);
    var y := Xor(x, s);
    ShiftXor(x, s, n);
    ShiftSum(x, n, n);
    Pow2Grows(w, n + n);
    ShiftOut(x, n + n);
    assert ShiftRight(y, n) == Xor(s, 0) == s;
    XorCancels(x, s);
  }
}
