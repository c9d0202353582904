/** The keys of hashmap.c: when two keys are equal, and how a key is hashed. */
module HashKeys {
  import opened Bytes
  import opened Bits

  /** One more than the largest 64-bit word */
  const WORD_LIMIT: nat := 0x1_0000_0000_0000_0000

  type Word = n: nat | n < WORD_LIMIT

  /** MapKey. A double is its 64 bits; strings are compared by content. */
  datatype Key =
    | NoneKey
    | NullKey
    | LongKey(long: Int64)
    | DoubleKey(bits: Word)
    | StringKey(text: CText)
    | PointerKey(address: Word)

  const MINUS_ZERO: Word := 0x8000_0000_0000_0000
  const INFINITY: Word := 0x7FF0_0000_0000_0000

  /** A double whose magnitude is beyond infinity, with either sign */
  predicate IsNaN(bits: Word) {
    INFINITY < if bits < MINUS_ZERO then bits else bits - MINUS_ZERO
  }

  /** -0.0 and 0.0 compare equal. */
  function NormalZero(bits: Word): Word {
    if bits == MINUS_ZERO then 0 else bits
  }

  /** col_equals_double */
  predicate EqualsDouble(a: Word, b: Word) {
    !IsNaN(a) && !IsNaN(b) && NormalZero(a) == NormalZero(b)
  }

  /** map_equals_MapKey */
  predicate EqualsKey(a: Key, b: Key) {
    match a
    case NoneKey => false
    case NullKey => b.NullKey?
    case LongKey(n) => b.LongKey? && n == b.long
    case DoubleKey(bits) => b.DoubleKey? && EqualsDouble(bits, b.bits)
    case StringKey(s) => b.StringKey? && s == b.text
    case PointerKey(p) => b.PointerKey? && p == b.address
  }

  /** The keys that can be found again: neither COL_TYPE_NONE nor a NaN. */
  predicate IsFindable(k: Key) {
    !k.NoneKey? && (k.DoubleKey? ==> !IsNaN(k.bits))
  }

  /** One representative for all the keys that are equal to a key */
  function Canonical(k: Key): Key {
    if k.DoubleKey? then DoubleKey(NormalZero(k.bits)) else k
  }

  /** Equality of keys is an equivalence on the findable keys, and nothing equals the others. */
  lemma EqualKeysAreCanonical(a: Key, b: Key)
    ensures EqualsKey(a, b) <==> IsFindable(a) && IsFindable(b) && Canonical(a) == Canonical(b)
  {
  }

  /** A NaN has an exponent of all ones and a fraction that is not zero. */
  lemma NaNsByFields(bits: Word)
    ensures IsNaN(bits) <==>
              bits / 0x10_0000_0000_0000 % 0x800 == 0x7FF && bits % 0x10_0000_0000_0000 != 0
  {
  }

  /** Doubles are equal iff neither is a NaN and they have the same bits, or both are zeros of either sign. */
  lemma EqualDoubles(a: Word, b: Word)
    ensures EqualsDouble(a, b) <==>
              !IsNaN(a) && !IsNaN(b) && (a == b || {a, b} <= {0, 0x8000_0000_0000_0000})
  {
  }

  /** Two keys that may be different and yet equal */
  predicate AreZeros(a: Key, b: Key) {
    && a.DoubleKey? && b.DoubleKey?
    && a.bits in {0, 0x8000_0000_0000_0000} && b.bits in {0, 0x8000_0000_0000_0000}
  }

  /** All the equalities there are: a findable key equals itself, and the two zeros equal one another. */
  lemma EqualKeys(a: Key, b: Key)
    ensures EqualsKey(a, b) <==> (IsFindable(a) && a == b) || AreZeros(a, b)
  {
  }

  // ---------------------------------------------------------------------------------------------
  //  Hashing
  // ---------------------------------------------------------------------------------------------

  const GOLDEN: Word := 0x9e37_79b9_7f4a_7c15
  const MIX_1: Word := 0xff51_afd7_ed55_8ccd
  const MIX_2: Word := 0xc4ce_b9fe_1a85_ec53

  /** x * m on size_t */
  function Times(x: Word, m: Word): Word {
    x * m % WORD_LIMIT
  }

  lemma WordLimitIsPow2()
    ensures WORD_LIMIT == Pow2(64)
  {
    Pow2Sum(2, 2);
    Pow2Sum(4, 4);
    Pow2Sum(8, 8);
    Pow2Sum(16, 16);
    Pow2Sum(32, 32);
  }

  /** x ^= x >> 33 */
  function XorShift(x: Word): Word {
    WordLimitIsPow2();
    ShiftBelow(x, 33);
    XorBelow(x, ShiftRight(x, 33), 64);
    Xor(x, ShiftRight(x, 33))
  }

  /** map_hash_mix64 */
  function Mix64(x: Word): Word {
    XorShift(Times(XorShift(Times(XorShift(x), MIX_1)), MIX_2))
  }

  /** The djb2 hash of a string */
  function Djb2(s: Text): Word {
    if s == [] then 5381 else (Djb2(s[..|s| - 1]) * 33 + s[|s| - 1]) % WORD_LIMIT
  }

  /** map_hash_string */
  method MapHashString(s: Text) returns (hash: Word)
    requires NulFree(s)
    ensures hash == Djb2(s)
  {
    hash := 5381;
    var i := 0;
    while i < |s|
      invariant i <= |s| && hash == Djb2(s[..i])
    {
      hash := (hash * 33 + s[i]) % WORD_LIMIT;
      assert s[..i + 1][..i] == s[..i];
      i := i + 1;
    }
    assert s[..i] == s;
  }

  /** A long as an unsigned word */
  function Unsigned(n: Int64): Word {
    if n < 0 then n + WORD_LIMIT else n
  }

  function RawHash(k: Key): Word {
    match k
    case LongKey(n) => Times(Unsigned(n), GOLDEN)
    case DoubleKey(bits) => NormalZero(bits)
    case StringKey(s) => Djb2(s)
    case PointerKey(p) => p
    case _ => 0
  }

  function Hash(k: Key): Word {
    Mix64(RawHash(k))
  }

  /** map_hash_function */
  method MapHashFunction(k: Key) returns (hash: Word)
    ensures hash == Hash(k)
  {
    hide Mix64;
    var raw: Word := 0;
    match k {
      case LongKey(n) => raw := Times(Unsigned(n), GOLDEN);
      case DoubleKey(bits) => raw := if bits == MINUS_ZERO then 0 else bits;
      case StringKey(s) => raw := MapHashString(s);
      case PointerKey(p) => raw := p;
      case _ =>
    }
    hash := Mix64(raw);
  }

  function Power33(n: nat): nat {
    if n == 0 then 1 else 33 * Power33(n - 1)
  }

  /** The bytes as the digits of a number to the base 33 */
  function Base33(s: Text): nat {
    if s == [] then 0 else s[0] * Power33(|s| - 1) + Base33(s[1..])
  }

  lemma {:induction false} Base33Last(s: Text)
    requires s != []
    ensures Base33(s) == 33 * Base33(s[..|s| - 1]) + s[|s| - 1]
  {
    var n := |s| - 1;
    if n != 0 {
      Base33Last(s[1..]);
      assert s[1..][..n - 1] == s[..n][1..];
      TimesBase(s[0], Power33(n - 1), Base33(s[..n][1..]));
    } else {
      assert s[..n] == [] && s[1..] == [];
    }
  }

  lemma TimesBase(d: int, p: int, v: int)
    ensures 33 * (d * p + v) == d * (33 * p) + 33 * v
  {
  }

  /** The djb2 hash is 5381 followed by the bytes, as a number to the base 33, on 64 bits. */
  lemma {:induction false} Djb2IsBase33(s: Text)
    ensures Djb2(s) == (5381 * Power33(|s|) + Base33(s)) % 0x1_0000_0000_0000_0000
  {
    if s != [] {
      var n := |s| - 1;
      Djb2IsBase33(s[..n]);
      Base33Last(s);
      StepModulo(5381 * Power33(n) + Base33(s[..n]), s[n]);
    }
  }

  lemma StepModulo(x: nat, b: nat)
    ensures (x % WORD_LIMIT * 33 + b) % WORD_LIMIT == (33 * x + b) % WORD_LIMIT
  {
    var q, y := x / WORD_LIMIT, x % WORD_LIMIT * 33 + b;
    assert 33 * x + b == (q * 33 + y / WORD_LIMIT) * WORD_LIMIT + y % WORD_LIMIT;
    DivUnique(33 * x + b, WORD_LIMIT, q * 33 + y / WORD_LIMIT, y % WORD_LIMIT);
  }

  /** What is mixed: a long times the golden ratio, the bits of a double with one zero, the djb2 hash, an address. */
  lemma RawHashes(n: Int64, bits: Word, s: CText, p: Word)
    ensures RawHash(LongKey(n)) == (n + 0x1_0000_0000_0000_0000) % 0x1_0000_0000_0000_0000 * 0x9e37_79b9_7f4a_7c15
                                   % 0x1_0000_0000_0000_0000
    ensures RawHash(DoubleKey(bits)) == if bits == 0x8000_0000_0000_0000 then 0 else bits
    ensures RawHash(StringKey(s)) == (5381 * Power33(|s|) + Base33(s)) % 0x1_0000_0000_0000_0000
    ensures RawHash(PointerKey(p)) == p && RawHash(NullKey) == RawHash(NoneKey) == 0
  {
    Djb2IsBase33(s);
  }

  /** x ^= x >> 33, with a quotient for the shift */
  lemma XorShiftByQuotient(x: Word)
    ensures XorShift(x) == Xor(x, x / 0x2_0000_0000)
  {
    ShiftIsQuotient(x, 33);
    Pow2Sum(16, 16);
    Pow2Sum(32, 1);
    assert Pow2(16) == 0x1_0000 && Pow2(1) == 2;
  }

  /** The mixer, step by step on 64-bit words */
  lemma MixSteps(x: Word)
    ensures var y := Xor(x, x / 0x2_0000_0000) * 0xff51_afd7_ed55_8ccd % 0x1_0000_0000_0000_0000;
            var z := Xor(y, y / 0x2_0000_0000) * 0xc4ce_b9fe_1a85_ec53 % 0x1_0000_0000_0000_0000;
            Mix64(x) == Xor(z, z / 0x2_0000_0000)
  {
    hide XorShift, Xor;
    XorShiftByQuotient(x);
    var y := Times(XorShift(x), MIX_1);
    XorShiftByQuotient(y);
    XorShiftByQuotient(Times(XorShift(y), MIX_2));
  }

  /** What makes a hash map work at all: equal keys have equal hashes. */
  lemma EqualKeysHashAlike(a: Key, b: Key)
    requires EqualsKey(a, b)
    ensures Hash(a) == Hash(b)
  {
    hide Mix64, Djb2;
  }

  // ---------------------------------------------------------------------------------------------
  //  The mixer can be undone
  // ---------------------------------------------------------------------------------------------

  lemma XorShiftTwiceIsNothing(x: Word)
    ensures XorShift(XorShift(x)) == x
  {
    WordLimitIsPow2();
    XorShiftTwice(x, 33, 64);
  }

  /** Multiplication by m is undone by multiplication by an inverse of m. */
  lemma TimesIsUndone(x: Word, m: Word, inverse: Word, k: nat)
    requires m * inverse == k * WORD_LIMIT + 1
    ensures Times(Times(x, m), inverse) == x
  {
    var turns := x * m / WORD_LIMIT;
    var r := Times(x, m);
    assert x * m == turns * WORD_LIMIT + r;
    var q := x * k - turns * inverse;
    assert r * inverse == q * WORD_LIMIT + x by {
      Distribute(x, m, inverse, turns, r, k, WORD_LIMIT);
    }
    QuotientIsNat(r * inverse, q, x);
    DivUnique(r * inverse, WORD_LIMIT, q, x);
  }

  lemma Distribute(x: int, m: int, inverse: int, turns: int, r: int, k: int, w: int)
    requires x * m == turns * w + r && m * inverse == k * w + 1
    ensures r * inverse == (x * k - turns * inverse) * w + x
  {
    calc {
      r * inverse;
      (x * m - turns * w) * inverse;
      x * (m * inverse) - turns * w * inverse;
      x * (k * w + 1) - turns * w * inverse;
      x * (k * w) + x - turns * w * inverse;
      (x * k - turns * inverse) * w + x;
    }
  }

  lemma QuotientIsNat(product: nat, q: int, x: Word)
    requires product == q * WORD_LIMIT + x
    ensures 0 <= q
  {
  }

  const MIX_1_INVERSE: Word := 0x4f74_430c_22a5_4005
  const MIX_2_INVERSE: Word := 0x9cb4_b2f8_1293_37db
  const GOLDEN_INVERSE: Word := 0xf1de_83e1_9937_733d

  function Unmix64(y: Word): Word {
    XorShift(Times(XorShift(Times(XorShift(y), MIX_2_INVERSE)), MIX_1_INVERSE))
  }

  lemma Mix1IsUndone(x: Word)
    ensures Times(Times(x, MIX_1), MIX_1_INVERSE) == x
  {
    TimesIsUndone(x, MIX_1, MIX_1_INVERSE, MIX_1 * MIX_1_INVERSE / WORD_LIMIT);
  }

  lemma Mix2IsUndone(x: Word)
    ensures Times(Times(x, MIX_2), MIX_2_INVERSE) == x
  {
    TimesIsUndone(x, MIX_2, MIX_2_INVERSE, MIX_2 * MIX_2_INVERSE / WORD_LIMIT);
  }

  lemma GoldenIsUndone(x: Word)
    ensures Times(Times(x, GOLDEN), GOLDEN_INVERSE) == x
  {
    TimesIsUndone(x, GOLDEN, GOLDEN_INVERSE, GOLDEN * GOLDEN_INVERSE / WORD_LIMIT);
  }

  /** The mixer loses nothing. */
  lemma MixIsUndone(x: Word)
    ensures Unmix64(Mix64(x)) == x
  {
    hide XorShift, Times;
    var x1 := Times(XorShift(x), MIX_1);
    var x2 := Times(XorShift(x1), MIX_2);
    XorShiftTwiceIsNothing(x2);
    Mix2IsUndone(XorShift(x1));
    XorShiftTwiceIsNothing(x1);
    Mix1IsUndone(XorShift(x));
    XorShiftTwiceIsNothing(x);
  }

  /** So distinct integers never have the same hash. */
  lemma LongKeysNeverCollide(m: Int64, n: Int64)
    ensures Hash(LongKey(m)) == Hash(LongKey(n)) <==> m == n
  {
    hide Mix64, Unmix64, Times;
    MixIsUndone(Times(Unsigned(m), GOLDEN));
    MixIsUndone(Times(Unsigned(n), GOLDEN));
    GoldenIsUndone(Unsigned(m));
    GoldenIsUndone(Unsigned(n));
  }
}
