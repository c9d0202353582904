/** Words in memory: eight bytes each, the least significant one first. */
module Memory {
  import opened Bytes

  const WORD_SIZE: nat := 8
  /** What a word cannot hold */
  const WORD_LIMIT: nat := 0x1_0000_0000_0000_0000
  /** The null pointer */
  const NULL: nat := 0

  type Word = w: nat | w < WORD_LIMIT

  /** The n lowest bytes of a number. */
  function LowBytes(w: nat, n: nat): (b: Text)
    ensures |b| == n
    decreases n
  {
    if n == 0 then [] else [w % 0x100] + LowBytes(w / 0x100, n - 1)
  }

  function ValueOf(b: Text): (w: nat) {
    if b == [] then 0 else b[0] + 0x100 * ValueOf(b[1..])
  }

  function Encode(w: Word): (b: Text)
    ensures |b| == WORD_SIZE
  {
    LowBytes(w, WORD_SIZE)
  }

  /** One more than the largest value of n bytes. */
  function Limit(n: nat): (r: nat)
    ensures 0 < r
  {
    if n == 0 then 1 else 0x100 * Limit(n - 1)
  }

  lemma {:induction false} ValueOfLowBytes(w: nat, n: nat)
    requires w < Limit(n)
    ensures ValueOf(LowBytes(w, n)) == w
    decreases n
  {
    if n != 0 {
      ValueOfLowBytes(w / 0x100, n - 1);
    }
  }

  /** A word that is written is read back. */
  lemma ValueOfWord(w: Word)
    ensures ValueOf(Encode(w)) == w
  {
    WordLimit();
    ValueOfLowBytes(w, WORD_SIZE);
  }

  lemma WordLimit()
    ensures Limit(WORD_SIZE) == WORD_LIMIT
  {
    assert Limit(4) == 0x1_0000_0000;
  }

  lemma {:induction false} ValueBelowLimit(b: Text)
    ensures ValueOf(b) < Limit(|b|)
  {
    if b != [] {
      ValueBelowLimit(b[1..]);
    }
  }

  /** Eight bytes of zeros are the null pointer, and nothing else is. */
  lemma {:induction false} ValueIsZero(b: Text)
    ensures ValueOf(b) == 0 <==> forall i :: 0 <= i < |b| ==> b[i] == 0
  {
    if b != [] {
      ValueIsZero(b[1..]);
      assert forall i :: 0 < i < |b| ==> b[i] == b[1..][i - 1];
    }
  }

  /** The word at an index of a memory. */
  function WordAt(memory: Text, i: nat): (w: Word)
    requires i + WORD_SIZE <= |memory|
  {
    ValueBelowLimit(memory[i..i + WORD_SIZE]);
    WordLimit();
    ValueOf(memory[i..i + WORD_SIZE])
  }

  /** b with the bytes from i on overwritten. */
  function Splice(b: Text, i: nat, src: Text): (r: Text)
    requires i + |src| <= |b|
    ensures |r| == |b|
  {
    b[..i] + src + b[i + |src|..]
  }

  /** A word that is written to memory is read back from there. */
  lemma WordIsReadBack(memory: Text, i: nat, w: Word)
    requires i + WORD_SIZE <= |memory| && memory[i..i + WORD_SIZE] == Encode(w)
    ensures WordAt(memory, i) == w
  {
    ValueOfWord(w);
  }

  lemma SliceOfSlice(s: Text, a: nat, b: nat, i: nat, j: nat)
    requires a <= b <= |s| && i <= j <= b - a
    ensures s[a..b][i..j] == s[a + i..a + j]
  {
    var t := s[a..b];
    assert forall k :: i <= k < j ==> t[k] == s[a + k];
    assert |t[i..j]| == |s[a + i..a + j]|;
  }
}
