/** Bytes and byte strings, as the C sources see them. */
module Bytes {

  type Byte = b: int | 0 <= b < 256
  type Text = seq<Byte>

  const NUL: Byte := 0x00

  /** long on a 64-bit target */
  type Int64 = n: int | -0x8000_0000_0000_0000 <= n < 0x8000_0000_0000_0000

  /** A C string holds no NUL before its terminator. */
  predicate NulFree(s: Text) {
    forall i :: 0 <= i < |s| ==> s[i] != NUL
  }

  /** A C string, by value */
  type CText = s: Text | NulFree(s)

  /** The characters that C's "%s" prints: everything before the first NUL. */
  function CString(s: Text): (r: Text)
    ensures |r| <= |s| && r == s[..|r|]
    ensures NulFree(r)
    ensures |r| < |s| ==> s[|r|] == NUL
    ensures NulFree(s) ==> r == s
  {
    if s == [] || s[0] == NUL then [] else [s[0]] + CString(s[1..])
  }

  function Min(a: nat, b: nat): nat {
    if a < b then a else b
  }

  function Max(a: nat, b: nat): nat {
    if a < b then b else a
  }

  /** The last n elements of s, or all of s when it is shorter. */
  function LastN<T>(s: seq<T>, n: nat): seq<T> {
    if |s| <= n then s else s[|s| - n..]
  }

  function Repeat(b: Byte, n: nat): (r: Text)
    ensures |r| == n
    ensures forall i :: 0 <= i < n ==> r[i] == b
  {
    seq(n, _ => b)
  }
}
