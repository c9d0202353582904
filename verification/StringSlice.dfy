/** string_slice.c: searching in slices and splitting them. A slice is modelled by its bytes. */
module StringSlices {
  import opened Bytes

  // ---------------------------------------------------------------------------------------------
  //  Occurrences
  // ---------------------------------------------------------------------------------------------

  predicate OccursAt(s: Text, sub: Text, i: nat) {
    i + |sub| <= |s| && s[i..i + |sub|] == sub
  }

  predicate Contains(s: Text, sub: Text) {
    exists i :: 0 <= i <= |s| && OccursAt(s, sub, i)
  }

  /** slice_starts_with */
  method StartsWith(s: Text, prefix: Text) returns (r: bool)
    ensures r <==> prefix <= s
    ensures r <==> OccursAt(s, prefix, 0)
  {
    if |s| < |prefix| {
      return false;
    }
    var i := 0;
    while i < |prefix|
      invariant i <= |prefix| && prefix[..i] == s[..i]
    {
      if s[i] != prefix[i] {
        return false;
      }
      i := i + 1;
    }
    return true;
  }

  /** slice_take */
  function Take(s: Text, n: nat): (r: Text)
    ensures r <= s && |r| == Min(n, |s|)
  {
    if |s| < n then s else s[..n]
  }

  /** slice_drop */
  function Drop(s: Text, n: nat): (r: Text)
    ensures Take(s, n) + r == s
  {
    if |s| < n then [] else s[n..]
  }

  lemma OccursInDrop(s: Text, sub: Text, i: nat)
    requires i <= |s|
    ensures OccursAt(s, sub, i) <==> OccursAt(Drop(s, i), sub, 0)
  {
    if i + |sub| <= |s| {
      assert Drop(s, i)[0..|sub|] == s[i..i + |sub|];
    }
  }

  /** slice_index_of: the first occurrence, or -1 */
  method IndexOf(s: Text, sub: Text) returns (index: int)
    ensures -1 <= index && (index == -1 <==> !Contains(s, sub))
    ensures 0 <= index ==> OccursAt(s, sub, index) && forall j :: 0 <= j < index ==> !OccursAt(s, sub, j)
  {
    if |s| < |sub| {
      return -1;
    }
    if |sub| == 0 {
      assert OccursAt(s, sub, 0);
      return 0;
    }
    var i := 0;
    while i < |s| - |sub| + 1
      invariant i <= |s| - |sub| + 1
      invariant forall j :: 0 <= j < i ==> !OccursAt(s, sub, j)
    {
      OccursInDrop(s, sub, i);
      var found := StartsWith(Drop(s, i), sub);
      if found {
        return i;
      }
      i := i + 1;
    }
    return -1;
  }

  /** slice_rindex_of: the last occurrence, or -1 */
  method RindexOf(s: Text, sub: Text) returns (index: int)
    ensures -1 <= index && (index == -1 <==> !Contains(s, sub))
    ensures 0 <= index ==> OccursAt(s, sub, index) && forall j :: index < j <= |s| ==> !OccursAt(s, sub, j)
  {
    if |s| < |sub| {
      return -1;
    }
    if |sub| == 0 {
      assert OccursAt(s, sub, |s|);
      return |s|;
    }
    var i := |s| - |sub| + 1;
    while 0 < i
      invariant 0 <= i <= |s| - |sub| + 1
      invariant forall j :: i <= j <= |s| ==> !OccursAt(s, sub, j)
    {
      i := i - 1;
      OccursInDrop(s, sub, i);
      var found := StartsWith(Drop(s, i), sub);
      if found {
        return i;
      }
    }
    return -1;
  }

  // ---------------------------------------------------------------------------------------------
  //  Chopping and splitting
  // ---------------------------------------------------------------------------------------------

  /** What slice_chop_by_delimiter does to a slice: the piece it returns and what it leaves. A delimiter at the
      very end is not recognised, unless it is all there is. */
  ghost predicate IsChop(s: Text, d: Text, piece: Text, rest: Text) {
    if d == [] || s == [] || |s| < |d| then piece == s && rest == []
    else if s == d then piece == [] && rest == []
    else if exists i :: 0 <= i < |s| - |d| && OccursAt(s, d, i) then
      && |piece| < |s| - |d| && s == piece + d + rest
      && forall j :: 0 <= j < |piece| ==> !OccursAt(s, d, j)
    else piece == s && rest == []
  }

  lemma CutAtOccurrence(s: Text, d: Text, i: nat)
    requires OccursAt(s, d, i)
    ensures Take(s, i) == s[..i] && s == Take(s, i) + d + Drop(s, i + |d|)
  {
    assert s == s[..i] + s[i..i + |d|] + s[i + |d|..];
  }

  /** slice_chop_by_delimiter */
  method ChopByDelimiter(s: Text, d: Text) returns (piece: Text, rest: Text)
    ensures IsChop(s, d, piece, rest)
  {
    hide OccursAt;
    if |d| == 0 || |s| == 0 || |s| < |d| {
      return s, [];
    }
    if |d| == |s| && s == d {
      return [], [];
    }
    var maxI := |s| - |d|;
    var i := 0;
    while i < maxI
      invariant i <= maxI
      invariant forall j :: 0 <= j < i ==> !OccursAt(s, d, j)
    {
      OccursInDrop(s, d, i);
      var found := StartsWith(Drop(s, i), d);
      if found {
        piece, rest := Take(s, i), Drop(s, i + |d|);
        CutAtOccurrence(s, d, i);
        return;
      }
      i := i + 1;
    }
    return s, [];
  }

  /** The pieces of s, in order */
  ghost predicate IsSplit(s: Text, d: Text, pieces: seq<Text>)
    decreases |pieces|
  {
    if s == [] then pieces == []
    else
      && pieces != []
      && exists rest :: IsChop(s, d, pieces[0], rest) && IsSplit(rest, d, pieces[1..])
  }

  /** slice_split. The linked list is a queue, so the pieces keep their order. */
  method Split(s: Text, d: Text) returns (pieces: seq<Text>)
    ensures IsSplit(s, d, pieces)
  {
    pieces := [];
    var rest := s;
    assert forall more: seq<Text> :: pieces + more == more;
    while 0 < |rest|
      invariant forall more :: IsSplit(rest, d, more) ==> IsSplit(s, d, pieces + more)
      decreases |rest|
    {
      var piece;
      ghost var before := rest;
      piece, rest := ChopByDelimiter(rest, d);
      forall more | IsSplit(rest, d, more) ensures IsSplit(s, d, pieces + [piece] + more) {
        assert ([piece] + more)[1..] == more;
        assert IsSplit(before, d, [piece] + more);
        assert pieces + [piece] + more == pieces + ([piece] + more);
      }
      pieces := pieces + [piece];
    }
    assert IsSplit(rest, d, []);
    assert pieces + [] == pieces;
  }

  function Join(pieces: seq<Text>, d: Text): Text {
    if pieces == [] then []
    else if |pieces| == 1 then pieces[0]
    else pieces[0] + d + Join(pieces[1..], d)
  }

  /** Splitting conserves text: joining the pieces gives the text back, except that one delimiter at the end is
      lost when the last piece is empty. */
  lemma {:induction false} JoinUndoesSplit(s: Text, d: Text, pieces: seq<Text>)
    requires IsSplit(s, d, pieces)
    ensures s == Join(pieces, d) + if pieces != [] && pieces[|pieces| - 1] == [] then d else []
    decreases |pieces|
  {
    if s != [] {
      var rest :| IsChop(s, d, pieces[0], rest) && IsSplit(rest, d, pieces[1..]);
      JoinUndoesSplit(rest, d, pieces[1..]);
      hide IsSplit, OccursAt;
      if rest == [] {
        assert pieces == [pieces[0]];
      } else {
        Reassociate(pieces[0], d, Join(pieces[1..], d), if pieces[|pieces| - 1] == [] then d else []);
      }
    }
  }

  lemma Reassociate(a: Text, b: Text, c: Text, d: Text)
    ensures a + b + (c + d) == a + b + c + d
  {
  }

  // ---------------------------------------------------------------------------------------------
  //  When a delimiter is lost
  // ---------------------------------------------------------------------------------------------

  /** No proper prefix of the delimiter is also its suffix, so that two occurrences never overlap. */
  predicate IsUnbordered(d: Text) {
    forall k :: 0 < k < |d| ==> d[..k] != d[|d| - k..]
  }

  predicate EndsInTwo(s: Text, d: Text) {
    2 * |d| <= |s| && OccursAt(s, d, |s| - 2 * |d|) && OccursAt(s, d, |s| - |d|)
  }

  predicate LosesDelimiter(pieces: seq<Text>) {
    pieces != [] && pieces[|pieces| - 1] == []
  }

  lemma OverlapIsBorder(s: Text, d: Text, i: nat, j: nat)
    requires OccursAt(s, d, i) && OccursAt(s, d, j) && i < j < i + |d|
    ensures var k := i + |d| - j; d[..k] == d[|d| - k..]
  {
    var k := i + |d| - j;
    assert d[..k] == s[j..j + |d|][..k] == s[j..j + k];
    assert d[|d| - k..] == s[i..i + |d|][|d| - k..] == s[j..j + k];
  }

  lemma OccurrencesDoNotOverlap(s: Text, d: Text, i: nat, j: nat)
    requires IsUnbordered(d) && OccursAt(s, d, i) && OccursAt(s, d, j) && i < j
    ensures i + |d| <= j
  {
    if j < i + |d| {
      OverlapIsBorder(s, d, i, j);
    }
  }

  /** Cutting off a piece and its delimiter moves the other occurrences down. */
  lemma OccursInRest(s: Text, d: Text, piece: Text, rest: Text, i: nat)
    requires s == piece + d + rest && |piece| + |d| <= i
    ensures OccursAt(s, d, i) <==> OccursAt(rest, d, i - |piece| - |d|)
  {
    var n := |piece| + |d|;
    if i + |d| <= |s| {
      assert s[i..i + |d|] == rest[i - n..i - n + |d|];
    }
  }

  lemma EndMovesDown(s: Text, d: Text, piece: Text, rest: Text)
    requires s == piece + d + rest && d != [] && IsUnbordered(d)
    requires forall j :: 0 <= j < |piece| ==> !OccursAt(s, d, j)
    requires EndsInTwo(s, d)
    ensures rest == [] || rest == d || EndsInTwo(rest, d)
  {
    hide IsUnbordered;
    var i := |s| - 2 * |d|;
    assert OccursAt(s, d, |piece|);
    if |piece| < i {
      OccurrencesDoNotOverlap(s, d, |piece|, i);
      OccursInRest(s, d, piece, rest, i);
      OccursInRest(s, d, piece, rest, i + |d|);
    } else if |piece| == i {
      assert rest == s[|s| - |d|..];
    }
  }

  lemma EndMovesUp(s: Text, d: Text, piece: Text, rest: Text)
    requires s == piece + d + rest && (rest == d || EndsInTwo(rest, d))
    ensures EndsInTwo(s, d)
  {
    if rest == d {
      assert s == piece + (d + d);
      assert s[|piece|..|piece| + |d|] == d && s[|piece| + |d|..] == d;
    } else {
      hide OccursAt;
      OccursInRest(s, d, piece, rest, |s| - 2 * |d|);
      OccursInRest(s, d, piece, rest, |s| - |d|);
    }
  }

  /** One step: the text ends in two delimiters iff what is left is the delimiter or ends in two. */
  lemma ChopKeepsEnd(s: Text, d: Text, piece: Text, rest: Text)
    requires IsChop(s, d, piece, rest) && d != [] && IsUnbordered(d) && rest != []
    ensures EndsInTwo(s, d) <==> rest == d || EndsInTwo(rest, d)
  {
    hide IsUnbordered, OccursAt, EndsInTwo;
    if EndsInTwo(s, d) {
      EndMovesDown(s, d, piece, rest);
    }
    if rest == d || EndsInTwo(rest, d) {
      EndMovesUp(s, d, piece, rest);
    }
  }

  lemma {:induction false} DelimiterIsLostAtEnd(s: Text, d: Text, pieces: seq<Text>)
    requires IsSplit(s, d, pieces) && d != [] && IsUnbordered(d)
    ensures LosesDelimiter(pieces) <==> s == d || EndsInTwo(s, d)
    decreases |pieces|
  {
    hide IsUnbordered, OccursAt;
    if s != [] {
      var rest :| IsChop(s, d, pieces[0], rest) && IsSplit(rest, d, pieces[1..]);
      DelimiterIsLostAtEnd(rest, d, pieces[1..]);
      if rest == [] {
        assert pieces == [pieces[0]];
        LastPieceIsEmpty(s, d, pieces[0]);
      } else {
        ChopKeepsEnd(s, d, pieces[0], rest);
        assert s != d;
      }
    }
  }

  /** The last piece is empty iff it was the delimiter that was left; and then there is no room for two. */
  lemma LastPieceIsEmpty(s: Text, d: Text, piece: Text)
    requires IsChop(s, d, piece, []) && s != [] && d != []
    ensures piece == [] <==> s == d
    ensures EndsInTwo(s, d) ==> s == d
  {
  }

  /** With a delimiter that cannot overlap itself, such as a single character, splitting loses a delimiter exactly if
      the text is the delimiter or ends in two of them. */
  lemma JoinUndoesSplitUnlessDoubled(s: Text, d: Text, pieces: seq<Text>)
    requires IsSplit(s, d, pieces) && d != [] && IsUnbordered(d)
    ensures s == Join(pieces, d) + if s == d || EndsInTwo(s, d) then d else []
  {
    JoinUndoesSplit(s, d, pieces);
    DelimiterIsLostAtEnd(s, d, pieces);
  }

  /** A delimiter that overlaps itself: "aaaaa" ends in two "aa", and splitting it loses nothing. */
  lemma OverlapKeepsDelimiter(a: Byte)
    ensures var s, d, pieces := [a, a, a, a, a], [a, a], [[], [], [a]];
            IsSplit(s, d, pieces) && EndsInTwo(s, d) && s == Join(pieces, d)
  {
    var d, five, three, one: Text := [a, a], [a, a, a, a, a], [a, a, a], [a];
    var empty: Text := [];
    assert OccursAt(five, d, 0) && OccursAt(five, d, 1) && OccursAt(five, d, 3) && OccursAt(three, d, 0);
    assert IsChop(five, d, empty, three) && IsChop(three, d, empty, one) && IsChop(one, d, one, empty);
    assert IsSplit(empty, d, []);
    var last, two: seq<Text>, all: seq<Text> := [one], [empty, one], [empty, empty, one];
    assert last[1..] == [] && IsSplit(one, d, last);
    assert two[1..] == last && IsSplit(three, d, two);
    assert all[1..] == two && IsSplit(five, d, all);
    assert Join(two, d) == empty + d + one && Join(all, d) == empty + d + Join(two, d);
  }

  /** The delimiter occurs in the last piece only at its end. */
  predicate EndsCleanly(last: Text, d: Text) {
    forall i :: 0 <= i <= |last| && OccursAt(last, d, i) ==> i == |last| - |d|
  }

  /** A piece that is followed by others has no delimiter in it; a piece that takes all the rest may end in one. */
  lemma PieceAvoidsDelimiter(s: Text, d: Text, piece: Text, rest: Text)
    requires IsChop(s, d, piece, rest) && d != []
    ensures rest != [] ==> !Contains(piece, d)
    ensures rest == [] ==> EndsCleanly(piece, d)
  {
    if rest != [] {
      PrefixAvoids(s, d, piece);
    }
  }

  /** The delimiter is in no piece but the last one, and there only at the end. */
  lemma {:induction false} PiecesAvoidDelimiter(s: Text, d: Text, pieces: seq<Text>)
    requires IsSplit(s, d, pieces) && d != []
    ensures forall k :: 0 <= k < |pieces| - 1 ==> !Contains(pieces[k], d)
    ensures pieces != [] ==> EndsCleanly(pieces[|pieces| - 1], d)
    decreases |pieces|
  {
    hide Contains, EndsCleanly, IsChop;
    if s != [] {
      var rest :| IsChop(s, d, pieces[0], rest) && IsSplit(rest, d, pieces[1..]);
      PieceAvoidsDelimiter(s, d, pieces[0], rest);
      PiecesAvoidDelimiter(rest, d, pieces[1..]);
      assert forall k :: 1 <= k < |pieces| ==> pieces[k] == pieces[1..][k - 1];
    }
  }

  lemma PrefixAvoids(s: Text, d: Text, piece: Text)
    requires d != [] && piece <= s && forall j :: 0 <= j < |piece| ==> !OccursAt(s, d, j)
    ensures !Contains(piece, d)
  {
    forall i | 0 <= i <= |piece| ensures !OccursAt(piece, d, i) {
      OccursInPrefix(s, piece, d, i);
    }
  }

  lemma OccursInPrefix(s: Text, prefix: Text, d: Text, i: nat)
    requires prefix <= s
    ensures OccursAt(prefix, d, i) ==> OccursAt(s, d, i)
  {
    if i + |d| <= |prefix| {
      assert s[i..i + |d|] == prefix[i..i + |d|];
    }
  }

  /** The pieces are determined by the text and the delimiter. */
  lemma {:induction false} SplitIsUnique(s: Text, d: Text, a: seq<Text>, b: seq<Text>)
    requires IsSplit(s, d, a) && IsSplit(s, d, b)
    ensures a == b
    decreases |a|
  {
    if s != [] {
      var r :| IsChop(s, d, a[0], r) && IsSplit(r, d, a[1..]);
      var t :| IsChop(s, d, b[0], t) && IsSplit(t, d, b[1..]);
      ChopIsUnique(s, d, a[0], r, b[0], t);
      SplitIsUnique(r, d, a[1..], b[1..]);
      assert a == [a[0]] + a[1..] && b == [b[0]] + b[1..];
    }
  }

  lemma ChopIsUnique(s: Text, d: Text, p: Text, r: Text, q: Text, t: Text)
    requires IsChop(s, d, p, r) && IsChop(s, d, q, t)
    ensures p == q && r == t
  {
    if d != [] && s != [] && |d| <= |s| && s != d && exists i :: 0 <= i < |s| - |d| && OccursAt(s, d, i) {
      assert OccursAt(s, d, |p|) && OccursAt(s, d, |q|);
      assert |p| == |q|;
      assert p == s[..|p|] && q == s[..|q|];
      assert r == s[|p| + |d|..] && t == s[|q| + |d|..];
    }
  }
}
