/** string_builder.c: a growing byte buffer whose unused tail stays zero, so that it is always a C string. */
module StringBuilders {
  import opened Bytes
  import opened Arenas
  import opened Memory
  import opened Wrappers

  // ---------------------------------------------------------------------------------------------
  //  Buffers as byte sequences
  // ---------------------------------------------------------------------------------------------

  /** b holds n bytes of text, and zeros from there on. */
  predicate IsBuffer(b: Text, n: nat) {
    n < |b| && NulFree(b[..n]) && forall i :: n <= i < |b| ==> b[i] == NUL
  }

  /** s with t inserted at index i. */
  function InsertAt(s: Text, i: nat, t: Text): Text
    requires i <= |s|
  {
    s[..i] + t + s[i..]
  }

  lemma SpliceAppends(b: Text, n: nat, str: Text)
    requires IsBuffer(b, n) && n + |str| < |b| && NulFree(str)
    ensures IsBuffer(Splice(b, n, str + [NUL]), n + |str|)
    ensures Splice(b, n, str + [NUL])[..n + |str|] == b[..n] + str
  {
    var r := Splice(b, n, str + [NUL]);
    assert r[..n + |str|] == b[..n] + str;
  }

  /** The text from index i on is moved up, and str goes into the gap. */
  lemma SpliceInserts(b: Text, n: nat, i: nat, str: Text)
    requires IsBuffer(b, n) && n + |str| < |b| && NulFree(str) && i <= n
    ensures var r := Splice(Splice(b, i + |str|, b[i..n]), i, str);
            IsBuffer(r, n + |str|) && r[..n + |str|] == InsertAt(b[..n], i, str)
  {
    var r := Splice(Splice(b, i + |str|, b[i..n]), i, str);
    assert r[..n + |str|] == InsertAt(b[..n], i, str);
    assert forall k :: n + |str| <= k < |b| ==> r[k] == b[k];
  }

  lemma SpliceAppendsChar(b: Text, n: nat, c: Byte)
    requires IsBuffer(b, n) && n + 1 < |b| && c != NUL
    ensures var r := Splice(Splice(b, n, [c]), n + 1, [NUL]);
            IsBuffer(r, n + 1) && r[..n + 1] == b[..n] + [c]
  {
    SpliceTwice(b, n, [c], [NUL]);
    SpliceAppends(b, n, [c]);
  }

  lemma SpliceTwice(b: Text, i: nat, s: Text, t: Text)
    requires i + |s| + |t| <= |b|
    ensures Splice(Splice(b, i, s), i + |s|, t) == Splice(b, i, s + t)
  {
  }

  /** Moving the terminator along writes a zero over a zero. */
  lemma SpliceInsertsChar(b: Text, n: nat, i: nat, c: Byte)
    requires IsBuffer(b, n) && n + 1 < |b| && c != NUL && i <= n
    ensures var r := Splice(Splice(b, i + 1, b[i..n + 1]), i, [c]);
            IsBuffer(r, n + 1) && r[..n + 1] == InsertAt(b[..n], i, [c])
  {
    assert Splice(b, i + 1, b[i..n + 1]) == Splice(b, i + 1, b[i..n]);
    SpliceInserts(b, n, i, [c]);
  }

  lemma {:induction false} CStringStops(b: Text, n: nat)
    requires IsBuffer(b, n)
    ensures CString(b) == b[..n]
  {
    if n != 0 {
      assert b[0] == b[..n][0];
      assert b[1..][..n - 1] == b[..n][1..];
      CStringStops(b[1..], n - 1);
    }
  }

  lemma BufferGrows(b: Text, n: nat, more: Text)
    requires IsBuffer(b, n) && forall i :: 0 <= i < |more| ==> more[i] == NUL
    ensures IsBuffer(b + more, n) && (b + more)[..n] == b[..n]
  {
    assert (b + more)[..n] == b[..n];
  }

  // ---------------------------------------------------------------------------------------------
  //  Capacities
  // ---------------------------------------------------------------------------------------------

  /** CAPACITY_FACTOR: a third more room than wanted; the double arithmetic of the source truncates to the same
      integer. */
  function IdealCapacity(wanted: nat): (r: nat)
    ensures wanted <= r
  {
    wanted * 4 / 3
  }

  /** The capacity that a new builder gets. */
  function InitialCapacity(wanted: nat, length: nat): (r: nat)
    ensures wanted <= r && length <= r
    ensures wanted == length == 0 ==> r == 16
  {
    var ideal := IdealCapacity(Max(wanted, length));
    Max(wanted, if ideal == 0 then 16 else ideal)
  }

  class StringBuilder {
    var length: nat
    var capacity: nat
    /** The buffer is mem[base..base + capacity + 1]. */
    var mem: array<Byte>
    var base: nat
    const arena: Arena?

    /** The buffer lies inside its memory: all of a heap block, or part of an arena below its top. */
    ghost predicate Placed()
      reads this, arena
    {
      && base + capacity < mem.Length
      && (arena == null ==> base == 0 && mem.Length == capacity + 1)
      && (arena != null ==> arena.Valid() && mem == arena.mem && base + capacity + 1 <= arena.offset)
    }

    ghost function Buffer(): (b: Text)
      requires Placed()
      reads this, mem, arena
      ensures |b| == capacity + 1
    {
      mem[base..base + capacity + 1]
    }

    ghost predicate Valid()
      reads this, mem, arena
    {
      Placed() && IsBuffer(Buffer(), length)
    }

    ghost function Contents(): (s: Text)
      requires Valid()
      reads this, mem, arena
      ensures |s| == length && NulFree(s)
    {
      Buffer()[..length]
    }

    /** The buffer always reads as a C string that is exactly the contents. */
    lemma BufferIsCString()
      requires Valid()
      ensures CString(Buffer()) == Contents() && Buffer()[length] == NUL
    {
      CStringStops(Buffer(), length);
    }

    /** Nobody else notices: the rest of the arena below its earlier top keeps its bytes, and a heap builder
        leaves its block or changes only that. */
    twostate predicate OthersUntouched()
      reads this, mem, arena
    {
      && (arena == null ==> mem == old(mem) || fresh(mem))
      && (arena != null ==>
            && mem == old(mem) && old(arena.offset) <= arena.offset && arena.scopes == old(arena.scopes)
            && forall i :: 0 <= i < old(arena.offset) && i < mem.Length && !(old(base) <= i <= old(base + capacity))
                           ==> mem[i] == old(mem[i]))
    }

    /** sb_init */
    constructor OnHeap(wanted: nat, str: Text)
      requires NulFree(str)
      ensures Valid() && Contents() == str && arena == null && fresh(mem)
      ensures capacity == InitialCapacity(wanted, |str|)
    {
      var cap := InitialCapacity(wanted, |str|);
      var buf := new Byte[cap + 1](_ => 0);
      forall i | 0 <= i < |str| {
        buf[i] := str[i];
      }
      length, capacity, mem, base, arena := |str|, cap, buf, 0, null;
      new;
      assert Buffer()[..length] == str;
    }

    /** The part of sb_from_cstring after its two allocations. */
    constructor InArena(a: Arena, start: nat, cap: nat, str: Text)
      requires a.Valid() && NulFree(str) && |str| <= cap
      requires start + cap + 1 <= a.offset
      requires forall i :: start <= i <= start + cap ==> a.mem[i] == NUL
      modifies a.mem
      ensures Valid() && Contents() == str && arena == a && capacity == cap && base == start
      ensures forall i :: 0 <= i < start || start + cap < i < a.mem.Length ==> a.mem[i] == old(a.mem[i])
    {
      forall i | 0 <= i < |str| {
        a.mem[start + i] := str[i];
      }
      length, capacity, mem, base, arena := |str|, cap, a.mem, start, a;
      new;
      assert forall i :: 0 <= i < |str| ==> Buffer()[i] == a.mem[start + i];
      assert Buffer()[..length] == str;
    }

    /** The memory around the buffer keeps its bytes. */
    twostate predicate OnlyBufferChanged()
      reads this, mem
    {
      && mem == old(mem)
      && forall k :: 0 <= k < mem.Length && !(base <= k <= base + capacity) ==> mem[k] == old(mem[k])
    }

    /** memcpy and memmove into the buffer */
    method Write(i: nat, src: Text)
      requires Placed() && i + |src| <= capacity + 1
      modifies mem
      ensures Placed() && Buffer() == Splice(old(Buffer()), i, src)
      ensures OnlyBufferChanged()
    {
      forall k | 0 <= k < |src| {
        mem[base + i + k] := src[k];
      }
    }

    method Read(i: nat, j: nat) returns (r: Text)
      requires Placed() && i <= j <= capacity + 1
      ensures r == Buffer()[i..j]
    {
      r := mem[base + i..base + j];
      SliceOfSlice(mem[..], base, base + capacity + 1, i, j);
    }

    /** The memmove and the copy of an insertion: the bytes of the buffer from i up to `end` make room for str. */
    method MoveUpAndFill(i: nat, end: nat, str: Text)
      requires Placed() && i <= end && end + |str| <= capacity + 1
      modifies mem
      ensures Placed()
      ensures Buffer() == Splice(Splice(old(Buffer()), i + |str|, old(Buffer())[i..end]), i, str)
      ensures OnlyBufferChanged()
    {
      var tail := Read(i, end);
      Write(i + |str|, tail);
      Write(i, str);
    }

    /** sb_append_char, once there is room */
    method PutChar(c: Byte)
      requires Valid() && c != NUL && length < capacity
      modifies this`length, mem
      ensures Valid() && Contents() == old(Contents()) + [c] && OnlyBufferChanged()
    {
      SpliceAppendsChar(Buffer(), length, c);
      Write(length, [c]);
      length := length + 1;
      Write(length, [NUL]);
    }

    /** sb_append_str, once there is room; strcpy copies the terminator too */
    method PutStr(str: Text)
      requires Valid() && NulFree(str) && length + |str| <= capacity
      modifies this`length, mem
      ensures Valid() && Contents() == old(Contents()) + str && OnlyBufferChanged()
    {
      SpliceAppends(Buffer(), length, str);
      Write(length, str + [NUL]);
      length := length + |str|;
    }

    /** sb_insert_str, once there is room: no terminator is written, the zero tail provides it */
    method PutStrAt(str: Text, index: nat)
      requires Valid() && NulFree(str) && length + |str| <= capacity && index <= length
      modifies this`length, mem
      ensures Valid() && Contents() == InsertAt(old(Contents()), index, str) && OnlyBufferChanged()
    {
      hide Splice, InsertAt, IsBuffer;
      SpliceInserts(Buffer(), length, index, str);
      MoveUpAndFill(index, length, str);
      length := length + |str|;
    }

    /** sb_insert_char, once there is room; the terminator is moved along */
    method PutCharAt(c: Byte, index: nat)
      requires Valid() && c != NUL && length < capacity && index <= length
      modifies this`length, mem
      ensures Valid() && Contents() == InsertAt(old(Contents()), index, [c]) && OnlyBufferChanged()
    {
      hide Splice, InsertAt, IsBuffer;
      SpliceInsertsChar(Buffer(), length, index, c);
      MoveUpAndFill(index, length + 1, [c]);
      length := length + 1;
    }

    /** The buffer stays where it is or moves above the earlier top of the arena. */
    twostate predicate StaysOrMovesUp()
      reads this, arena
    {
      arena != null ==>
        || old(arena.offset) <= base
        || (base == old(base) && (capacity == old(capacity) || old(arena.offset) == old(base + capacity + 1)))
    }

    /** Whether there is room for a text of a length: in the buffer, on the heap, or below the end of the arena, for
        the additional bytes of a buffer at its top or for a new buffer. */
    predicate CanHold(wanted: nat)
      reads this, arena
    {
      || wanted <= capacity
      || arena == null
      || (if arena.TopPointer() == base + capacity + 1 then
            arena.offset + IdealCapacity(wanted) - capacity <= arena.usable
          else
            arena.offset + IdealCapacity(wanted) + 1 <= arena.usable)
    }

    /** sb_ensure_capacity; false exactly when an arena has no room left. */
    method EnsureCapacity(wanted: nat) returns (ok: bool)
      requires Valid()
      modifies this, mem, arena
      ensures Valid() && Contents() == old(Contents()) && length == old(length)
      ensures ok <==> old(CanHold(wanted))
      ensures ok ==> wanted <= capacity
      ensures OthersUntouched() && StaysOrMovesUp()
    {
      if wanted <= capacity {
        return true;
      }
      if arena == null {
        Reallocate(IdealCapacity(wanted));
        return true;
      } else if arena.TopPointer() == base + capacity + 1 {
        ok := GrowInPlace(IdealCapacity(wanted));
      } else {
        ok := Move(IdealCapacity(wanted));
      }
    }

    /** realloc followed by the clearing of the new bytes */
    method Reallocate(newCapacity: nat)
      requires Valid() && arena == null && capacity < newCapacity
      modifies this
      ensures Valid() && Contents() == old(Contents()) && length == old(length)
      ensures capacity == newCapacity && fresh(mem)
    {
      ghost var before := Buffer();
      var garbage: Byte := *;
      var buf := new Byte[newCapacity + 1](_ => garbage);
      forall i | 0 <= i <= capacity {
        buf[i] := mem[i];
      }
      forall i | capacity <= i <= newCapacity {
        buf[i] := NUL;
      }
      mem, capacity := buf, newCapacity;
      assert Buffer() == before + Repeat(NUL, newCapacity + 1 - |before|);
      BufferGrows(before, length, Repeat(NUL, newCapacity + 1 - |before|));
    }

    /** The buffer ends at the top of the arena, so only the additional bytes are allocated. */
    method GrowInPlace(newCapacity: nat) returns (ok: bool)
      requires Valid() && arena != null && capacity < newCapacity
      requires arena.offset == base + capacity + 1
      modifies this`capacity, arena, mem
      ensures Valid() && Contents() == old(Contents())
      ensures ok <==> old(arena.offset) + newCapacity - old(capacity) <= arena.usable
      ensures capacity == if ok then newCapacity else old(capacity)
      ensures OthersUntouched()
    {
      ghost var before := Buffer();
      var ptr := arena.Alloc(newCapacity - capacity, 1);
      assert arena.Alignment(1) == 1;
      ok := ptr.Some?;
      if ok {
        capacity := newCapacity;
        assert Buffer() == before + Repeat(NUL, newCapacity + 1 - |before|);
        BufferGrows(before, length, Repeat(NUL, newCapacity + 1 - |before|));
      } else {
        assert Buffer() == before;
      }
    }

    /** A new buffer is allocated and the old one is copied into it. */
    method Move(newCapacity: nat) returns (ok: bool)
      requires Valid() && arena != null && capacity < newCapacity
      modifies this`capacity, this`base, arena, mem
      ensures Valid() && Contents() == old(Contents())
      ensures ok <==> old(arena.offset) + newCapacity + 1 <= arena.usable
      ensures ok ==> capacity == newCapacity && old(arena.offset) <= base
      ensures !ok ==> capacity == old(capacity) && base == old(base)
      ensures OthersUntouched()
    {
      ghost var before := Buffer();
      var ptr := arena.Alloc(newCapacity + 1, 1);
      assert arena.Alignment(1) == 1;
      assert Buffer() == before;
      ok := ptr.Some?;
      if ok {
        Relocate(ptr.value, newCapacity);
      }
    }

    /** Zeroed memory above the old buffer takes over its bytes. */
    method Relocate(start: nat, newCapacity: nat)
      requires Valid() && arena != null && capacity < newCapacity
      requires base + capacity < start && start + newCapacity + 1 <= arena.offset
      requires forall i :: start <= i <= start + newCapacity ==> mem[i] == NUL
      modifies this`capacity, this`base, mem
      ensures Valid() && Contents() == old(Contents()) && base == start && capacity == newCapacity
      ensures OnlyBufferChanged()
    {
      ghost var before := Buffer();
      var bytes := Read(0, capacity + 1);
      assert bytes == before;
      base, capacity := start, newCapacity;
      ghost var more := Repeat(NUL, newCapacity + 1 - |bytes|);
      assert Buffer() == Repeat(NUL, newCapacity + 1);
      Write(0, bytes);
      assert Splice(Repeat(NUL, newCapacity + 1), 0, bytes) == bytes + more;
      BufferGrows(bytes, length, more);
    }

    /** sb_append_char: appending NUL does nothing. */
    method AppendChar(c: Byte) returns (ok: bool)
      requires Valid()
      modifies this, mem, arena
      ensures Valid()
      ensures Contents() == if ok && c != NUL then old(Contents()) + [c] else old(Contents())
      ensures ok <==> c == NUL || old(CanHold(length + 1))
      ensures OthersUntouched()
    {
      if c == NUL {
        return true;
      }
      ok := EnsureCapacity(length + 1);
      if ok {
        PutChar(c);
      }
    }

    /** sb_append_str */
    method AppendStr(str: Text) returns (ok: bool)
      requires Valid() && NulFree(str)
      modifies this, mem, arena
      ensures Valid()
      ensures Contents() == if ok then old(Contents()) + str else old(Contents())
      ensures ok <==> old(CanHold(length + |str|))
      ensures OthersUntouched()
    {
      if str == [] {
        assert Contents() + str == Contents();
        return true;
      }
      ok := EnsureCapacity(length + |str|);
      if ok {
        PutStr(str);
      }
    }

    /** sb_insert_str */
    method InsertStr(str: Text, index: nat) returns (ok: bool)
      requires Valid() && NulFree(str) && index <= length
      modifies this, mem, arena
      ensures Valid()
      ensures Contents() == if ok then InsertAt(old(Contents()), index, str) else old(Contents())
      ensures ok <==> old(CanHold(length + |str|))
      ensures OthersUntouched()
    {
      if str == [] {
        assert InsertAt(Contents(), index, str) == Contents();
        return true;
      }
      ok := EnsureCapacity(length + |str|);
      if ok {
        PutStrAt(str, index);
      }
    }

    /** sb_insert_char: inserting NUL does nothing. */
    method InsertChar(c: Byte, index: nat) returns (ok: bool)
      requires Valid() && index <= length
      modifies this, mem, arena
      ensures Valid()
      ensures Contents() == if ok && c != NUL then InsertAt(old(Contents()), index, [c]) else old(Contents())
      ensures ok <==> c == NUL || old(CanHold(length + 1))
      ensures OthersUntouched()
    {
      if c == NUL {
        return true;
      }
      ok := EnsureCapacity(length + 1);
      if ok {
        PutCharAt(c, index);
      }
    }
  }

  /** sizeof(StringBuilder) */
  const BUILDER_SIZE: nat := 24

  /** sb_from_cstring */
  method FromCString(str: Text, wanted: nat, arena: Arena) returns (sb: StringBuilder?)
    requires arena.Valid() && NulFree(str)
    modifies arena, arena.mem
    ensures arena.Valid()
    ensures var start := AlignUp(old(arena.offset), POINTER_ALIGNMENT) + BUILDER_SIZE;
            sb != null <==> start + InitialCapacity(wanted, |str|) + 1 <= arena.usable
    ensures sb != null ==>
              && fresh(sb) && sb.arena == arena && sb.Valid() && sb.Contents() == str
              && sb.capacity == InitialCapacity(wanted, |str|)
              && old(arena.offset) <= sb.base
    ensures forall i :: 0 <= i < old(arena.offset) ==> arena.mem[i] == old(arena.mem[i])
  {
    EightIsPow2();
    var cap := InitialCapacity(wanted, |str|);
    var p := arena.Alloc(BUILDER_SIZE, POINTER_ALIGNMENT);
    var q := arena.Alloc(cap + 1, 1);
    assert arena.Alignment(1) == 1;
    if p == None || q == None {
      return null;
    }
    sb := new StringBuilder.InArena(arena, q.value, cap, str);
  }
}
