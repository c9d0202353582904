/** string_builder.c in a growing arena. A buffer at the top of the arena is taken to grow in place, wherever the
    arena puts the additional bytes. */
module GrowingBuilders {
  import opened Arenas
  import opened Bytes
  import opened GrowingArenas
  import opened Memory
  import opened StringBuilders
  import opened Wrappers

  /** The capacity with which a builder that grows byte by byte leaves capacities below the limit behind. */
  function Outgrown(capacity: nat, limit: nat): (r: nat)
    ensures limit <= r && capacity <= r
    decreases limit - capacity
  {
    if limit <= capacity then capacity else Outgrown(IdealCapacity(capacity + 1), limit)
  }

  lemma OutgrownStep(capacity: nat, limit: nat)
    requires capacity < limit
    ensures Outgrown(capacity, limit) == Outgrown(IdealCapacity(capacity + 1), limit)
    ensures limit <= IdealCapacity(capacity + 1) ==> Outgrown(capacity, limit) == IdealCapacity(capacity + 1)
  {
  }

  class GrowingBuilder {
    var length: nat
    var capacity: nat
    var buffer: Address
    const arena: GrowingArena
    /** How many bytes from the buffer's start on the arena has given out for it. */
    ghost var owned: nat

    /** The text and its terminator are inside their block. All of the buffer is the builder's own as long as nothing
        else has become of the arena's top. */
    ghost predicate Valid()
      reads this, arena
    {
      && arena.Valid() && buffer.block <= arena.current && length <= capacity
      && buffer.offset + length < |Block()|
      && NulFree(Contents()) && Block()[buffer.offset + length] == NUL
      && ((IsOwned() && IsBelowTop(capacity + 1)) || buffer.block < arena.current)
    }

    function Block(): Text
      requires buffer.block < |arena.blocks|
      reads this, arena
    {
      arena.blocks[buffer.block]
    }

    ghost function Contents(): (s: Text)
      requires buffer.block < |arena.blocks| && buffer.offset + length <= |Block()|
      reads this, arena
      ensures |s| == length
    {
      Block()[buffer.offset..buffer.offset + length]
    }

    /** The arena has given out the whole buffer, capacity and terminator. */
    ghost predicate IsOwned()
      reads this
    {
      owned == capacity + 1
    }

    predicate IsBelowTop(size: nat)
      reads this, arena
    {
      buffer.block == arena.current && buffer.offset + size <= arena.offset
    }

    /** top == buffer_end */
    predicate IsAtTop()
      reads this, arena
    {
      buffer.block == arena.current && buffer.offset + capacity + 1 == arena.offset
    }

    /** The bytes before the buffer stay what they are, and it does not move back. */
    twostate predicate BeforeUntouched()
      reads this, arena
    {
      var b := old(buffer);
      && b.block < |old(arena.blocks)| && |old(arena.blocks)| <= |arena.blocks|
      && b.offset <= |old(arena.blocks)[b.block]| == |arena.blocks[b.block]|
      && arena.blocks[b.block][..b.offset] == old(arena.blocks)[b.block][..b.offset]
      && (buffer.block == b.block ==> b.offset <= buffer.offset)
    }

    /** sb_new, after its two allocations */
    constructor (arena: GrowingArena, buffer: Address, capacity: nat)
      requires arena.Valid() && buffer.block == arena.current && buffer.offset + capacity + 1 <= arena.offset
      requires arena.blocks[arena.current][buffer.offset] == NUL
      ensures Valid() && Contents() == [] && IsOwned()
      ensures this.arena == arena && this.buffer == buffer && this.capacity == capacity
    {
      this.arena, this.buffer, this.capacity, length, owned := arena, buffer, capacity, 0, capacity + 1;
    }

    /** The buffer ends at the top of the arena, so only the additional bytes are allocated, and where they are is
        not looked at: the buffer is whole exactly if they still fit into the current block. */
    method GrowInPlace(newCapacity: nat) returns (ok: bool)
      requires Valid() && IsOwned() && IsAtTop() && capacity < newCapacity
      modifies this`capacity, this`owned, arena
      ensures ok <==> old(arena.StaysInside(newCapacity - capacity, 1))
      ensures ok ==> Valid() && Contents() == old(Contents()) && capacity == newCapacity && BeforeUntouched()
      ensures ok ==> (IsOwned() <==> buffer.offset + newCapacity + 1 <= old(arena.Usable(arena.current)))
      ensures ok && IsOwned() ==> IsAtTop()
      ensures ok && !IsOwned() ==> buffer.block < arena.current
    {
      ghost var fits, before, top := arena.FitsInBlock(newCapacity - capacity, 1), Block(), arena.offset;
      var ptr := arena.Alloc(newCapacity - capacity, 1);
      ok := ptr.Some?;
      if ok {
        assert Block()[..top] == before[..top];
        SamePrefix(before, Block(), top, buffer.offset, buffer.offset + length);
        capacity := newCapacity;
        if fits {
          owned := newCapacity + 1;
        }
      }
    }

    /** The text, as a caller copies it */
    method Read() returns (s: Text)
      requires Valid()
      ensures s == Contents()
    {
      s := Block()[buffer.offset..buffer.offset + length];
    }

    /** A new buffer is allocated and the old one is copied into it, with all the bytes of its capacity. */
    method Move(newCapacity: nat) returns (ok: bool)
      requires Valid() && capacity < newCapacity
      modifies this`capacity, this`buffer, this`owned, arena
      ensures ok <==> old(arena.StaysInside(newCapacity + 1, 1) && arena.IsInside(buffer, capacity + 1))
      ensures ok ==> Valid() && Contents() == old(Contents()) && capacity == newCapacity && BeforeUntouched()
      ensures ok ==> IsOwned() && IsAtTop()
    {
      hide GrowingArena.PivotSize, GrowingArena.NewBlockSize, GrowingArena.StaysInside, NulFree, GrowingArena.Usable;
      ghost var before, text, end := Block(), Contents(), buffer.offset + capacity + 1;
      var ptr := arena.Alloc(newCapacity + 1, 1);
      if ptr == None || !arena.IsInside(buffer, capacity + 1) {
        return false;
      }
      assert Block()[..end] == before[..end];
      SamePrefix(before, Block(), end, buffer.offset, buffer.offset + length);
      var bytes := Block()[buffer.offset..buffer.offset + capacity + 1];
      SliceOfSlice(Block(), buffer.offset, end, 0, length);
      assert bytes[length] == Block()[buffer.offset + length];
      assert bytes[..length] == text;
      Relocate(ptr.value, bytes, newCapacity);
      ok := true;
    }

    /** memcpy to memory that the arena has just given out */
    method Relocate(to: Address, bytes: Text, newCapacity: nat)
      requires arena.Valid() && to.block == arena.current && to.offset + newCapacity + 1 == arena.offset
      requires length < |bytes| <= newCapacity && NulFree(bytes[..length]) && bytes[length] == NUL
      requires arena.IsInside(buffer, 0)
      requires buffer.block < to.block || (buffer.block == to.block && buffer.offset + |bytes| <= to.offset)
      modifies this`capacity, this`buffer, this`owned, arena`blocks
      ensures Valid() && Contents() == bytes[..length] && capacity == newCapacity && IsOwned() && IsAtTop()
      ensures BeforeUntouched()
    {
      ghost var start := buffer.offset;
      SpliceReads(arena.blocks[to.block], to.offset, bytes, length, Min(start, to.offset));
      arena.Store(to, bytes);
      buffer, capacity, owned := to, newCapacity, newCapacity + 1;
    }

    predicate MustMove(wanted: nat)
      reads this, arena
    {
      capacity < wanted && !IsAtTop()
    }

    /** The memory that the growth for a length takes and copies lies inside its blocks. */
    predicate CanGrow(wanted: nat)
      requires arena.Valid() && buffer.block < |arena.blocks|
      reads this, arena
    {
      var newCapacity := IdealCapacity(wanted);
      if wanted <= capacity then true
      else if IsAtTop() then arena.StaysInside(newCapacity - capacity, 1)
      else arena.StaysInside(newCapacity + 1, 1) && arena.IsInside(buffer, capacity + 1)
    }

    /** sb_ensure_capacity; false when the memory of an allocation or of a copy would leave its block. */
    method EnsureCapacity(wanted: nat) returns (ok: bool)
      requires Valid()
      modifies this`capacity, this`buffer, this`owned, arena
      ensures ok ==> Valid() && Contents() == old(Contents()) && wanted <= capacity && BeforeUntouched()
      ensures ok <==> old(CanGrow(wanted))
      ensures ok && !old(MustMove(wanted)) ==> buffer == old(buffer)
      ensures ok && old(MustMove(wanted)) ==> IsOwned() && IsAtTop()
      ensures old(IsConfined()) && wanted == length + 1 ==> ok && buffer == old(buffer) && IsConfined()
    {
      hide Outgrown, NulFree;
      if wanted <= capacity {
        return true;
      }
      if IsConfined() && wanted == length + 1 {
        ConfinedGrowth();
      }
      hide IdealCapacity, GrowingArena.StaysInside, GrowingArena.Usable, GrowingArena.IsInside, Contents;
      var newCapacity := IdealCapacity(wanted);
      if IsAtTop() {
        ok := GrowInPlace(newCapacity);
      } else {
        ok := Move(newCapacity);
      }
    }

    /** A confined buffer that is full grows in place, and the memory for it is there. */
    lemma ConfinedGrowth()
      requires Valid() && IsConfined() && length == capacity
      ensures IsAtTop() && arena.StaysInside(IdealCapacity(capacity + 1) - capacity, 1)
      ensures var limit := arena.Usable(buffer.block) - buffer.offset;
              var next := IdealCapacity(capacity + 1);
              Room() < Outgrown(next, limit) && (limit <= next ==> Room() < next)
    {
      hide NulFree, Contents;
      OutgrownStep(capacity, arena.Usable(buffer.block) - buffer.offset);
      assert IdealCapacity(capacity + 1) - capacity <= 4 + capacity / 2;
    }

    /** sb_append_char; false when a byte would be written outside the block of the buffer, or its buffer could not
        grow inside the arena. */
    method AppendChar(c: Byte) returns (ok: bool)
      requires Valid()
      modifies this, arena
      ensures ok ==> Valid() && BeforeUntouched()
      ensures ok ==> Contents() == if c != NUL then old(Contents()) + [c] else old(Contents())
      ensures ok <==>
                || c == NUL
                || (old(CanGrow(length + 1)) && (old(MustMove(length + 1)) || old(arena.IsInside(buffer, length + 2))))
      ensures old(IsConfined()) ==> (ok <==> c == NUL || old(length) < old(Room()))
      ensures old(IsConfined()) && ok ==> buffer == old(buffer) && IsConfined()
    {
      hide Outgrown, GrowingArena.StaysInside, NulFree, CanGrow;
      if c == NUL {
        return true;
      }
      ok := EnsureCapacity(length + 1);
      if !ok || !arena.IsInside(buffer, length + 2) {
        return false;
      }
      ghost var b, before := old(buffer), arena.blocks;
      PutChar(c);
      if b.block == buffer.block {
        SamePrefix(before[b.block], Block(), buffer.offset, b.offset, b.offset);
      }
    }

    /** The two bytes that sb_append_char writes */
    method PutChar(c: Byte)
      requires Valid() && c != NUL && length < capacity && arena.IsInside(buffer, length + 2)
      modifies this`length, arena`blocks
      ensures Valid() && Contents() == old(Contents()) + [c] && length == old(length) + 1 && arena.Valid()
      ensures var k := buffer.block;
              && |arena.blocks| == |old(arena.blocks)| && |arena.blocks[k]| == |old(arena.blocks)[k]|
              && arena.blocks[k][..buffer.offset] == old(arena.blocks)[k][..buffer.offset]
              && forall j :: 0 <= j < |arena.blocks| && j != k ==> arena.blocks[j] == old(arena.blocks)[j]
    {
      SpliceAppendsByte(Block(), buffer.offset, length, c);
      arena.Store(Address(buffer.block, buffer.offset + length), [c, NUL]);
      length := length + 1;
    }

    /** The bytes of text that there are places for up to the end of the block, with a terminator */
    function Room(): nat
      requires buffer.block < |arena.blocks| && buffer.offset < |Block()|
      reads this, arena
    {
      |Block()| - buffer.offset - 1
    }

    /** The buffer is the last thing in a block of the default size, and before it grows beyond the usable part of the
        block its capacity is beyond the end of the block. Then it never moves. */
    ghost predicate IsConfined()
      requires Valid()
      reads this, arena
    {
      && |Block()| == arena.defaultBlockSize
      && if buffer.block == arena.current then
           && IsAtTop() && buffer.offset + capacity < arena.Usable(buffer.block)
           && Room() < Outgrown(capacity, arena.Usable(buffer.block) - buffer.offset)
         else
           Room() < capacity
    }
  }

  /** The second allocation of sb_new, and what follows it */
  method NewBuffer(capacity: nat, arena: GrowingArena) returns (sb: GrowingBuilder?)
    requires arena.Valid()
    modifies arena
    ensures arena.Valid()
    ensures sb != null ==>
              && fresh(sb) && sb.arena == arena && sb.Valid() && sb.Contents() == [] && sb.IsOwned() && sb.IsAtTop()
              && sb.capacity == capacity
    ensures var k, top := old(arena.current), old(arena.offset);
            top + capacity + 1 <= old(arena.Usable(arena.current)) ==>
              && sb != null && sb.buffer == Address(k, top)
              && |sb.Block()| == |old(arena.blocks)[k]| && sb.Block()[..top] == old(arena.blocks)[k][..top]
  {
    hide GrowingArena.PivotSize, GrowingArena.NewBlockSize, GrowingArena.StaysInside;
    if arena.FitsInBlock(capacity + 1, 1) {
      arena.FittingStaysInside(capacity + 1, 1);
    }
    var q := arena.Alloc(capacity + 1, 1);
    if q == None {
      return null;
    }
    sb := new GrowingBuilder(arena, q.value, capacity);
  }

  /** sb_new; null when the memory of an allocation would leave its block. */
  method NewBuilder(wanted: nat, arena: GrowingArena) returns (sb: GrowingBuilder?)
    requires arena.Valid()
    modifies arena
    ensures arena.Valid()
    ensures sb != null ==>
              && fresh(sb) && sb.arena == arena && sb.Valid() && sb.Contents() == [] && sb.IsOwned() && sb.IsAtTop()
              && sb.capacity == InitialCapacity(wanted, 0)
    ensures var k, top := old(arena.current), old(arena.offset);
            var start := AlignUp(top, POINTER_ALIGNMENT) + BUILDER_SIZE;
            start + InitialCapacity(wanted, 0) + 1 <= old(arena.Usable(arena.current)) ==>
              && sb != null && sb.buffer == Address(k, start)
              && |sb.Block()| == |old(arena.blocks)[k]| && sb.Block()[..top] == old(arena.blocks)[k][..top]
  {
    hide GrowingArena.PivotSize, GrowingArena.NewBlockSize, GrowingArena.StaysInside, AlignUp, GrowingBuilder.Valid;
    ghost var k, top := arena.current, arena.offset;
    ghost var end := AlignUp(top, POINTER_ALIGNMENT) + BUILDER_SIZE;
    ghost var fits := end + InitialCapacity(wanted, 0) + 1 <= arena.Usable(k);
    if arena.FitsInBlock(BUILDER_SIZE, POINTER_ALIGNMENT) {
      arena.FittingStaysInside(BUILDER_SIZE, POINTER_ALIGNMENT);
    }
    var p := arena.Alloc(BUILDER_SIZE, POINTER_ALIGNMENT);
    if p == None {
      return null;
    }
    ghost var between := arena.blocks;
    sb := NewBuffer(InitialCapacity(wanted, 0), arena);
    if fits {
      SamePrefix(between[k], arena.blocks[k], end, top, top);
    }
  }

  lemma SamePrefix(s: Text, t: Text, n: nat, i: nat, j: nat)
    requires n <= |s| && n <= |t| && s[..n] == t[..n] && i <= j <= n
    ensures s[..i] == t[..i] && s[i..j] == t[i..j] && (j < n ==> s[j] == t[j])
  {
    forall k | 0 <= k < n ensures s[k] == t[k] {
      assert s[k] == s[..n][k] && t[k] == t[..n][k];
    }
  }

  lemma SpliceReads(b: Text, i: nat, bytes: Text, n: nat, k: nat)
    requires i + |bytes| <= |b| && n < |bytes| && k <= i
    ensures var r := Splice(b, i, bytes);
            r[i..i + n] == bytes[..n] && r[i + n] == bytes[n] && r[..k] == b[..k]
  {
  }

  lemma SpliceAppendsByte(b: Text, i: nat, n: nat, c: Byte)
    requires i + n + 2 <= |b|
    ensures var r := Splice(b, i + n, [c, NUL]);
            r[i..i + n + 1] == b[i..i + n] + [c] && r[i + n + 1] == NUL && r[..i] == b[..i]
  {
  }
}
