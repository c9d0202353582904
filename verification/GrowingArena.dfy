/** The growing arena of allocator.c (auto_grow true): a chain of blocks, of which one is current. */
module GrowingArenas {
  import opened Arenas
  import opened Bits
  import opened Bytes
  import opened Memory
  import opened Wrappers

  const BLOCK_HEADER_SIZE: nat := 24

  /** A pointer into the arena. A block is known by its place in the chain. */
  datatype Address = Address(block: nat, offset: nat)

  class GrowingArena {
    const pageSize: nat
    const defaultBlockSize: nat
    /** The chain of blocks, with all their bytes. */
    var blocks: seq<Text>
    var current: nat
    var offset: nat

    ghost predicate Valid()
      reads this
    {
      && 0 < pageSize && METADATA_SIZE <= defaultBlockSize
      && current < |blocks| && offset <= |blocks[current]|
      && forall k :: 0 <= k < |blocks| ==> defaultBlockSize <= |blocks[k]|
    }

    /** _alok_arena_create; the page size is the system's. */
    constructor (capacity: nat, pageSize: nat)
      requires 0 < pageSize
      ensures Valid() && current == 0 && offset == METADATA_SIZE && |blocks| == 1
      ensures |blocks[0]| == defaultBlockSize == AlignUp(capacity + METADATA_SIZE, pageSize)
      ensures this.pageSize == pageSize
    {
      var size := AlignUp(capacity + METADATA_SIZE, pageSize);
      this.pageSize, defaultBlockSize := pageSize, size;
      blocks, current, offset := [Repeat(NUL, size)], 0, METADATA_SIZE;
    }

    /** usable_size: in the first block without its header and the two of the arena, in the others without theirs.
        Offsets count from the start of the block all the same. */
    function Usable(k: nat): nat
      requires Valid() && k < |blocks|
      reads this
    {
      |blocks[k]| - if k == 0 then METADATA_SIZE else BLOCK_HEADER_SIZE
    }

    /** pvt_alok_new_os_block, as the arena asks for it */
    function NewBlockSize(size: nat): (r: nat)
      requires Valid()
      reads this
      ensures defaultBlockSize <= r && size + BLOCK_HEADER_SIZE <= r
    {
      AlignUp(Max(defaultBlockSize, size + BLOCK_HEADER_SIZE), pageSize)
    }

    predicate FitsInBlock(size: nat, alignment: nat)
      requires Valid() && 0 < alignment
      reads this
    {
      AlignUp(offset, alignment) + size <= Usable(current)
    }

    /** Where the padding of an allocation starts: an allocation that does not fit pivots to the next block. */
    function Pivot(size: nat, alignment: nat): Address
      requires Valid() && 0 < alignment
      reads this
    {
      if FitsInBlock(size, alignment) then Address(current, offset) else Address(current + 1, BLOCK_HEADER_SIZE)
    }

    /** The size of that block, which is made if the chain has come to its end. */
    function PivotSize(size: nat, alignment: nat): nat
      requires Valid() && 0 < alignment
      reads this
    {
      var k := Pivot(size, alignment).block;
      if k < |blocks| then |blocks[k]| else NewBlockSize(size)
    }

    /** The padding is that of the offset before the pivot. */
    function Padding(alignment: nat): nat
      requires 0 < alignment
      reads this
    {
      AlignUp(offset, alignment) - offset
    }

    /** Whether the memory that an allocation clears and returns lies inside its block. After the pivot to another
        block the source does not look again. */
    predicate StaysInside(size: nat, alignment: nat)
      requires Valid() && 0 < alignment
      reads this
    {
      Pivot(size, alignment).offset + Padding(alignment) + size <= PivotSize(size, alignment)
    }

    lemma FittingStaysInside(size: nat, alignment: nat)
      requires Valid() && 0 < alignment && FitsInBlock(size, alignment)
      ensures StaysInside(size, alignment)
    {
    }

    /** An allocation for which a block is made fills it when the pages leave nothing over; then there is no place for
        the padding of the old offset. */
    lemma MadeToMeasure(size: nat, alignment: nat)
      requires Valid() && 0 < alignment && !FitsInBlock(size, alignment) && current + 1 == |blocks|
      requires defaultBlockSize <= size + BLOCK_HEADER_SIZE && (size + BLOCK_HEADER_SIZE) % pageSize == 0
      ensures StaysInside(size, alignment) <==> Padding(alignment) == 0
    {
      hide FitsInBlock;
      assert NewBlockSize(size) == size + BLOCK_HEADER_SIZE;
    }

    /** The 511 elements of a JSON array, of 24 bytes each, behind an offset that is aligned to eight bytes only: eight
        bytes behind the new block are cleared. */
    lemma ElementsLeaveBlock()
      requires Valid() && pageSize == 4096 && defaultBlockSize <= 12288 && current + 1 == |blocks|
      requires offset % 16 == 8 && !FitsInBlock(511 * 24, 16)
      ensures !StaysInside(511 * 24, 16)
    {
      hide FitsInBlock;
      MadeToMeasure(511 * 24, 16);
    }

    /** What an allocation at `from`, with its padding, does to the blocks. */
    twostate predicate Cleared(from: Address)
      reads this
    {
      && |old(blocks)| <= |blocks| && from.block < |blocks| && from.offset <= offset <= |blocks[from.block]|
      && (forall k :: 0 <= k < |old(blocks)| && k != from.block ==> blocks[k] == old(blocks)[k])
      && (from.block < |old(blocks)| ==>
            && |blocks[from.block]| == |old(blocks)[from.block]|
            && blocks[from.block][..from.offset] == old(blocks)[from.block][..from.offset]
            && blocks[from.block][offset..] == old(blocks)[from.block][offset..])
      && (forall i :: from.offset <= i < offset ==> blocks[from.block][i] == NUL)
    }

    /** pvt_alok_arena_alloc_impl: None when the memory would leave its block, and then nothing is promised. */
    method Alloc(size: nat, alignment: nat) returns (ptr: Option<Address>)
      requires Valid() && 0 < alignment
      modifies this
      ensures Valid()
      ensures ptr.Some? <==> old(StaysInside(size, alignment))
      ensures ptr.Some? ==>
                var from := old(Pivot(size, alignment));
                && ptr == Some(Address(from.block, from.offset + old(Padding(alignment))))
                && current == from.block && offset == ptr.value.offset + size
                && |blocks[current]| == old(PivotSize(size, alignment))
                && Cleared(from)
      ensures ptr.Some? ==>
                (ptr.value.offset % alignment == 0
                 <==> old(FitsInBlock(size, alignment)) || old(offset) % alignment == BLOCK_HEADER_SIZE % alignment)
    {
      PivotAlignment(offset, alignment);
      var padding := AlignUp(offset, alignment) - offset;
      if !FitsInBlock(size, alignment) {
        if current + 1 == |blocks| {
          blocks := blocks + [Repeat(NUL, NewBlockSize(size))];
        }
        current, offset := current + 1, BLOCK_HEADER_SIZE;
      }
      if |blocks[current]| < offset + padding + size {
        return None;
      }
      blocks := blocks[current := Splice(blocks[current], offset, Repeat(NUL, padding + size))];
      offset := offset + padding;
      ptr := Some(Address(current, offset));
      offset := offset + size;
    }

    /** alok_arena_begin_temp: the marker lives in the arena; None as for Alloc. */
    method BeginTemp() returns (marker: Option<Address>)
      requires Valid() && current < WORD_LIMIT && offset < WORD_LIMIT
      modifies this
      ensures Valid()
      ensures marker.Some? <==> old(StaysInside(MARKER_SIZE, POINTER_ALIGNMENT))
      ensures marker.Some? ==>
                var from, p := old(Pivot(MARKER_SIZE, POINTER_ALIGNMENT)), marker.value.offset;
                && marker.value.block == current == from.block && offset == p + MARKER_SIZE
                && p == from.offset + old(Padding(POINTER_ALIGNMENT))
                && |blocks[current]| == old(PivotSize(MARKER_SIZE, POINTER_ALIGNMENT))
                && blocks[current][p..p + MARKER_SIZE] == MarkerBytes(old(current), old(offset))
    {
      var bytes := MarkerBytes(current, offset);
      marker := Alloc(MARKER_SIZE, POINTER_ALIGNMENT);
      if marker.Some? {
        Store(marker.value, bytes);
      }
    }

    /** memcpy into a block */
    method Store(at: Address, bytes: Text)
      requires Valid() && at.block < |blocks| && at.offset + |bytes| <= |blocks[at.block]|
      modifies `blocks
      ensures Valid() && blocks == old(blocks)[at.block := Splice(old(blocks)[at.block], at.offset, bytes)]
      ensures blocks[at.block][at.offset..at.offset + |bytes|] == bytes
    {
      blocks := blocks[at.block := Splice(blocks[at.block], at.offset, bytes)];
    }

    predicate IsInside(at: Address, size: nat)
      reads this
    {
      at.block < |blocks| && at.offset + size <= |blocks[at.block]|
    }

    /** The block and the offset that a marker records. */
    function Recorded(marker: Address): Address
      requires IsInside(marker, MARKER_SIZE)
      reads this
    {
      Address(WordAt(blocks[marker.block], marker.offset), WordAt(blocks[marker.block], marker.offset + WORD_SIZE))
    }

    /** alok_arena_end_temp and alok_arena_pop_to_marker, for a marker that is stale or records a place in the arena */
    method EndTemp(marker: Address)
      requires Valid() && IsInside(marker, MARKER_SIZE)
      requires blocks[marker.block][marker.offset + STALE_FLAG] == NUL ==> IsInside(Recorded(marker), 0)
      modifies this
      ensures Valid()
      ensures if old(blocks)[marker.block][marker.offset + STALE_FLAG] == NUL then
                && Address(current, offset) == old(Recorded(marker))
                && blocks == old(blocks)[marker.block := old(blocks)[marker.block][marker.offset + STALE_FLAG := 1]]
              else
                current == old(current) && offset == old(offset) && blocks == old(blocks)
    {
      if blocks[marker.block][marker.offset + STALE_FLAG] != NUL {
        return;
      }
      var to := Recorded(marker);
      current, offset := to.block, to.offset;
      blocks := blocks[marker.block := blocks[marker.block][marker.offset + STALE_FLAG := 1]];
    }
  }

  /** After a pivot the padding of the old offset goes with the new one: the pointer is aligned exactly if the old
      offset was as far from an aligned one as the header of a block is. */
  lemma PivotAlignment(offset: nat, alignment: nat)
    requires 0 < alignment
    ensures var padding := AlignUp(offset, alignment) - offset;
            (BLOCK_HEADER_SIZE + padding) % alignment == 0 <==> offset % alignment == BLOCK_HEADER_SIZE % alignment
  {
    var padding := AlignUp(offset, alignment) - offset;
    if (BLOCK_HEADER_SIZE + padding) % alignment == 0 {
      MultiplesApart(offset + padding, BLOCK_HEADER_SIZE + padding, BLOCK_HEADER_SIZE, alignment);
    }
    if offset % alignment == BLOCK_HEADER_SIZE % alignment {
      MultiplesApart(offset, BLOCK_HEADER_SIZE, BLOCK_HEADER_SIZE + padding, alignment);
    }
  }

  /** At the start of an arena, a pointer that is aligned to 16 bytes there is not after a pivot. */
  lemma PivotMisaligns()
    ensures METADATA_SIZE % 16 == 0
    ensures (BLOCK_HEADER_SIZE + (AlignUp(METADATA_SIZE, 16) - METADATA_SIZE)) % 16 == 8
  {
    PivotAlignment(METADATA_SIZE, 16);
  }

  /** Going from x to y, which have the same remainder, does not change a remainder. */
  lemma MultiplesApart(x: nat, y: nat, z: nat, a: nat)
    requires 0 < a && x % a == y % a && y <= z + x
    ensures (z + x - y) % a == z % a
  {
    var k := x / a - y / a;
    assert x == y + k * a;
    AddMultiple(z, k, a);
  }

  lemma AddMultiple(x: nat, k: int, a: nat)
    requires 0 < a && 0 <= x + k * a
    ensures (x + k * a) % a == x % a
  {
    var q, r := x / a, x % a;
    assert x + k * a == (q + k) * a + r;
    if q + k < 0 {
      MulLe(q + k, -1, a);
      assert false;
    } else {
      DivUnique(x + k * a, a, q + k, r);
    }
  }
}
