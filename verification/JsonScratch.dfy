/** The scratch arena in which pvt_parse_string builds a string, and how long a string may become in it. */
module JsonScratch {
  import opened Arenas
  import opened Bytes
  import opened GrowingArenas
  import opened GrowingBuilders
  import opened Memory
  import opened StringBuilders

  /** ALOK_DEFAULT_SCRATCH_ARENA_SIZE */
  const SCRATCH_SIZE: nat := 1024
  /** The capacity that pvt_parse_string asks for, and the one that it gets */
  const WANTED_CAPACITY: nat := 16
  const FIRST_CAPACITY: nat := 21

  predicate IsPageSize(size: nat) {
    size in {4096, 8192, 16384, 32768, 65536}
  }

  /** Where the buffer of a string starts, behind the marker and the builder, in an arena that stands at an offset. */
  function BufferStart(offset: nat): nat {
    AlignUp(offset, POINTER_ALIGNMENT) + MARKER_SIZE + BUILDER_SIZE
  }

  /** The bytes of a string for which there are places between the start of its buffer and the end of the block,
      with its terminator. */
  function RoomOf(blockSize: nat, offset: nat): nat
    requires BufferStart(offset) < blockSize
  {
    blockSize - BufferStart(offset) - 1
  }

  /** The part of a block that the arena gives out, counted from the start of the block */
  function UsableOf(blockSize: nat, block: nat): int {
    blockSize - if block == 0 then METADATA_SIZE else BLOCK_HEADER_SIZE
  }

  /** A string can be begun in a block of the default size where the arena stands; and the first capacity that is too
      large for the usable part of the block is too large for the block. */
  predicate CanBuild(blockSize: nat, home: Address) {
    && home.block < WORD_LIMIT && home.offset < WORD_LIMIT && METADATA_SIZE <= blockSize
    && var start, usable := BufferStart(home.offset), UsableOf(blockSize, home.block);
    && start + FIRST_CAPACITY + 1 <= usable
    && RoomOf(blockSize, home.offset) < Outgrown(FIRST_CAPACITY, usable - start)
  }

  /** The first place of an arena */
  const FIRST_PLACE: Address := Address(0, METADATA_SIZE)

  /** The capacities that every scratch arena goes through */
  lemma EarlyCapacities(limit: nat)
    requires 2396 < limit
    ensures Outgrown(FIRST_CAPACITY, limit) == Outgrown(3196, limit)
  {
    hide Outgrown;
    OutgrownStep(21, limit);
    OutgrownStep(29, limit);
    OutgrownStep(40, limit);
    OutgrownStep(54, limit);
    OutgrownStep(73, limit);
    OutgrownStep(98, limit);
    OutgrownStep(132, limit);
    OutgrownStep(177, limit);
    OutgrownStep(237, limit);
    OutgrownStep(317, limit);
    OutgrownStep(424, limit);
    OutgrownStep(566, limit);
    OutgrownStep(756, limit);
    OutgrownStep(1009, limit);
    OutgrownStep(1346, limit);
    OutgrownStep(1796, limit);
    OutgrownStep(2396, limit);
  }

  /** With none of the usual page sizes does a capacity fall between the two ends of the block. */
  lemma PagesAreOutgrown(pageSize: nat)
    requires IsPageSize(pageSize)
    ensures CanBuild(pageSize, FIRST_PLACE) && RoomOf(pageSize, METADATA_SIZE) == pageSize - 129
  {
    hide Outgrown;
    assert BufferStart(METADATA_SIZE) == 128;
    var limit := pageSize - METADATA_SIZE - 128;
    EarlyCapacities(limit);
    OutgrownStep(3196, limit);
    if 4096 < pageSize {
      OutgrownStep(4262, limit);
      OutgrownStep(5684, limit);
      OutgrownStep(7580, limit);
    }
    if 8192 < pageSize {
      OutgrownStep(10108, limit);
      OutgrownStep(13478, limit);
    }
    if 16384 < pageSize {
      OutgrownStep(17972, limit);
      OutgrownStep(23964, limit);
      OutgrownStep(31953, limit);
    }
    if 32768 < pageSize {
      OutgrownStep(42605, limit);
      OutgrownStep(56808, limit);
    }
  }

  /** A short string with invalid UTF-8 leaves the arena at offset 150. With pages of 4096 bytes the next string can be
      begun there, and has room for 72 bytes less. */
  lemma RoomAfterInvalidString()
    ensures CanBuild(4096, Address(0, 150)) && RoomOf(4096, 150) == 3895 == RoomOf(4096, METADATA_SIZE) - 72
  {
    hide Outgrown;
    assert BufferStart(150) == 200;
    EarlyCapacities(4096 - METADATA_SIZE - 200);
    OutgrownStep(3196, 4096 - METADATA_SIZE - 200);
  }

  /** At offset 776 a capacity falls between the two ends of the block. */
  lemma CapacityBetweenEnds()
    ensures !CanBuild(4096, Address(0, 776))
  {
    hide Outgrown;
    assert BufferStart(776) == 824;
    EarlyCapacities(4096 - METADATA_SIZE - 824);
    OutgrownEnds(3196, 4096 - METADATA_SIZE - 824);
  }

  lemma OutgrownEnds(capacity: nat, limit: nat)
    requires limit <= capacity
    ensures Outgrown(capacity, limit) == capacity
  {
  }

  // ---------------------------------------------------------------------------------------------
  //  A string in the making
  // ---------------------------------------------------------------------------------------------

  /** The place at which an arena stands */
  function Place(scratch: GrowingArena): Address
    reads scratch
  {
    Address(scratch.current, scratch.offset)
  }

  /** The arena stands at a place where a string can be built: as it is created, as it is after every scope that has
      been ended, and inside of open ones. */
  ghost predicate IsUnused(scratch: GrowingArena, home: Address)
    reads scratch
  {
    && scratch.Valid() && Place(scratch) == home
    && |scratch.blocks[home.block]| == scratch.defaultBlockSize && CanBuild(scratch.defaultBlockSize, home)
  }

  /** The scratch arena of a new thread */
  method NewScratch(pageSize: nat) returns (scratch: GrowingArena)
    requires IsPageSize(pageSize)
    ensures fresh(scratch) && Place(scratch) == FIRST_PLACE && IsUnused(scratch, FIRST_PLACE)
    ensures scratch.defaultBlockSize == pageSize
  {
    hide Outgrown, CanBuild;
    PagesAreOutgrown(pageSize);
    scratch := new GrowingArena(SCRATCH_SIZE, pageSize);
  }

  /** Where the marker of a string is */
  function MarkerOf(home: Address): Address {
    Address(home.block, AlignUp(home.offset, POINTER_ALIGNMENT))
  }

  /** The builder of a string, and the marker that leads back to where the arena stood */
  ghost predicate IsInUse(scratch: GrowingArena, sb: GrowingBuilder, home: Address): (r: bool)
    reads scratch, sb
    ensures r ==> sb.arena == scratch && sb.Valid()
  {
    && sb.arena == scratch && sb.Valid() && sb.IsConfined()
    && sb.buffer == Address(home.block, BufferStart(home.offset))
    && CanBuild(scratch.defaultBlockSize, home)
    && sb.length <= RoomOf(scratch.defaultBlockSize, home.offset)
    && HasMarker(scratch.blocks[home.block], home)
  }

  predicate HasMarker(block: Text, home: Address) {
    && home.block < WORD_LIMIT && home.offset < WORD_LIMIT
    && MarkerOf(home).offset + MARKER_SIZE <= |block|
    && IsMarker(block, MarkerOf(home).offset, home.block, home.offset)
  }

  /** alok_arena_get_scratch */
  method BeginScratch(scratch: GrowingArena, ghost home: Address) returns (marker: Address)
    requires IsUnused(scratch, home)
    modifies scratch
    ensures scratch.Valid()
    ensures marker == MarkerOf(home) && Place(scratch) == Address(home.block, marker.offset + MARKER_SIZE)
    ensures |scratch.blocks[home.block]| == scratch.defaultBlockSize && HasMarker(scratch.blocks[home.block], home)
  {
    hide Outgrown;
    scratch.FittingStaysInside(MARKER_SIZE, POINTER_ALIGNMENT);
    var ptr := scratch.BeginTemp();
    marker := ptr.value;
    MarkerIsReadBack(scratch.blocks[home.block], marker.offset, home.block, home.offset);
  }

  /** alok_arena_get_scratch and sb_new */
  method GetScratch(scratch: GrowingArena, ghost home: Address) returns (marker: Address, sb: GrowingBuilder)
    requires IsUnused(scratch, home)
    modifies scratch
    ensures fresh(sb) && IsInUse(scratch, sb, home) && sb.Contents() == [] && marker == MarkerOf(home)
  {
    hide Outgrown, IsMarker, AlignUp, NulFree;
    marker := BeginScratch(scratch, home);
    ghost var before := scratch.blocks[home.block];
    AlignedStart(home.offset);
    var builder := NewBuilder(WANTED_CAPACITY, scratch);
    sb := builder;
    MarkerInPrefix(before, scratch.blocks[home.block], home, marker.offset + MARKER_SIZE);
  }

  lemma AlignedStart(offset: nat)
    ensures var end := AlignUp(offset, POINTER_ALIGNMENT) + MARKER_SIZE;
            AlignUp(end, POINTER_ALIGNMENT) + BUILDER_SIZE == BufferStart(offset)
    ensures InitialCapacity(WANTED_CAPACITY, 0) == FIRST_CAPACITY
  {
  }

  lemma MarkerInPrefix(s: Text, t: Text, home: Address, n: nat)
    requires MarkerOf(home).offset + MARKER_SIZE <= n <= |s| && n <= |t| && s[..n] == t[..n]
    ensures HasMarker(s, home) <==> HasMarker(t, home)
  {
    hide AlignUp;
    var p := MarkerOf(home).offset;
    var q := p + WORD_SIZE;
    SamePrefix(s, t, n, p, q);
    SamePrefix(s, t, n, q, q + WORD_SIZE);
    SamePrefix(s, t, n, p, p + STALE_FLAG);
  }

  /** sb_append_char on the builder of a string: false exactly when there is no place for the byte and a terminator
      in the block. */
  method AppendChar(scratch: GrowingArena, sb: GrowingBuilder, c: Byte, ghost home: Address) returns (ok: bool)
    requires IsInUse(scratch, sb, home)
    modifies sb, scratch
    ensures ok <==> c == NUL || |old(sb.Contents())| < RoomOf(scratch.defaultBlockSize, home.offset)
    ensures ok ==>
              && IsInUse(scratch, sb, home)
              && sb.Contents() == if c != NUL then old(sb.Contents()) + [c] else old(sb.Contents())
  {
    hide AlignUp, Outgrown, IsMarker;
    ghost var before := scratch.blocks[home.block];
    ok := sb.AppendChar(c);
    if ok {
      MarkerInPrefix(before, scratch.blocks[home.block], home, BufferStart(home.offset));
    }
  }

  /** alok_arena_release_scratch */
  method ReleaseScratch(scratch: GrowingArena, marker: Address, ghost sb: GrowingBuilder, ghost home: Address)
    requires IsInUse(scratch, sb, home) && marker == MarkerOf(home)
    modifies scratch
    ensures IsUnused(scratch, home)
  {
    hide Outgrown, NulFree;
    scratch.EndTemp(marker);
  }

  lemma InUseHasRoom(scratch: GrowingArena, sb: GrowingBuilder, home: Address)
    requires IsInUse(scratch, sb, home)
    ensures BufferStart(home.offset) < scratch.defaultBlockSize
    ensures |sb.Contents()| <= RoomOf(scratch.defaultBlockSize, home.offset)
  {
  }

  /** As long as it is not released, the arena is not unused. */
  lemma InUseIsNotUnused(scratch: GrowingArena, sb: GrowingBuilder, home: Address)
    requires IsInUse(scratch, sb, home)
    ensures !IsUnused(scratch, home)
  {
  }
}
