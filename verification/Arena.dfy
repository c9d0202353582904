/** The fixed-size arena of allocator.c (auto_grow false): one block, a bump offset and nested markers. */
module Arenas {
  import opened Bits
  import opened Bytes
  import opened Memory
  import opened Wrappers
  import Collections

  /** sizeof(BlockHeader) + sizeof(AlokArena) + sizeof(AllocatorHeader) on a 64-bit target */
  const METADATA_SIZE: nat := 24 + 8 + 48
  const MARKER_SIZE: nat := 24
  /** The offset of is_stale in a StackMarker */
  const STALE_FLAG: nat := 16
  const POINTER_ALIGNMENT: nat := 8
  const MIN_PAGE_SIZE: nat := 4096
  /** DEFAULT_ALIGNMENT, that is alignof(max_align_t) on a 64-bit target */
  const DEFAULT_ALIGNMENT: nat := 16

  /** Memory that an allocation was given, as offsets from the start of the block. */
  datatype Region = Region(start: nat, size: nat, align: nat) {
    function End(): nat {
      start + size
    }
  }

  // ---------------------------------------------------------------------------------------------
  //  Alignment
  // ---------------------------------------------------------------------------------------------

  /** The least multiple of the alignment that is not below the value. */
  function AlignUp(value: nat, alignment: nat): (r: nat)
    requires 0 < alignment
    ensures value <= r < value + alignment && r % alignment == 0
  {
    var rem := value % alignment;
    AlignedRemainder(value, alignment);
    if rem == 0 then value else value + (alignment - rem)
  }

  lemma AlignedRemainder(value: nat, a: nat)
    requires 0 < a
    ensures value % a < a
    ensures (value + (a - value % a)) % a == 0
  {
    var q := value / a;
    assert value + (a - value % a) == (q + 1) * a;
    DivUnique(value + (a - value % a), a, q + 1, 0);
  }

  /** alok_align_up: the mask expression of the source is AlignUp, as long as nothing wraps around. */
  lemma AlignUpByMask(value: nat, alignment: nat, w: nat)
    requires IsPow2(alignment) && value + alignment <= Pow2(w)
    ensures 0 < alignment && And(value + alignment - 1, Not(alignment - 1, w)) == AlignUp(value, alignment)
  {
    InverseMaskRoundsDown(value + alignment - 1, alignment, w);
    RemainderBelow(value, alignment);
  }

  lemma RemainderBelow(value: nat, a: nat)
    requires 0 < a
    ensures (value + a - 1) % a == if value % a == 0 then a - 1 else value % a - 1
  {
    var q, rem := value / a, value % a;
    assert value == q * a + rem;
    if rem == 0 {
      DivUnique(value + a - 1, a, q, a - 1);
    } else {
      assert (q + 1) * a == q * a + a;
      DivUnique(value + a - 1, a, q + 1, rem - 1);
    }
  }

  /** round_up_to_power_of_two: no power of two between the request and the result */
  function RoundUpToPow2(x: nat): (r: nat)
    ensures IsPow2(r) && 0 < r && x <= r
    ensures x <= 1 ==> r == 1
    ensures 1 < x ==> r < 2 * x
  {
    if x <= 1 then
      assert Pow2(0) == 1; 1
    else
      BitLengthBounds(x - 1);
      Pow2(BitLength(x - 1))
  }

  lemma RoundUpIsLeast(x: nat)
    ensures Collections.IsLeastPow2AtLeast(RoundUpToPow2(x), x)
  {
    hide RoundUpToPow2;
    var r := RoundUpToPow2(x);
    forall p | IsPow2(p) && x <= p
      ensures r <= p
    {
      SmallerPow2Divides(p, r);
    }
  }

  /** Of two powers of two the smaller one divides the other, which is at least twice as large if they differ. */
  lemma SmallerPow2Divides(p: nat, r: nat)
    requires IsPow2(p) && IsPow2(r)
    ensures 0 < p && 0 < r
    ensures p <= r ==> r % p == 0
    ensures p < r ==> 2 * p <= r
  {
    var m: nat, n: nat :| Pow2(m) == p && Pow2(n) == r;
    if m <= n {
      Pow2Sum(m, n - m);
      Pow2Grows(m, n);
      DivUnique(r, p, Pow2(n - m), 0);
    } else {
      Pow2Grows(n, m);
    }
  }

  /** A multiple of a power of two is a multiple of all smaller ones. */
  lemma AlignedToSmaller(ptr: nat, a: nat)
    requires IsPow2(a) && 0 < a && ptr % a == 0
    ensures forall p: nat :: IsPow2(p) && 0 < p <= a ==> ptr % p == 0
  {
    forall p: nat | IsPow2(p) && 0 < p <= a
      ensures ptr % p == 0
    {
      SmallerPow2Divides(p, a);
      MultipleOfMultiple(ptr, a, p);
    }
  }

  lemma MultipleOfMultiple(n: nat, a: nat, p: nat)
    requires 0 < a && 0 < p && n % a == 0 && a % p == 0
    ensures n % p == 0
  {
    var q, k := n / a, a / p;
    assert n == q * a && a == k * p;
    assert n == (q * k) * p;
    DivUnique(n, p, q * k, 0);
  }

  // ---------------------------------------------------------------------------------------------
  //  Markers
  // ---------------------------------------------------------------------------------------------

  /** StackMarker: the block, the offset, and a flag that is false, with its padding. */
  function MarkerBytes(block: Word, offset: Word): (b: Text)
    ensures |b| == MARKER_SIZE
  {
    Encode(block) + Encode(offset) + Repeat(NUL, WORD_SIZE)
  }

  /** The memory holds a marker that is not stale. */
  predicate IsMarker(memory: Text, p: nat, block: Word, offset: Word)
    requires p + MARKER_SIZE <= |memory|
  {
    && WordAt(memory, p) == block
    && WordAt(memory, p + WORD_SIZE) == offset
    && memory[p + STALE_FLAG] == NUL
  }

  /** A marker is in its 24 bytes, whatever happens to the others. */
  lemma MarkerIsReadBack(memory: Text, p: nat, block: Word, offset: Word)
    requires p + MARKER_SIZE <= |memory| && memory[p..p + MARKER_SIZE] == MarkerBytes(block, offset)
    ensures IsMarker(memory, p, block, offset)
  {
    var b := MarkerBytes(block, offset);
    SliceOfSlice(memory, p, p + MARKER_SIZE, 0, WORD_SIZE);
    SliceOfSlice(memory, p, p + MARKER_SIZE, WORD_SIZE, STALE_FLAG);
    assert b[0..WORD_SIZE] == Encode(block) && b[WORD_SIZE..STALE_FLAG] == Encode(offset);
    WordIsReadBack(memory, p, block);
    WordIsReadBack(memory, p + WORD_SIZE, offset);
    assert memory[p + STALE_FLAG] == memory[p..p + MARKER_SIZE][STALE_FLAG] == b[STALE_FLAG];
  }

  /** A marker of zeros leads to the null pointer. */
  lemma ZerosAreMarker(memory: Text, p: nat)
    requires p + MARKER_SIZE <= |memory| && forall i :: p <= i <= p + STALE_FLAG ==> memory[i] == NUL
    ensures IsMarker(memory, p, NULL, 0)
  {
    ValueIsZero(memory[p..p + WORD_SIZE]);
    ValueIsZero(memory[p + WORD_SIZE..p + WORD_SIZE + WORD_SIZE]);
  }

  // ---------------------------------------------------------------------------------------------
  //  The arena
  // ---------------------------------------------------------------------------------------------

  /** A scope that has been begun: where its marker is, the offset that it records, and the allocations that were
      live when it was taken. */
  datatype OpenScope = OpenScope(marker: nat, offset: nat, live: seq<Region>)

  /** Regions one after the other between two offsets, each aligned as requested. */
  ghost predicate Ordered(live: seq<Region>, from: nat, to: nat) {
    && from <= to
    && (forall i :: 0 <= i < |live| ==>
          from <= live[i].start && live[i].End() <= to && IsPow2(live[i].align) && live[i].start % live[i].align == 0)
    && (forall i, j :: 0 <= i < j < |live| ==> live[i].End() <= live[j].start)
  }

  /** What holds of a scope that has not been ended yet: it splits the live allocations at its offset. */
  ghost predicate Splits(m: OpenScope, live: seq<Region>, offset: nat) {
    && m.live <= live
    && Ordered(m.live, METADATA_SIZE, m.offset)
    && Ordered(live[|m.live|..], m.offset, offset)
  }

  /** Every scope splits the live allocations, and those of the scopes inside it. */
  ghost predicate IsNested(scopes: seq<OpenScope>, live: seq<Region>, offset: nat) {
    && (forall i :: 0 <= i < |scopes| ==> Splits(scopes[i], live, offset))
    && (forall i, j :: 0 <= i < j < |scopes| ==> Splits(scopes[i], scopes[j].live, scopes[j].offset))
  }

  lemma NestedLonger(scopes: seq<OpenScope>, live: seq<Region>, offset: nat, r: Region, end: nat)
    requires IsNested(scopes, live, offset)
    requires offset <= r.start && r.End() <= end && IsPow2(r.align) && r.start % r.align == 0
    ensures IsNested(scopes, live + [r], end)
  {
    forall i | 0 <= i < |scopes|
      ensures Splits(scopes[i], live + [r], end)
    {
      SplitsLonger(scopes[i], live, offset, r, end);
    }
  }

  /** A scope may be begun before any allocation. */
  lemma NestedDeeper(scopes: seq<OpenScope>, live: seq<Region>, offset: nat, marker: nat, r: Region, end: nat)
    requires IsNested(scopes, live, offset) && IsNested(scopes, live + [r], end)
    requires Ordered(live, METADATA_SIZE, offset) && Ordered([r], offset, end)
    ensures IsNested(scopes + [OpenScope(marker, offset, live)], live + [r], end)
  {
    assert (live + [r])[|live|..] == [r];
  }

  class Arena {
    /** The block, and its address. */
    const mem: array<Byte>
    const origin: Word
    const usable: nat
    const defaultAlignment: nat
    var currentBlock: Word
    var offset: nat
    ghost var live: seq<Region>
    ghost var scopes: seq<OpenScope>

    ghost predicate Valid()
      reads this
    {
      && usable + METADATA_SIZE == mem.Length < WORD_LIMIT
      && currentBlock == origin != NULL
      && offset <= usable
      && IsPow2(defaultAlignment)
      && Ordered(live, METADATA_SIZE, offset)
      && IsNested(scopes, live, offset)
    }

    /** _alok_arena_create, with the page size of the system and the address that mmap returns. The offsets start
        behind the headers, and the usable size is less by their size as well, so that twice their size is lost. */
    constructor (capacity: nat, alignment: nat, pageSize: nat, origin: Word)
      requires IsPow2(pageSize) && MIN_PAGE_SIZE <= pageSize
      requires capacity + METADATA_SIZE + pageSize <= WORD_LIMIT && origin != NULL
      ensures Valid() && live == [] && scopes == [] && offset == METADATA_SIZE && fresh(mem)
      ensures usable - offset == AlignUp(capacity + METADATA_SIZE, pageSize) - 2 * METADATA_SIZE
      ensures Collections.IsLeastPow2AtLeast(defaultAlignment, if alignment == 0 then 16 else alignment)
      ensures forall i :: 0 <= i < mem.Length ==> mem[i] == 0
    {
      var size := AlignUp(capacity + METADATA_SIZE, pageSize);
      if size < pageSize {
        SmallMultiple(size, pageSize);
      }
      mem := new Byte[size](_ => 0);
      usable := size - METADATA_SIZE;
      RoundUpIsLeast(if alignment == 0 then DEFAULT_ALIGNMENT else alignment);
      assert BitLength(15) == 4;
      defaultAlignment := if alignment == 0 then DEFAULT_ALIGNMENT else RoundUpToPow2(alignment);
      this.origin, currentBlock, offset := origin, origin, METADATA_SIZE;
      live, scopes := [], [];
    }

    function Alignment(request: nat): (a: nat)
      ensures 0 < request ==> IsPow2(a)
    {
      if request == 0 then defaultAlignment else RoundUpToPow2(request)
    }

    /** _alok_arena_alloc and pvt_alok_arena_alloc_impl: the memory is zeroed, padding included. The pointer is a
        multiple of every power of two up to the requested alignment, and up to that of the arena if none is. */
    method Alloc(size: nat, alignment: nat) returns (ptr: Option<nat>)
      requires Valid()
      modifies this`offset, this`live, mem
      ensures Valid() && scopes == old(scopes)
      ensures 0 < Alignment(alignment)
      ensures alignment == 0 ==> Alignment(alignment) == defaultAlignment
      ensures 0 < alignment ==> Collections.IsLeastPow2AtLeast(Alignment(alignment), alignment)
      ensures ptr.Some? ==> forall p: nat :: IsPow2(p) && 0 < p <= Alignment(alignment) ==> ptr.value % p == 0
      ensures var start := AlignUp(old(offset), Alignment(alignment));
              if start + size <= usable then
                && ptr == Some(start)
                && offset == start + size
                && live == old(live) + [Region(start, size, Alignment(alignment))]
                && (forall i :: 0 <= i < old(offset) || offset <= i < mem.Length ==> mem[i] == old(mem[i]))
                && (forall i :: old(offset) <= i < offset ==> mem[i] == 0)
              else
                && ptr == None
                && offset == old(offset) && live == old(live)
                && (forall i :: 0 <= i < mem.Length ==> mem[i] == old(mem[i]))
    {
      var align := Alignment(alignment);
      RoundUpIsLeast(alignment);
      var aligned := AlignUp(offset, align);
      AlignedToSmaller(aligned, align);
      if usable < aligned + size {
        return None;
      }
      forall i | offset <= i < aligned + size {
        mem[i] := 0;
      }
      ptr := Some(aligned);
      live := live + [Region(aligned, size, align)];
      offset := aligned + size;
      NestedLonger(scopes, old(live), old(offset), Region(aligned, size, align), offset);
    }

    /** Whether a marker still fits; alok_arena_marker does not survive a failed allocation of its own. */
    predicate HasRoomForMarker()
      reads this
    {
      AlignUp(offset, POINTER_ALIGNMENT) + MARKER_SIZE <= usable
    }

    /** memcpy into the block */
    method Store(p: nat, bytes: Text)
      requires p + |bytes| <= mem.Length
      modifies mem
      ensures mem[p..p + |bytes|] == bytes
      ensures forall i :: 0 <= i < mem.Length && !(p <= i < p + |bytes|) ==> mem[i] == old(mem[i])
    {
      forall i | 0 <= i < |bytes| {
        mem[p + i] := bytes[i];
      }
    }

    /** alok_arena_begin_temp: the marker itself lives in the arena, above the offset that it records. */
    method BeginTemp() returns (marker: nat)
      requires Valid() && HasRoomForMarker()
      modifies `offset, `live, `scopes, mem
      ensures Valid() && marker == AlignUp(old(offset), POINTER_ALIGNMENT) && offset == marker + MARKER_SIZE
      ensures mem[marker..marker + MARKER_SIZE] == MarkerBytes(origin, old(offset))
      ensures scopes == old(scopes) + [OpenScope(marker, old(offset), old(live))]
      ensures old(live) <= live
      ensures forall i :: 0 <= i < old(offset) ==> mem[i] == old(mem[i])
    {
      hide IsNested, AlignUp, Encode;
      EightIsPow2();
      ghost var before, top := live, offset;
      var bytes := MarkerBytes(currentBlock, offset);
      var ptr := Alloc(MARKER_SIZE, POINTER_ALIGNMENT);
      marker := ptr.value;
      Store(marker, bytes);
      NestedDeeper(scopes, before, top, marker, Region(marker, MARKER_SIZE, POINTER_ALIGNMENT), offset);
      scopes := scopes + [OpenScope(marker, top, before)];
    }

    /** The marker belongs to the scope that was begun last, and nobody has written over it. */
    ghost predicate IsInnermost(marker: nat)
      requires marker + MARKER_SIZE <= mem.Length
      reads this, mem
    {
      && scopes != []
      && var scope := scopes[|scopes| - 1];
      && scope.marker == marker && scope.offset < WORD_LIMIT
      && IsMarker(mem[..], marker, origin, scope.offset)
    }

    /** alok_arena_end_temp and alok_arena_pop_to_marker: whatever the bytes of the marker now say is done. */
    method EndTemp(marker: nat)
      requires marker + MARKER_SIZE <= mem.Length
      modifies this, mem
      ensures old(mem[marker + STALE_FLAG]) != NUL ==>
                && currentBlock == old(currentBlock) && offset == old(offset)
                && live == old(live) && scopes == old(scopes) && mem[..] == old(mem[..])
      ensures old(mem[marker + STALE_FLAG]) == NUL ==>
                && currentBlock == WordAt(old(mem[..]), marker)
                && offset == WordAt(old(mem[..]), marker + WORD_SIZE)
                && mem[..] == old(mem[..])[marker + STALE_FLAG := 1]
      ensures old(Valid() && IsInnermost(marker)) ==>
                var n := |old(scopes)| - 1;
                && Valid()
                && offset == old(scopes)[n].offset && live == old(scopes)[n].live && scopes == old(scopes)[..n]
    {
      if mem[marker + STALE_FLAG] != NUL {
        return;
      }
      currentBlock, offset := WordAt(mem[..], marker), WordAt(mem[..], marker + WORD_SIZE);
      mem[marker + STALE_FLAG] := 1;
      if scopes != [] {
        live, scopes := scopes[|scopes| - 1].live, scopes[..|scopes| - 1];
      }
    }

    /** alok_arena_top_pointer */
    function TopPointer(): nat
      reads this
    {
      offset
    }

    /** Live allocations are inside the block and do not overlap. */
    lemma LiveRegionsAreDisjoint(i: nat, j: nat, p: nat)
      requires Valid() && i < |live| && j < |live|
      requires live[i].start <= p < live[i].End() && live[j].start <= p < live[j].End()
      ensures i == j && METADATA_SIZE <= p < usable
    {
    }
  }

  /** The room of a new arena covers the request exactly if the padding of the block makes up for the headers that
      are subtracted twice. */
  lemma RoomCoversRequest(capacity: nat, pageSize: nat)
    requires IsPow2(pageSize) && MIN_PAGE_SIZE <= pageSize
    ensures var rem := (capacity + METADATA_SIZE) % pageSize;
            capacity <= AlignUp(capacity + METADATA_SIZE, pageSize) - 2 * METADATA_SIZE
            <==> 0 < rem <= pageSize - METADATA_SIZE
  {
  }

  /** With pages of 4096 bytes, an arena for 4016 bytes gives out 3936. */
  lemma RoomIsSmallerThanRequest()
    ensures AlignUp(4016 + METADATA_SIZE, 4096) - 2 * METADATA_SIZE == 3936
  {
  }

  lemma SmallMultiple(size: nat, page: nat)
    requires 0 < size < page
    ensures size % page != 0
  {
    DivUnique(size, page, 0, size);
  }

  lemma EightIsPow2()
    ensures RoundUpToPow2(POINTER_ALIGNMENT) == POINTER_ALIGNMENT
  {
    assert BitLength(7) == 3;
  }

  lemma SplitsLonger(m: OpenScope, live: seq<Region>, offset: nat, r: Region, end: nat)
    requires Splits(m, live, offset)
    requires offset <= r.start && r.End() <= end && IsPow2(r.align) && r.start % r.align == 0
    ensures Splits(m, live + [r], end)
  {
    assert (live + [r])[|m.live|..] == live[|m.live|..] + [r];
  }

  // ---------------------------------------------------------------------------------------------
  //  Runs
  // ---------------------------------------------------------------------------------------------

  datatype ArenaOp = Allocate(size: nat, alignment: nat) | Scope(body: seq<ArenaOp>)

  /** Any run of allocations and properly nested scopes: what was live stays live and untouched, and no scope
      is left open. */
  method Execute(arena: Arena, ops: seq<ArenaOp>)
    requires arena.Valid()
    modifies arena, arena.mem
    ensures arena.Valid() && arena.scopes == old(arena.scopes)
    ensures old(arena.live) <= arena.live && old(arena.offset) <= arena.offset
    ensures forall i :: 0 <= i < old(arena.offset) ==> arena.mem[i] == old(arena.mem[i])
    decreases ops, 0
  {
    var i := 0;
    while i < |ops|
      invariant 0 <= i <= |ops|
      invariant arena.Valid() && arena.scopes == old(arena.scopes)
      invariant old(arena.live) <= arena.live && old(arena.offset) <= arena.offset
      invariant forall i :: 0 <= i < old(arena.offset) ==> arena.mem[i] == old(arena.mem[i])
    {
      match ops[i] {
        case Allocate(size, alignment) =>
          var ptr := arena.Alloc(size, alignment);
        case Scope(body) =>
          if arena.HasRoomForMarker() {
            var marker := ExecuteScope(arena, body);
          }
      }
      i := i + 1;
    }
  }

  /** Ending a scope restores exactly the allocations and the offset at its start, whatever ran inside it. */
  method ExecuteScope(arena: Arena, body: seq<ArenaOp>) returns (marker: nat)
    requires arena.Valid() && arena.HasRoomForMarker()
    modifies arena, arena.mem
    ensures arena.Valid() && arena.scopes == old(arena.scopes)
    ensures marker == AlignUp(old(arena.offset), POINTER_ALIGNMENT) && marker + MARKER_SIZE <= arena.usable
    ensures arena.mem[marker + 16] == 1
    ensures arena.live == old(arena.live) && arena.offset == old(arena.offset)
    ensures forall i :: 0 <= i < old(arena.offset) ==> arena.mem[i] == old(arena.mem[i])
    decreases body, 1
  {
    ghost var start := arena.offset;
    marker := arena.BeginTemp();
    ghost var before := arena.mem[marker..marker + MARKER_SIZE];
    Execute(arena, body);
    assert arena.mem[..][marker..marker + MARKER_SIZE] == before;
    MarkerIsReadBack(arena.mem[..], marker, arena.origin, start);
    arena.EndTemp(marker);
  }

  // ---------------------------------------------------------------------------------------------
  //  A scope that is ended twice
  // ---------------------------------------------------------------------------------------------

  datatype Request = Request(size: nat, alignment: nat)

  /** Allocations clear the memory up to the new top and nothing above it. */
  method AllocateAll(arena: Arena, requests: seq<Request>)
    requires arena.Valid()
    modifies arena`offset, arena`live, arena.mem
    ensures arena.Valid() && old(arena.offset) <= arena.offset
    ensures forall i :: old(arena.offset) <= i < arena.offset ==> arena.mem[i] == NUL
    ensures forall i :: arena.offset <= i < arena.mem.Length ==> arena.mem[i] == old(arena.mem[i])
  {
    var i := 0;
    while i < |requests|
      invariant i <= |requests| && arena.Valid() && old(arena.offset) <= arena.offset
      invariant forall i :: old(arena.offset) <= i < arena.offset ==> arena.mem[i] == NUL
      invariant forall i :: arena.offset <= i < arena.mem.Length ==> arena.mem[i] == old(arena.mem[i])
    {
      var ptr := arena.Alloc(requests[i].size, requests[i].alignment);
      i := i + 1;
    }
  }

  /** The second end of a scope does nothing exactly if the allocations since the first one have not reached the
      flag in its marker. Otherwise they have cleared the marker, and the arena is left without a block. */
  method EndTwice(arena: Arena, body: seq<ArenaOp>, later: seq<Request>) returns (marker: nat, top: nat)
    requires arena.Valid() && arena.HasRoomForMarker()
    modifies arena, arena.mem
    ensures marker == AlignUp(old(arena.offset), POINTER_ALIGNMENT) && old(arena.offset) <= top
    ensures if top <= marker + 16 then arena.Valid() && arena.offset == top
            else arena.currentBlock == NULL && arena.offset == 0
  {
    marker := ExecuteScope(arena, body);
    AllocateAll(arena, later);
    top := arena.offset;
    if marker + STALE_FLAG < top {
      ZerosAreMarker(arena.mem[..], marker);
    }
    arena.EndTemp(marker);
  }

  /** One small allocation is enough. */
  method EndAfterAllocation(arena: Arena)
    requires arena.Valid() && arena.HasRoomForMarker()
    requires AlignUp(arena.offset, POINTER_ALIGNMENT) + 64 <= arena.usable
    modifies arena, arena.mem
    ensures arena.currentBlock == NULL && arena.offset == 0
  {
    EightIsPow2();
    var marker := ExecuteScope(arena, []);
    var ptr := arena.Alloc(64, POINTER_ALIGNMENT);
    ZerosAreMarker(arena.mem[..], marker);
    arena.EndTemp(marker);
  }
}
