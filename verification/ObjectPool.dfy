/** The pool allocator of allocator.c: slots of one size in a block of memory. The free ones are linked through their
    own first eight bytes, however small the slots are. */
module ObjectPools {
  import opened Arenas
  import opened Bits
  import opened Bytes
  import opened Memory

  /** The slots of a sequence, as a set */
  ghost function SlotsOf(free: seq<nat>): set<nat> {
    set i | i in free
  }

  ghost function AllSlots(n: nat): (r: set<nat>)
    ensures |r| == n && forall i: nat :: i in r <==> i < n
  {
    if n == 0 then {} else AllSlots(n - 1) + {n - 1}
  }

  ghost predicate IsDistinct(free: seq<nat>) {
    forall j, k :: 0 <= j < k < |free| ==> free[j] != free[k]
  }

  lemma PushDistinct(free: seq<nat>, slot: nat)
    requires IsDistinct(free) && slot !in SlotsOf(free)
    ensures IsDistinct([slot] + free) && SlotsOf([slot] + free) == SlotsOf(free) + {slot}
  {
    var more := [slot] + free;
    forall j, k | 0 <= j < k < |more| ensures more[j] != more[k] {
      assert more[k] == free[k - 1] && free[k - 1] in SlotsOf(free);
    }
    assert forall i :: i in SlotsOf(more) <==> i == slot || i in SlotsOf(free);
  }

  /** The free list is duplicate-free, and free and live slots partition the n slots. */
  ghost predicate IsPartition(free: seq<nat>, live: set<nat>, n: nat) {
    && IsDistinct(free)
    && SlotsOf(free) !! live && SlotsOf(free) + live == AllSlots(n)
  }

  lemma PopSlot(free: seq<nat>, live: set<nat>, n: nat)
    requires IsPartition(free, live, n) && free != []
    ensures IsPartition(free[1..], live + {free[0]}, n) && free[0] !in live
  {
    assert SlotsOf(free) == SlotsOf(free[1..]) + {free[0]};
  }

  lemma PushSlot(free: seq<nat>, live: set<nat>, n: nat, slot: nat)
    requires IsPartition(free, live, n) && slot in live
    ensures IsPartition([slot] + free, live - {slot}, n) && slot < n && slot !in free
  {
    hide AllSlots, IsDistinct;
    assert slot in SlotsOf(free) + live;
    PushDistinct(free, slot);
    assert SlotsOf([slot] + free) + (live - {slot}) == SlotsOf(free) + live;
  }

  /** No slot is lost and none is counted twice. */
  lemma {:induction false} CountSlots(free: seq<nat>, live: set<nat>, n: nat)
    requires IsPartition(free, live, n)
    ensures |live| + |free| == n
    decreases free
  {
    if free == [] {
      assert SlotsOf(free) == {};
    } else {
      PopSlot(free, live, n);
      CountSlots(free[1..], live + {free[0]}, n);
    }
  }

  // ---------------------------------------------------------------------------------------------
  //  Links in memory
  // ---------------------------------------------------------------------------------------------

  /** Where a slot starts in the memory of the pool. */
  function SlotStart(slot: nat, slotSize: nat): nat {
    slot * slotSize
  }

  lemma SlotsApart(j: nat, k: nat, slotSize: nat)
    requires j < k
    ensures SlotStart(j, slotSize) + slotSize <= SlotStart(k, slotSize)
  {
    MulLe(j + 1, k, slotSize);
  }

  /** The address of the first slot of a list, or the null pointer. */
  function Head(free: seq<nat>, origin: nat, slotSize: nat): nat {
    if free == [] then NULL else origin + SlotStart(free[0], slotSize)
  }

  /** The linked list that starts at an address leads through exactly these slots, and ends. */
  ghost predicate IsFreeList(memory: Text, origin: nat, slotSize: nat, list: nat, free: seq<nat>) {
    && list == Head(free, origin, slotSize)
    && forall j :: 0 <= j < |free| ==> IsLink(memory, origin, slotSize, free[j], free[j + 1..])
  }

  /** The first word of a slot leads to the first of the slots that follow. */
  predicate IsLink(memory: Text, origin: nat, slotSize: nat, slot: nat, rest: seq<nat>) {
    && SlotStart(slot, slotSize) + WORD_SIZE <= |memory|
    && WordAt(memory, SlotStart(slot, slotSize)) == Head(rest, origin, slotSize)
  }

  /** What alok_pool_create writes: one link after the other. */
  function Links(memory: Text, origin: nat, slotSize: nat, n: nat): (r: Text)
    requires LinksAreInside(|memory|, slotSize, n) && origin + |memory| <= WORD_LIMIT
    ensures |r| == |memory|
  {
    if n == 0 then memory
    else
      SlotsAreInside(|memory|, slotSize, n);
      Splice(Links(memory, origin, slotSize, n - 1), SlotStart(n - 1, slotSize),
             Encode(Head(Descending(n - 1), origin, slotSize)))
  }

  /** The link in the last slot does not leave the memory. */
  predicate LinksAreInside(size: nat, slotSize: nat, n: nat) {
    n == 0 || SlotStart(n - 1, slotSize) + WORD_SIZE <= size
  }

  lemma SlotsAreInside(size: nat, slotSize: nat, n: nat)
    requires LinksAreInside(size, slotSize, n) && 0 < n
    ensures LinksAreInside(size, slotSize, n - 1)
  {
    if 1 < n {
      SlotsApart(n - 2, n - 1, slotSize);
    }
  }

  /** The free list of a new pool: the last slot is the first to be given out. */
  function Descending(n: nat): (r: seq<nat>)
    ensures |r| == n && forall j :: 0 <= j < n ==> r[j] == n - 1 - j
  {
    if n == 0 then [] else [n - 1] + Descending(n - 1)
  }

  /** The slots are large enough for their links, or there is only one. */
  predicate HoldsLinks(slotSize: nat, n: nat) {
    WORD_SIZE <= slotSize || n <= 1
  }

  /** A link is in its eight bytes, whatever happens to the others. */
  lemma LinkKept(s: Text, t: Text, origin: nat, slotSize: nat, slot: nat, rest: seq<nat>)
    requires IsLink(s, origin, slotSize, slot, rest) && |s| == |t|
    requires forall i :: SlotStart(slot, slotSize) <= i < SlotStart(slot, slotSize) + WORD_SIZE ==> s[i] == t[i]
    ensures IsLink(t, origin, slotSize, slot, rest)
  {
    var a := SlotStart(slot, slotSize);
    assert s[a..a + WORD_SIZE] == t[a..a + WORD_SIZE];
  }

  /** A slot that is not in the list is put in front of it. */
  lemma Linked(memory: Text, origin: nat, slotSize: nat, list: Word, free: seq<nat>, slot: nat, n: nat)
    requires IsFreeList(memory, origin, slotSize, list, free) && slot !in free
    requires slot < n && (forall j :: 0 <= j < |free| ==> free[j] < n) && HoldsLinks(slotSize, n)
    requires SlotsFit(|memory|, slotSize, n) && SlotStart(slot, slotSize) + WORD_SIZE <= |memory|
    ensures var r := Splice(memory, SlotStart(slot, slotSize), Encode(list));
            IsFreeList(r, origin, slotSize, Head([slot] + free, origin, slotSize), [slot] + free)
  {
    hide IsLink, SlotStart;
    var r, more := Splice(memory, SlotStart(slot, slotSize), Encode(list)), [slot] + free;
    forall j | 0 <= j < |more|
      ensures IsLink(r, origin, slotSize, more[j], more[j + 1..])
    {
      if j == 0 {
        assert more[1..] == free;
        NewLink(memory, origin, slotSize, list, free, slot);
      } else {
        assert more[j] == free[j - 1] && more[j + 1..] == free[j..];
        SlotFits(|memory|, slotSize, n, free[j - 1]);
        OtherLinkKept(memory, origin, slotSize, Encode(list), slot, free[j - 1], free[j..], n);
      }
    }
  }

  lemma NewLink(memory: Text, origin: nat, slotSize: nat, list: Word, free: seq<nat>, slot: nat)
    requires SlotStart(slot, slotSize) + WORD_SIZE <= |memory| && list == Head(free, origin, slotSize)
    ensures IsLink(Splice(memory, SlotStart(slot, slotSize), Encode(list)), origin, slotSize, slot, free)
  {
    hide SlotStart, Encode, Head;
    var a := SlotStart(slot, slotSize);
    var r := Splice(memory, a, Encode(list));
    assert r[a..a + WORD_SIZE] == Encode(list);
    WordIsReadBack(r, a, list);
  }

  /** Bytes that go into a slot, or a link, leave the other slots alone. */
  lemma OtherSlotKept(memory: Text, slotSize: nat, bytes: Text, slot: nat, other: nat, n: nat)
    requires slot != other && slot < n && other < n && HoldsLinks(slotSize, n) && |bytes| <= Max(slotSize, WORD_SIZE)
    requires SlotStart(slot, slotSize) + |bytes| <= |memory| && SlotStart(other, slotSize) + slotSize <= |memory|
    ensures var r, a := Splice(memory, SlotStart(slot, slotSize), bytes), SlotStart(other, slotSize);
            && WORD_SIZE <= slotSize
            && r[a..a + slotSize] == memory[a..a + slotSize]
            && forall i :: a <= i < a + slotSize ==> r[i] == memory[i]
  {
    hide SlotStart;
    if slot < other {
      SlotsApart(slot, other, slotSize);
    } else {
      SlotsApart(other, slot, slotSize);
    }
  }

  lemma OtherLinkKept(memory: Text, origin: nat, slotSize: nat, bytes: Text,
                      slot: nat, other: nat, rest: seq<nat>, n: nat)
    requires slot != other && slot < n && other < n && HoldsLinks(slotSize, n) && |bytes| <= Max(slotSize, WORD_SIZE)
    requires SlotStart(slot, slotSize) + |bytes| <= |memory| && SlotStart(other, slotSize) + slotSize <= |memory|
    requires IsLink(memory, origin, slotSize, other, rest)
    ensures IsLink(Splice(memory, SlotStart(slot, slotSize), bytes), origin, slotSize, other, rest)
  {
    hide SlotStart, Splice, WordAt;
    OtherSlotKept(memory, slotSize, bytes, slot, other, n);
    LinkKept(memory, Splice(memory, SlotStart(slot, slotSize), bytes), origin, slotSize, other, rest);
  }

  /** All slots but one keep their bytes. */
  ghost predicate OthersKept(before: Text, after: Text, slotSize: nat, n: nat, slot: nat) {
    && |before| == |after|
    && forall k :: 0 <= k < n && k != slot ==>
         var a := SlotStart(k, slotSize);
         a + slotSize <= |before| && before[a..a + slotSize] == after[a..a + slotSize]
  }

  lemma KeepOthers(memory: Text, slotSize: nat, n: nat, bytes: Text, slot: nat)
    requires slot < n && SlotsFit(|memory|, slotSize, n) && HoldsLinks(slotSize, n)
    requires |bytes| <= Max(slotSize, WORD_SIZE) && SlotStart(slot, slotSize) + |bytes| <= |memory|
    ensures OthersKept(memory, Splice(memory, SlotStart(slot, slotSize), bytes), slotSize, n, slot)
  {
    hide SlotStart, HoldsLinks, SlotsFit, Splice;
    var r := Splice(memory, SlotStart(slot, slotSize), bytes);
    forall k | 0 <= k < n && k != slot
      ensures var a := SlotStart(k, slotSize);
              a + slotSize <= |memory| && memory[a..a + slotSize] == r[a..a + slotSize]
    {
      SlotFits(|memory|, slotSize, n, k);
      OtherSlotKept(memory, slotSize, bytes, slot, k, n);
    }
  }

  /** Slots fit into a memory. */
  predicate SlotsFit(size: nat, slotSize: nat, n: nat) {
    SlotStart(n, slotSize) <= size && LinksAreInside(size, slotSize, n)
  }

  lemma SlotFits(size: nat, slotSize: nat, n: nat, slot: nat)
    requires SlotsFit(size, slotSize, n) && slot < n
    ensures SlotStart(slot, slotSize) + slotSize <= size && SlotStart(slot, slotSize) + WORD_SIZE <= size
  {
    SlotsApart(slot, n, slotSize);
    if slot < n - 1 {
      SlotsApart(slot, n - 1, slotSize);
    }
  }

  /** The links that a new pool gets lead through all its slots exactly if the slots are large enough for them. */
  lemma LinksLeadThroughAllSlots(memory: Text, origin: Word, slotSize: nat, n: nat)
    requires SlotsFit(|memory|, slotSize, n) && origin + |memory| <= WORD_LIMIT && origin % 0x100 != 0
    ensures IsFreeList(Links(memory, origin, slotSize, n), origin, slotSize,
                       Head(Descending(n), origin, slotSize), Descending(n))
       <==> HoldsLinks(slotSize, n)
  {
    hide Links, WordAt;
    if HoldsLinks(slotSize, n) {
      LargeSlotsAreLinked(memory, origin, slotSize, n, n);
    } else {
      var r, free := Links(memory, origin, slotSize, n), Descending(n);
      SmallSlotsOverlap(memory, origin, slotSize, n);
      assert free[n - 1] == 0 && free[n - 1 + 1..] == [] && SlotStart(0, slotSize) == 0;
      if IsLink(r, origin, slotSize, free[n - 1], free[n - 1 + 1..]) {
        NullHasZeros(r, 0, slotSize);
      }
    }
  }

  lemma NullHasZeros(memory: Text, i: nat, k: nat)
    requires i + WORD_SIZE <= |memory| && k < WORD_SIZE
    ensures WordAt(memory, i) == NULL ==> memory[i + k] == 0
  {
    var word := memory[i..i + WORD_SIZE];
    ValueIsZero(word);
    assert memory[i + k] == word[k];
  }

  lemma {:induction false} LargeSlotsAreLinked(memory: Text, origin: Word, slotSize: nat, i: nat, n: nat)
    requires SlotsFit(|memory|, slotSize, n) && LinksAreInside(|memory|, slotSize, i)
    requires origin + |memory| <= WORD_LIMIT && i <= n && HoldsLinks(slotSize, n)
    ensures IsFreeList(Links(memory, origin, slotSize, i), origin, slotSize,
                       Head(Descending(i), origin, slotSize), Descending(i))
  {
    hide IsLink, SlotStart;
    if i != 0 {
      SlotsAreInside(|memory|, slotSize, i);
      LargeSlotsAreLinked(memory, origin, slotSize, i - 1, n);
      HeadIsWord(|memory|, origin, slotSize, i - 1);
      Linked(Links(memory, origin, slotSize, i - 1), origin, slotSize, Head(Descending(i - 1), origin, slotSize),
             Descending(i - 1), i - 1, n);
    }
  }

  lemma HeadIsWord(size: nat, origin: nat, slotSize: nat, n: nat)
    requires LinksAreInside(size, slotSize, n) && origin + size <= WORD_LIMIT
    ensures Head(Descending(n), origin, slotSize) < WORD_LIMIT
  {
  }

  lemma FirstByte(w: Word)
    ensures Encode(w)[0] == w % 0x100
  {
  }

  /** In slots of less than eight bytes, the link of slot 1 lies on the one of slot 0, which should be null. */
  lemma {:induction false} SmallSlotsOverlap(memory: Text, origin: Word, slotSize: nat, n: nat)
    requires LinksAreInside(|memory|, slotSize, n) && origin + |memory| <= WORD_LIMIT
    requires slotSize < WORD_SIZE && 2 <= n
    ensures slotSize < |memory| && Links(memory, origin, slotSize, n)[slotSize] == origin % 0x100
    decreases n
  {
    SlotsAreInside(|memory|, slotSize, n);
    var before, a := Links(memory, origin, slotSize, n - 1), SlotStart(n - 1, slotSize);
    var w := Head(Descending(n - 1), origin, slotSize);
    MulLe(1, n - 1, slotSize);
    FirstByte(w);
    hide Encode;
    if n == 2 {
      assert a == slotSize && w == origin;
    } else {
      SmallSlotsOverlap(memory, origin, slotSize, n - 1);
      MulLe(2, n - 1, slotSize);
      if slotSize == 0 {
        assert SlotStart(n - 2, slotSize) == 0 && a == 0;
      }
    }
  }

  lemma {:induction false} AllSlotsAreFree(n: nat)
    ensures IsPartition(Descending(n), {}, n)
  {
    assert forall i :: i in SlotsOf(Descending(n)) ==> i in AllSlots(n);
    forall i | i in AllSlots(n) ensures i in SlotsOf(Descending(n)) {
      assert Descending(n)[n - 1 - i] == i;
    }
  }

  // ---------------------------------------------------------------------------------------------
  //  The pool
  // ---------------------------------------------------------------------------------------------

  /** Aligned sizes of BlockHeader and AlokPool */
  const POOL_METADATA_SIZE: nat := 24 + 48

  /** The memory that a pool has behind its headers */
  function PoolMemorySize(n: nat, slotSize: nat, pageSize: nat): (r: nat)
    requires 0 < pageSize
    ensures SlotStart(n, slotSize) <= r
  {
    AlignUp(SlotStart(n, slotSize) + POOL_METADATA_SIZE, pageSize) - POOL_METADATA_SIZE
  }

  /** node->next = ... */
  method PutWord(memory: array<Byte>, i: nat, w: Word)
    requires i + WORD_SIZE <= memory.Length
    modifies memory
    ensures memory[..] == Splice(old(memory[..]), i, Encode(w))
  {
    var bytes := Encode(w);
    forall k | 0 <= k < WORD_SIZE {
      memory[i + k] := bytes[k];
    }
  }

  /** The loop of alok_pool_create puts one slot after the other in front of the free list. */
  method LinkAll(memory: array<Byte>, origin: Word, slotSize: nat, n: nat) returns (list: Word)
    requires LinksAreInside(memory.Length, slotSize, n) && origin + memory.Length <= WORD_LIMIT
    modifies memory
    ensures memory[..] == Links(old(memory[..]), origin, slotSize, n)
    ensures list == Head(Descending(n), origin, slotSize)
  {
    hide Links, Head, Descending, Encode, Splice, SlotStart, LinksAreInside;
    list := NULL;
    ghost var before := memory[..];
    NoLinks(before, origin, slotSize);
    var i := 0;
    while i < n
      invariant i <= n && LinksAreInside(memory.Length, slotSize, i)
      invariant memory[..] == Links(before, origin, slotSize, i)
      invariant list == Head(Descending(i), origin, slotSize)
    {
      FewerLinksAreInside(memory.Length, slotSize, i + 1, n);
      LinksStep(before, origin, slotSize, i);
      PutWord(memory, SlotStart(i, slotSize), list);
      list := origin + SlotStart(i, slotSize);
      i := i + 1;
    }
  }

  lemma {:induction false} FewerLinksAreInside(size: nat, slotSize: nat, i: nat, n: nat)
    requires LinksAreInside(size, slotSize, n) && i <= n
    ensures LinksAreInside(size, slotSize, i)
    ensures 0 < i ==> SlotStart(i - 1, slotSize) + WORD_SIZE <= size
    decreases n - i
  {
    if i < n {
      FewerLinksAreInside(size, slotSize, i + 1, n);
      SlotsAreInside(size, slotSize, i + 1);
    }
  }

  lemma NoLinks(memory: Text, origin: Word, slotSize: nat)
    requires origin + |memory| <= WORD_LIMIT
    ensures LinksAreInside(|memory|, slotSize, 0) && Links(memory, origin, slotSize, 0) == memory
    ensures Head(Descending(0), origin, slotSize) == NULL
  {
  }

  lemma LinksStep(memory: Text, origin: Word, slotSize: nat, n: nat)
    requires LinksAreInside(|memory|, slotSize, n + 1) && origin + |memory| <= WORD_LIMIT
    ensures LinksAreInside(|memory|, slotSize, n) && Head(Descending(n), origin, slotSize) < WORD_LIMIT
    ensures Links(memory, origin, slotSize, n + 1)
         == Splice(Links(memory, origin, slotSize, n), SlotStart(n, slotSize),
                   Encode(Head(Descending(n), origin, slotSize)))
    ensures Head(Descending(n + 1), origin, slotSize) == origin + SlotStart(n, slotSize)
  {
    SlotsAreInside(|memory|, slotSize, n + 1);
  }

  class ObjectPool {
    const slotSize: nat
    const numSlots: nat
    /** pool_memory: its address, and the block from there on */
    const origin: Word
    const memory: array<Byte>
    var freeList: Word
    ghost var free: seq<nat>
    ghost var live: set<nat>

    ghost predicate IsLaidOut() {
      origin != NULL && origin + memory.Length <= WORD_LIMIT && SlotsFit(memory.Length, slotSize, numSlots)
    }

    /** Free and live slots partition the pool, and the free list leads through exactly the free ones. */
    ghost predicate Valid()
      reads this, memory
    {
      && IsLaidOut() && IsPartition(free, live, numSlots)
      && IsFreeList(memory[..], origin, slotSize, freeList, free)
    }

    function AddressOf(slot: nat): nat {
      origin + SlotStart(slot, slotSize)
    }

    /** Whether a link can be read at an address. */
    predicate IsReadable(address: nat) {
      origin <= address && address - origin + WORD_SIZE <= memory.Length
    }

    /** alok_pool_create: the block is where mmap puts it, and the link of the last slot must be inside. The result is
        a pool exactly if the slots hold their links. */
    constructor (numObjects: nat, objectSize: nat, objectAlignment: nat, pageSize: nat, block: Word)
      requires IsPow2(objectAlignment) && 0 < objectAlignment && 0 < pageSize
      requires block != NULL && block % MIN_PAGE_SIZE == 0
      requires var size := AlignUp(objectSize, objectAlignment);
               && LinksAreInside(PoolMemorySize(numObjects, size, pageSize), size, numObjects)
               && block + POOL_METADATA_SIZE + PoolMemorySize(numObjects, size, pageSize) <= WORD_LIMIT
      ensures IsLaidOut() && fresh(memory)
      ensures numSlots == numObjects && slotSize == AlignUp(objectSize, objectAlignment)
      ensures origin == block + POOL_METADATA_SIZE && memory.Length == PoolMemorySize(numSlots, slotSize, pageSize)
      ensures memory[..] == Links(Repeat(0, memory.Length), origin, slotSize, numSlots)
      ensures freeList == Head(free, origin, slotSize) && free == Descending(numSlots) && live == {}
      ensures Valid() <==> HoldsLinks(slotSize, numSlots)
    {
      hide IsPartition, AllSlots, HoldsLinks, Links, Head, IsFreeList, SlotStart;
      var size := AlignUp(objectSize, objectAlignment);
      var base: Word := block + POOL_METADATA_SIZE;
      var slots := new Byte[PoolMemorySize(numObjects, size, pageSize)](_ => 0);
      ghost var zeros := Repeat(0, slots.Length);
      assert slots[..] == zeros;
      var list := LinkAll(slots, base, size, numObjects);
      LinksLeadThroughAllSlots(zeros, base, size, numObjects);
      AllSlotsAreFree(numObjects);
      slotSize, numSlots, origin, memory, freeList := size, numObjects, base, slots, list;
      free, live := Descending(numObjects), {};
    }

    /** alok_pool_alloc: whatever the first word of the object says becomes the free list. On a pool it never gives
        out a live slot, and nothing exactly when every slot is live. */
    method Alloc() returns (node: Word, ghost slot: nat)
      requires IsLaidOut() && (freeList == NULL || IsReadable(freeList))
      modifies this
      ensures node == old(freeList)
      ensures freeList == if node == NULL then NULL else WordAt(memory[..], node - origin)
      ensures old(Valid()) ==> Valid() && (node == NULL <==> |old(live)| == numSlots)
      ensures old(Valid()) && node == NULL ==> live == old(live) && free == old(free)
      ensures old(Valid()) && node != NULL ==>
                && slot < numSlots && slot !in old(live) && node == AddressOf(slot)
                && live == old(live) + {slot} && [slot] + free == old(free)
    {
      hide IsPartition, WordAt, SlotStart;
      node, slot := freeList, 0;
      ghost var valid := Valid();
      if valid {
        CountSlots(free, live, numSlots);
        ListIsReadable();
      }
      if node != NULL {
        freeList := WordAt(memory[..], freeList - origin);
        if valid {
          slot := free[0];
          FreeIsBelow(free, live, numSlots);
          PopSlot(free, live, numSlots);
          RestOfList(memory[..], origin, slotSize, node, free);
          free, live := free[1..], live + {slot};
        }
      }
    }

    lemma ListIsReadable()
      requires Valid()
      ensures freeList == NULL <==> free == []
      ensures freeList != NULL ==> IsReadable(freeList) && freeList == AddressOf(free[0])
    {
      if free != [] {
        assert IsLink(memory[..], origin, slotSize, free[0], free[0 + 1..]);
      }
    }

    /** alok_pool_free, of a live object; the bytes of the other slots are kept. */
    method Free(slot: nat)
      requires Valid() && HoldsLinks(slotSize, numSlots) && slot in live
      modifies this, memory
      ensures Valid() && live == old(live) - {slot} && free == [slot] + old(free)
      ensures OthersKept(old(memory[..]), memory[..], slotSize, numSlots, slot)
    {
      hide IsPartition, SlotStart, HoldsLinks, IsLink, Encode, OthersKept;
      PushSlot(free, live, numSlots, slot);
      FreeIsBelow(free, live, numSlots);
      SlotFits(memory.Length, slotSize, numSlots, slot);
      Linked(memory[..], origin, slotSize, freeList, free, slot, numSlots);
      ghost var before, bytes := memory[..], Encode(freeList);
      PutWord(memory, SlotStart(slot, slotSize), freeList);
      freeList := origin + SlotStart(slot, slotSize);
      HeadOfPushed(free, slot);
      free, live := [slot] + free, live - {slot};
      KeepOthers(before, slotSize, numSlots, bytes, slot);
    }

    lemma HeadOfPushed(free: seq<nat>, slot: nat)
      ensures Head([slot] + free, origin, slotSize) == AddressOf(slot)
    {
    }

    /** The owner of a live object may write whatever it likes over it. */
    method Write(slot: nat, bytes: Text)
      requires Valid() && HoldsLinks(slotSize, numSlots) && slot in live && |bytes| <= slotSize
      modifies memory
      ensures Valid()
      ensures var a := SlotStart(slot, slotSize); a + |bytes| <= memory.Length && memory[a..a + |bytes|] == bytes
      ensures OthersKept(old(memory[..]), memory[..], slotSize, numSlots, slot)
    {
      hide IsPartition, SlotStart, HoldsLinks, IsLink, OthersKept;
      PushSlot(free, live, numSlots, slot);
      FreeIsBelow(free, live, numSlots);
      SlotFits(memory.Length, slotSize, numSlots, slot);
      ghost var before, a := memory[..], SlotStart(slot, slotSize);
      forall k | 0 <= k < |bytes| {
        memory[SlotStart(slot, slotSize) + k] := bytes[k];
      }
      assert memory[..] == Splice(before, a, bytes);
      KeepOthers(before, slotSize, numSlots, bytes, slot);
      forall j | 0 <= j < |free|
        ensures IsLink(memory[..], origin, slotSize, free[j], free[j + 1..])
      {
        SlotFits(memory.Length, slotSize, numSlots, free[j]);
        OtherLinkKept(before, origin, slotSize, bytes, slot, free[j], free[j + 1..], numSlots);
      }
    }
  }

  lemma FreeIsBelow(free: seq<nat>, live: set<nat>, n: nat)
    requires IsPartition(free, live, n)
    ensures forall j :: 0 <= j < |free| ==> free[j] < n
  {
    forall j | 0 <= j < |free| ensures free[j] < n {
      assert free[j] in SlotsOf(free) + live;
    }
  }

  lemma RestOfList(memory: Text, origin: nat, slotSize: nat, list: nat, free: seq<nat>)
    requires IsFreeList(memory, origin, slotSize, list, free) && free != []
    ensures IsLink(memory, origin, slotSize, free[0], free[1..])
    ensures IsFreeList(memory, origin, slotSize, WordAt(memory, SlotStart(free[0], slotSize)), free[1..])
    ensures [free[0]] + free[1..] == free
  {
    var rest := free[1..];
    assert IsLink(memory, origin, slotSize, free[0], free[0 + 1..]);
    forall j | 0 <= j < |rest|
      ensures IsLink(memory, origin, slotSize, rest[j], rest[j + 1..])
    {
      assert IsLink(memory, origin, slotSize, free[j + 1], free[j + 1 + 1..]);
      assert rest[j] == free[j + 1] && rest[j + 1..] == free[j + 1 + 1..];
    }
  }

  // ---------------------------------------------------------------------------------------------
  //  Runs
  // ---------------------------------------------------------------------------------------------

  datatype PoolOp = AllocOp | FreeOp(slot: nat) | WriteOp(slot: nat, bytes: Text)

  /** Only live objects are freed and written to, and nothing is written beyond their end. */
  ghost predicate IsLegal(free: seq<nat>, live: set<nat>, slotSize: nat, ops: seq<PoolOp>)
    decreases |ops|
  {
    ops == [] ||
    match ops[0]
    case AllocOp =>
      if free == [] then IsLegal(free, live, slotSize, ops[1..])
      else IsLegal(free[1..], live + {free[0]}, slotSize, ops[1..])
    case FreeOp(slot) => slot in live && IsLegal([slot] + free, live - {slot}, slotSize, ops[1..])
    case WriteOp(slot, bytes) => slot in live && |bytes| <= slotSize && IsLegal(free, live, slotSize, ops[1..])
  }

  /** What a legal run leaves to be done after an allocation */
  lemma LegalAfterAlloc(free: seq<nat>, live: set<nat>, slotSize: nat, ops: seq<PoolOp>, node: Word, slot: nat,
                        newFree: seq<nat>, newLive: set<nat>)
    requires ops != [] && ops[0] == AllocOp && IsLegal(free, live, slotSize, ops)
    requires if node == NULL then free == [] && newFree == free && newLive == live
             else newLive == live + {slot} && [slot] + newFree == free
    ensures IsLegal(newFree, newLive, slotSize, ops[1..])
  {
    assert node != NULL ==> free[1..] == newFree && free[0] == slot;
  }

  /** A pointer is the null pointer when all slots are live, and else the address of a slot that is not. */
  ghost predicate IsFair(node: Word, live: set<nat>, origin: nat, slotSize: nat, numSlots: nat) {
    if node == NULL then |live| == numSlots
    else exists slot :: 0 <= slot < numSlots && slot !in live && node == origin + SlotStart(slot, slotSize)
  }

  /** Over any legal run of a pool that holds its links: every pointer that is given out is the address of a slot that
      was free, and a request fails only when all are live. */
  method Run(pool: ObjectPool, ops: seq<PoolOp>) returns (given: seq<Word>, ghost liveBefore: seq<set<nat>>)
    requires pool.Valid() && HoldsLinks(pool.slotSize, pool.numSlots)
    requires IsLegal(pool.free, pool.live, pool.slotSize, ops)
    modifies pool, pool.memory
    ensures pool.Valid() && |pool.live| + |pool.free| == pool.numSlots
    ensures |given| == |liveBefore|
    ensures forall i :: 0 <= i < |given| ==>
              IsFair(given[i], liveBefore[i], pool.origin, pool.slotSize, pool.numSlots)
  {
    hide IsPartition, IsFreeList, SlotStart, HoldsLinks, OthersKept, WordAt;
    given, liveBefore := [], [];
    var i := 0;
    while i < |ops|
      invariant i <= |ops| && pool.Valid() && IsLegal(pool.free, pool.live, pool.slotSize, ops[i..])
      invariant |given| == |liveBefore|
      invariant forall k :: 0 <= k < |given| ==>
                  IsFair(given[k], liveBefore[k], pool.origin, pool.slotSize, pool.numSlots)
    {
      assert ops[i..][0] == ops[i] && ops[i..][1..] == ops[i + 1..];
      match ops[i] {
        case AllocOp =>
          ghost var free, live := pool.free, pool.live;
          CountSlots(free, live, pool.numSlots);
          pool.ListIsReadable();
          var node, slot := pool.Alloc();
          LegalAfterAlloc(free, live, pool.slotSize, ops[i..], node, slot, pool.free, pool.live);
          assert IsFair(node, live, pool.origin, pool.slotSize, pool.numSlots);
          given, liveBefore := given + [node], liveBefore + [live];
        case FreeOp(slot) => pool.Free(slot);
        case WriteOp(slot, bytes) => pool.Write(slot, bytes);
      }
      i := i + 1;
    }
    CountSlots(pool.free, pool.live, pool.numSlots);
  }

  // ---------------------------------------------------------------------------------------------
  //  Slots that are too small
  // ---------------------------------------------------------------------------------------------

  lemma {:induction false} LowBytesPrefix(w: nat, m: nat, n: nat)
    requires m <= n
    ensures LowBytes(w, n)[..m] == LowBytes(w, m)
    decreases n
  {
    if m != 0 {
      LowBytesPrefix(w / 0x100, m - 1, n - 1);
      assert LowBytes(w, n)[..m] == [w % 0x100] + LowBytes(w / 0x100, n - 1)[..m - 1];
    }
  }

  /** Four bytes of zeros before four bytes of a word make another word. */
  lemma ShiftedWord(b: Text, w: Word)
    requires b == Repeat(0, 4) + LowBytes(w, 4)
    ensures ValueOf(b) == w % 0x1_0000_0000 * 0x1_0000_0000
  {
    var c := LowBytes(w, 4);
    FourBytes(w);
    assert ValueOf(b) == 0x100 * ValueOf(b[1..]);
    assert ValueOf(b[1..]) == 0x100 * ValueOf(b[1..][1..]);
    assert b[1..][1..] == b[2..] && b[2..][1..] == b[3..] && b[3..][1..] == c;
    assert ValueOf(b[2..]) == 0x100 * ValueOf(b[3..]) && ValueOf(b[3..]) == 0x100 * ValueOf(c);
  }

  lemma FourBytes(w: Word)
    ensures ValueOf(LowBytes(w, 4)) == w % 0x1_0000_0000
  {
    var w1, w2, w3, w4 := w / 0x100, w / 0x100 / 0x100, w / 0x100 / 0x100 / 0x100, w / 0x100 / 0x100 / 0x100 / 0x100;
    var b := LowBytes(w, 4);
    assert b[1..] == LowBytes(w1, 3) && LowBytes(w1, 3)[1..] == LowBytes(w2, 2);
    assert LowBytes(w2, 2)[1..] == LowBytes(w3, 1);
    assert LowBytes(w3, 1)[1..] == [] && ValueOf([]) == 0;
    assert ValueOf(LowBytes(w3, 1)) == w3 % 0x100;
    assert ValueOf(LowBytes(w2, 2)) == w2 % 0x100 + 0x100 * (w3 % 0x100);
    assert ValueOf(LowBytes(w1, 3)) == w1 % 0x100 + 0x100 * ValueOf(LowBytes(w2, 2));
    assert ValueOf(b) == w % 0x100 + 0x100 * ValueOf(LowBytes(w1, 3));
    DivUnique(w, 0x1_0000_0000, w4, ValueOf(b));
  }

  /** A pool of two objects of four bytes gives out both, and then its free list is no pointer into the pool but the
      lower half of one, shifted; so the next allocation does not fail. */
  method TwoSmallObjects(block: Word) returns (first: Word, second: Word, next: Word)
    requires block != NULL && block % MIN_PAGE_SIZE == 0 && block + MIN_PAGE_SIZE <= WORD_LIMIT
    ensures second == block + 72 && first == second + 4
    ensures next == second % 0x1_0000_0000 * 0x1_0000_0000 && next != NULL
  {
    hide Links, WordAt, IsPartition, IsFreeList;
    assert AlignUp(4, 4) == 4 && PoolMemorySize(2, 4, MIN_PAGE_SIZE) == MIN_PAGE_SIZE - POOL_METADATA_SIZE;
    FourIsPow2();
    var pool := new ObjectPool(2, 4, 4, MIN_PAGE_SIZE, block);
    ghost var memory := pool.memory[..];
    SmallLinks(memory, pool.origin);
    ghost var slot;
    first, slot := pool.Alloc();
    second, slot := pool.Alloc();
    next := pool.freeList;
  }

  lemma FourIsPow2()
    ensures IsPow2(4)
  {
    assert Pow2(2) == 4;
  }

  lemma SmallLinks(memory: Text, origin: Word)
    requires 12 <= |memory| && origin + |memory| <= WORD_LIMIT
    requires memory == Links(Repeat(0, |memory|), origin, 4, 2)
    ensures WordAt(memory, 4) == origin
    ensures WordAt(memory, 0) == origin % 0x1_0000_0000 * 0x1_0000_0000
  {
    hide Links, Encode, WordAt;
    var zeros := Repeat(0, |memory|);
    LinksStep(zeros, origin, 4, 1);
    LinksStep(zeros, origin, 4, 0);
    NullIsZeros();
    assert Links(zeros, origin, 4, 0) == zeros by {
      NoLinks(zeros, origin, 4);
    }
    assert Splice(zeros, 0, Repeat(0, WORD_SIZE)) == zeros;
    assert memory == Splice(zeros, 4, Encode(origin));
    assert memory[4..4 + WORD_SIZE] == Encode(origin);
    WordIsReadBack(memory, 4, origin);
    FirstHalf(origin);
    assert memory[0..WORD_SIZE] == Repeat(0, 4) + LowBytes(origin, 4);
    ShiftedWord(memory[0..WORD_SIZE], origin);
    WordHasValue(memory, 0);
  }

  lemma WordHasValue(memory: Text, i: nat)
    requires i + WORD_SIZE <= |memory|
    ensures WordAt(memory, i) == ValueOf(memory[i..i + WORD_SIZE])
  {
  }

  lemma FirstHalf(w: Word)
    ensures Encode(w)[..4] == LowBytes(w, 4)
  {
    LowBytesPrefix(w, 4, WORD_SIZE);
  }

  lemma NullIsZeros()
    ensures Encode(NULL) == Repeat(0, WORD_SIZE)
  {
    ValueOfWord(NULL);
    ValueIsZero(Encode(NULL));
  }
}
