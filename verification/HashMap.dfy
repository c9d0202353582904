/** hashmap.c: a chained hash map that refines a finite map from keys to values. Every chain is a linked list of
    heap nodes; buckets, links and counters are updated in place. */
module HashMaps {
  import opened Bytes
  import opened Bits
  import opened HashKeys
  import Collections

  const MIN_NUM_BUCKETS: nat := 16
  const MAX_NUM_BUCKETS: nat := 268_435_456
  const MIN_CAPACITY: nat := 12
  const MAX_CAPACITY: nat := 201_326_592

  /** ColValue */
  datatype Value =
    | NullValue
    | LongValue(long: Int64)
    | DoubleValue(bits: Word)
    | StringValue(text: CText)
    | PointerValue(address: Word)

  /** MapNode */
  class Node {
    const key: Key
    const hash: Word
    var value: Value
    var next: Node?

    constructor (key: Key, hash: Word, value: Value, next: Node?)
      ensures this.key == key && this.hash == hash && this.value == value && this.next == next
    {
      this.key, this.hash, this.value, this.next := key, hash, value, next;
    }
  }

  /** map_calc_bucket_index, which masks with num_buckets - 1 */
  function BucketIndex(hash: nat, numBuckets: nat): (b: nat)
    requires 0 < numBuckets
    ensures b < numBuckets
  {
    AndBelow(hash, numBuckets - 1);
    And(hash, numBuckets - 1)
  }

  /** The mask is a remainder because the number of buckets is a power of two. */
  lemma BucketIndexIsRemainder(hash: nat, numBuckets: nat)
    requires IsPow2(numBuckets)
    ensures 0 < numBuckets && BucketIndex(hash, numBuckets) == hash % numBuckets
  {
    MaskIsRemainder(hash, numBuckets);
  }

  // ---------------------------------------------------------------------------------------------
  //  Chains
  // ---------------------------------------------------------------------------------------------

  ghost function NextIn(chain: seq<Node>, j: nat): Node? {
    if j + 1 < |chain| then chain[j + 1] else null
  }

  /** The linked list from `head` on consists of exactly these nodes, and ends. */
  ghost predicate IsChain(head: Node?, chain: seq<Node>)
    reads chain`next
  {
    && head == (if chain == [] then null else chain[0])
    && forall j :: 0 <= j < |chain| ==> chain[j].next == NextIn(chain, j)
  }

  ghost predicate AllIn(chains: seq<seq<Node>>, nodes: set<Node>) {
    forall b, j :: 0 <= b < |chains| && 0 <= j < |chains[b]| ==> chains[b][j] in nodes
  }

  ghost predicate AllLinked(buckets: array<Node?>, chains: seq<seq<Node>>, nodes: set<Node>)
    requires AllIn(chains, nodes)
    reads buckets, nodes`next
  {
    && |chains| == buckets.Length
    && forall b :: 0 <= b < |chains| ==> IsChain(buckets[b], chains[b])
  }

  ghost predicate IsDistinct(chain: seq<Node>) {
    forall i, j :: 0 <= i < j < |chain| ==> chain[i] != chain[j]
  }

  /** Every node sits in the chain that its hash selects, exactly once, and the chains hold no other nodes. */
  ghost predicate Distributed(chains: seq<seq<Node>>, nodes: set<Node>) {
    && 0 < |chains| && AllIn(chains, nodes)
    && (forall b, j :: 0 <= b < |chains| && 0 <= j < |chains[b]| ==> BucketIndex(chains[b][j].hash, |chains|) == b)
    && (forall n <- nodes :: n in chains[BucketIndex(n.hash, |chains|)])
    && (forall b :: 0 <= b < |chains| ==> IsDistinct(chains[b]))
  }

  /** Every node is the one that the index has for its key. */
  ghost predicate Indexed(index: map<Key, Node>, nodes: set<Node>) {
    && (forall n <- nodes :: && n.hash == Hash(n.key) && IsFindable(n.key)
                             && Canonical(n.key) in index && index[Canonical(n.key)] == n)
    && Covers(index, nodes)
    && (forall k <- index :: Canonical(index[k].key) == k)
  }

  ghost predicate Covers(index: map<Key, Node>, nodes: set<Node>) {
    forall k <- index :: index[k] in nodes
  }

  /** The finite map that an index stands for */
  ghost function ValuesOf(index: map<Key, Node>, nodes: set<Node>): map<Key, Value>
    requires Covers(index, nodes)
    reads nodes`value
  {
    map k | k in index :: index[k].value
  }

  /** What a key finds in a finite map with canonical keys: the null value if there is nothing */
  function Lookup(m: map<Key, Value>, key: Key): Value {
    if IsFindable(key) && Canonical(key) in m then m[Canonical(key)] else NullValue
  }

  /** The node for a key can only be in the bucket that the key's hash selects. */
  lemma NodeIsInBucket(chains: seq<seq<Node>>, nodes: set<Node>, index: map<Key, Node>, key: Key)
    requires Distributed(chains, nodes) && Indexed(index, nodes)
    ensures var chain := chains[BucketIndex(Hash(key), |chains|)];
            && (IsFindable(key) && Canonical(key) in index ==>
                  index[Canonical(key)] in chain && EqualsKey(key, index[Canonical(key)].key))
            && (forall j :: 0 <= j < |chain| && EqualsKey(key, chain[j].key) ==>
                  IsFindable(key) && Canonical(key) in index && index[Canonical(key)] == chain[j])
  {
    var chain := chains[BucketIndex(Hash(key), |chains|)];
    if IsFindable(key) && Canonical(key) in index {
      var n := index[Canonical(key)];
      EqualKeysAreCanonical(key, n.key);
      EqualKeysHashAlike(key, n.key);
    }
    forall j | 0 <= j < |chain| && EqualsKey(key, chain[j].key)
      ensures IsFindable(key) && Canonical(key) in index && index[Canonical(key)] == chain[j]
    {
      EqualKeysAreCanonical(key, chain[j].key);
    }
  }

  // ---------------------------------------------------------------------------------------------
  //  Capacities
  // ---------------------------------------------------------------------------------------------

  /** (size_t)(num_buckets * fill_factor), with a fill factor of 0.75 */
  function FillCapacity(numBuckets: nat): nat {
    numBuckets * 3 / 4
  }

  /** (size_t)(wanted_capacity / fill_factor) */
  function WantedBuckets(wanted: nat): nat {
    wanted * 4 / 3
  }

  /** The variables of the loop of map_ensure_capacity */
  datatype Growth = Growth(numBuckets: nat, wantedBuckets: nat, newNumBuckets: nat)

  /** The test of the loop, with the assignment in it */
  function TestGrowth(g: Growth): (r: (Growth, bool)) {
    var next := g.(newNumBuckets := g.numBuckets * 2);
    (next, next.newNumBuckets < g.wantedBuckets && next.newNumBuckets < MAX_NUM_BUCKETS)
  }

  /** The variables after the test was true n times; the body of the loop is empty. */
  function AfterTests(g: Growth, n: nat): Growth
    decreases n
  {
    if n == 0 then g else AfterTests(TestGrowth(g).0, n - 1)
  }

  /** The loop is still running after n turns. */
  predicate StillGrows(g: Growth, n: nat) {
    TestGrowth(AfterTests(g, n)).1
  }

  /** The condition for the loop to end, in terms of the buckets and the request */
  predicate GrowthLoopEnds(numBuckets: nat, wanted: nat) {
    WantedBuckets(wanted) <= numBuckets * 2 || MAX_NUM_BUCKETS <= numBuckets * 2
  }

  /** The loop ends, whatever newNumBuckets was, exactly under this condition, and then at its first test. */
  lemma {:induction false} GrowthLoopEndsOrHangs(numBuckets: nat, wanted: nat, initial: nat)
    ensures var g := Growth(numBuckets, WantedBuckets(wanted), initial);
            if GrowthLoopEnds(numBuckets, wanted) then !StillGrows(g, 0) else forall n: nat :: StillGrows(g, n)
  {
    var g := Growth(numBuckets, WantedBuckets(wanted), initial);
    forall n: nat
      ensures AfterTests(g, n).numBuckets == numBuckets && AfterTests(g, n).wantedBuckets == g.wantedBuckets
    {
      GrowthKeepsRequest(g, n);
    }
  }

  lemma {:induction false} GrowthKeepsRequest(g: Growth, n: nat)
    ensures AfterTests(g, n).numBuckets == g.numBuckets && AfterTests(g, n).wantedBuckets == g.wantedBuckets
    decreases n
  {
    if n != 0 {
      GrowthKeepsRequest(TestGrowth(g).0, n - 1);
    }
  }

  /** The numbers of buckets that a map can have: powers of two within bounds */
  ghost predicate IsBucketCount(n: nat) {
    IsPow2(n) && MIN_NUM_BUCKETS <= n <= MAX_NUM_BUCKETS
  }

  lemma MaxIsPow2()
    ensures Pow2(28) == MAX_NUM_BUCKETS
  {
    Pow2Sum(2, 2);
    Pow2Sum(4, 4);
    Pow2Sum(8, 8);
    Pow2Sum(16, 8);
    Pow2Sum(24, 4);
  }

  /** Below the maximum there is room for doubling. */
  lemma BucketsCanDouble(n: nat)
    requires IsBucketCount(n)
    ensures n < MAX_NUM_BUCKETS <==> 2 * n <= MAX_NUM_BUCKETS
    ensures n < MAX_NUM_BUCKETS ==> IsBucketCount(2 * n)
  {
    MaxIsPow2();
    var k: nat :| Pow2(k) == n;
    assert Pow2(k + 1) == 2 * n;
    if k < 28 {
      Pow2Grows(k, 28);
    } else {
      Pow2Grows(28, k);
    }
  }

  /** A full map asks for one entry more than it has room for: then the loop ends at its first test. */
  lemma GrowthLoopEndsForPut(numBuckets: nat, size: nat)
    requires IsBucketCount(numBuckets) && (numBuckets < MAX_NUM_BUCKETS ==> size <= FillCapacity(numBuckets))
    ensures GrowthLoopEnds(numBuckets, size + 1)
  {
  }

  /** A caller of map_ensure_capacity who asks a small map for a lot does not come back. */
  lemma GrowthLoopCanHang(initial: nat)
    ensures forall n: nat :: StillGrows(Growth(MIN_NUM_BUCKETS, WantedBuckets(100), initial), n)
  {
    GrowthLoopEndsOrHangs(MIN_NUM_BUCKETS, 100, initial);
  }

  // ---------------------------------------------------------------------------------------------
  //  The map
  // ---------------------------------------------------------------------------------------------

  class HashMap {
    var buckets: array<Node?>
    var size: nat
    var fillCapacity: nat
    var numBuckets: nat
    ghost var chains: seq<seq<Node>>
    ghost var nodes: set<Node>
    ghost var index: map<Key, Node>

    ghost predicate Valid()
      reads this, buckets, nodes`next
    {
      && AllIn(chains, nodes) && Covers(index, nodes) && |chains| == numBuckets
      && Distributed(chains, nodes) && Indexed(index, nodes)
      && AllLinked(buckets, chains, nodes)
      && 0 < buckets.Length == numBuckets && IsBucketCount(numBuckets)
      && fillCapacity == FillCapacity(numBuckets)
      && size == |index|
      && (numBuckets < MAX_NUM_BUCKETS ==> size <= fillCapacity)
    }

    /** The finite map that the buckets represent, keyed by canonical keys */
    ghost function Contents(): map<Key, Value>
      requires Valid()
      reads this, buckets, nodes
    {
      ValuesOf(index, nodes)
    }

    ghost function Repr(): set<object>
      reads this
    {
      {this, buckets} + nodes
    }

    /** map_create */
    constructor (initialCapacity: nat)
      requires initialCapacity < Collections.WordLimit()
      ensures Valid() && Contents() == map[] && size == 0 && fresh(Repr())
      ensures Min(initialCapacity, MAX_CAPACITY) <= fillCapacity
      ensures numBuckets == 16 || 3 * numBuckets < 8 * initialCapacity
    {
      var capacity := Collections.Clamp(initialCapacity, MIN_CAPACITY, MAX_CAPACITY);
      BoundsArePow2();
      var n := Collections.NextPowerOfTwo(WantedBuckets(capacity), MIN_NUM_BUCKETS, MAX_NUM_BUCKETS);
      CreateIsRoomy(capacity, n);
      hide Collections.IsLeastPow2AtLeast, IsPow2, BucketIndex;
      hide Distributed, AllLinked, AllIn, Indexed, Covers, ValuesOf;
      size, numBuckets, fillCapacity := 0, n, FillCapacity(n);
      var heads := new Node?[n](_ => null);
      EmptyMap(heads, n);
      buckets := heads;
      chains := seq(n, _ => []);
      nodes, index := {}, map[];
    }

    /** The walk to the node for a key, with its position in its chain */
    method Find(key: Key) returns (node: Node?, prev: Node?, ghost pos: nat)
      requires Valid()
      ensures node == if IsFindable(key) && Canonical(key) in index then index[Canonical(key)] else null
      ensures node != null ==>
                var chain := chains[BucketIndex(Hash(key), numBuckets)];
                pos < |chain| && chain[pos] == node && prev == if pos == 0 then null else chain[pos - 1]
      ensures Just(prev) <= nodes
    {
      hide Distributed, Indexed, Hash, BucketIndex, EqualsKey, IsFindable, Canonical;
      var hashcode := MapHashFunction(key);
      var b := BucketIndex(hashcode, numBuckets);
      NodeIsInBucket(chains, nodes, index, key);
      node, prev, pos := Walk(buckets[b], key, chains[b]);
    }

    /** map_node_for: the node with an equal key, if the map has one */
    method NodeFor(key: Key) returns (node: Node?)
      requires Valid()
      ensures node == if IsFindable(key) && Canonical(key) in index then index[Canonical(key)] else null
      ensures if IsFindable(key) && Canonical(key) in Contents()
              then node in nodes && Canonical(node.key) == Canonical(key) && node.value == Contents()[Canonical(key)]
              else node == null
    {
      var prev;
      ghost var pos;
      node, prev, pos := Find(key);
    }

    /** map_get: the null value for a key that is not in the map */
    method Get(key: Key) returns (value: Value)
      requires Valid()
      ensures value == Lookup(Contents(), key)
    {
      var node := NodeFor(key);
      value := if node == null then NullValue else node.value;
    }

    /** map_try_get: a stored null value counts as missing. */
    method TryGet(key: Key) returns (found: bool, value: Value)
      requires Valid()
      ensures found <==> IsFindable(key) && Canonical(key) in Contents() && Contents()[Canonical(key)] != NullValue
      ensures value == if found then Contents()[Canonical(key)] else NullValue
    {
      value := Get(key);
      found := value != NullValue;
    }

    /** map_set_value on a node of the map */
    method SetValue(node: Node, value: Value)
      requires Valid() && node in nodes
      modifies node`value
      ensures Valid() && Contents() == old(Contents())[Canonical(node.key) := value]
    {
      hide AllLinked, Distributed, AllIn, IsBucketCount, FillCapacity, IsFindable, Hash;
      node.value := value;
    }

    /** The rehash of map_ensure_capacity: every node is moved once, into the bucket of the new array that its
        hash selects. */
    method Rehash(newNumBuckets: nat)
      requires Valid() && IsBucketCount(newNumBuckets) && numBuckets < newNumBuckets
      modifies this, nodes`next
      ensures Valid() && fresh(buckets) && numBuckets == newNumBuckets
      ensures nodes == old(nodes) && index == old(index) && size == old(size)
    {
      hide IsBucketCount, Indexed, Covers, Distributed, AllIn, AllLinked;
      var newBuckets := new Node?[newNumBuckets](_ => null);
      ghost var newChains := MoveAll(buckets, chains, nodes, newBuckets);
      buckets := newBuckets;
      numBuckets := newNumBuckets;
      fillCapacity := newNumBuckets * 3 / 4;
      chains := newChains;
    }

    /** A map has room for three entries in every four buckets, and between 16 and 2^28 buckets. */
    lemma LoadFactor()
      requires Valid()
      ensures 4 * fillCapacity == 3 * numBuckets && 16 <= numBuckets <= 0x1000_0000
    {
      hide AllIn, Covers, Distributed, Indexed, AllLinked, IsPow2, FillCapacity;
      BucketsDivideByFour(numBuckets);
    }

    /** The end of map_put for a key that is not in the map: a new node at the head of its bucket */
    method Insert(key: Key, hashcode: Word, value: Value)
      requires Valid() && IsFindable(key) && Canonical(key) !in index && hashcode == Hash(key)
      requires numBuckets < MAX_NUM_BUCKETS ==> size < fillCapacity
      modifies this, buckets
      ensures Valid() && buckets == old(buckets) && fresh(nodes - old(nodes)) && old(nodes) <= nodes
      ensures Contents() == old(Contents())[Canonical(key) := value] && size == old(size) + 1
      ensures numBuckets == old(numBuckets)
    {
      hide Hash, IsFindable, Canonical, BucketIndex, IsBucketCount, FillCapacity;
      hide AllLinked, Distributed, Indexed, ValuesOf, AllIn, Covers;
      var b := BucketIndex(hashcode, numBuckets);
      var node := new Node(key, hashcode, value, buckets[b]);
      DistributedInsert(chains, nodes, b, node);
      IndexedInsert(index, nodes, node);
      ValuesOfInsert(index, nodes, Canonical(key), node);
      PushHead(buckets, b, node, chains, nodes);
      size := size + 1;
      chains := chains[b := [node] + chains[b]];
      nodes := nodes + {node};
      index := index[Canonical(key) := node];
    }

    /** map_ensure_capacity, for requests that it can come back from. It doubles the number of buckets, whatever
        was wanted. The loop of the source has an empty body and ends at its first test. */
    method EnsureCapacity(wanted: nat)
      requires Valid() && (wanted < fillCapacity || GrowthLoopEnds(numBuckets, wanted))
      modifies this, nodes`next
      ensures Valid() && (buckets == old(buckets) || fresh(buckets))
      ensures nodes == old(nodes) && index == old(index) && size == old(size)
      ensures numBuckets == if wanted < old(fillCapacity) then old(numBuckets)
                            else Min(2 * old(numBuckets), MAX_NUM_BUCKETS)
      ensures wanted < old(fillCapacity) ==> buckets == old(buckets)
    {
      hide Distributed, Indexed, AllIn, AllLinked, Covers, IsPow2;
      BucketsCanDouble(numBuckets);
      if wanted < fillCapacity {
        return;
      }
      var newNumBuckets := numBuckets * 2;
      if MAX_NUM_BUCKETS < newNumBuckets {
        newNumBuckets := MAX_NUM_BUCKETS;
      }
      if newNumBuckets <= numBuckets {
        return;
      }
      Rehash(newNumBuckets);
    }

    /** map_put. A full map doubles its buckets first. */
    method Put(key: Key, value: Value)
      requires Valid() && IsFindable(key)
      modifies this, buckets, nodes
      ensures Valid() && fresh(Repr() - old(Repr())) && size <= old(size) + 1
      ensures Contents() == old(Contents())[Canonical(key) := value]
      ensures numBuckets == if old(size) < old(fillCapacity) then old(numBuckets)
                            else Min(2 * old(numBuckets), MAX_NUM_BUCKETS)
      ensures old(size) < old(fillCapacity) ==> buckets == old(buckets)
    {
      hide Distributed, Indexed, AllIn, AllLinked, Covers, IsPow2, Hash, Canonical, IsFindable;
      MakeRoom();
      var hashcode := MapHashFunction(key);
      var node, prev, pos := Find(key);
      if node != null {
        NodeHasKey(key);
        SetValue(node, value);
      } else {
        Insert(key, hashcode, value);
      }
    }

    /** The first step of map_put */
    method MakeRoom()
      requires Valid()
      modifies this, nodes`next
      ensures Valid() && (buckets == old(buckets) || fresh(buckets))
      ensures nodes == old(nodes) && index == old(index) && size == old(size)
      ensures numBuckets < MAX_NUM_BUCKETS ==> size < fillCapacity
      ensures numBuckets == if old(size) < old(fillCapacity) then old(numBuckets)
                            else Min(2 * old(numBuckets), MAX_NUM_BUCKETS)
      ensures old(size) < old(fillCapacity) ==> buckets == old(buckets)
    {
      hide Distributed, Indexed, AllIn, AllLinked, Covers, IsPow2;
      if fillCapacity <= size {
        GrowthLoopEndsForPut(numBuckets, size);
        EnsureCapacity(size + 1);
      }
    }

    /** The map has a value for a key exactly when the index has a node for it: the value in that node. */
    lemma ContentsAt(key: Key)
      requires Valid()
      ensures Canonical(key) in Contents() <==> Canonical(key) in index
      ensures Canonical(key) in index ==>
                index[Canonical(key)] in nodes && Contents()[Canonical(key)] == index[Canonical(key)].value
    {
    }

    lemma BucketIsChain(b: nat)
      requires Valid() && b < numBuckets
      ensures b < |chains| && b < buckets.Length && IsChain(buckets[b], chains[b])
    {
    }

    lemma ContentsKeys()
      requires Valid()
      ensures Contents().Keys == index.Keys && Covers(index, nodes) && Indexed(index, nodes)
    {
    }

    lemma ChainsAreDistributed()
      requires Valid()
      ensures Distributed(chains, nodes) && |chains| == numBuckets
    {
    }

    /** The node that the index has for a key has an equal key. */
    lemma NodeHasKey(key: Key)
      requires Valid() && IsFindable(key) && Canonical(key) in index
      ensures index[Canonical(key)] in nodes && Canonical(index[Canonical(key)].key) == Canonical(key)
    {
    }

    /** map_remove */
    method Remove(key: Key)
      requires Valid()
      modifies this, buckets, nodes`next
      ensures Valid() && buckets == old(buckets) && nodes <= old(nodes)
      ensures Contents() == if IsFindable(key) then old(Contents()) - {Canonical(key)} else old(Contents())
      ensures size <= old(size) && numBuckets == old(numBuckets)
    {
      hide Distributed, Indexed, AllIn, AllLinked, Covers, IsBucketCount, FillCapacity, ValuesOf;
      hide Hash, Canonical, IsFindable, BucketIndex;
      var node, prev, pos := Find(key);
      if node != null {
        RemoveNode(key, node, prev, pos);
      } else {
        ValuesOfKeys(index, nodes);
        assert Canonical(key) !in index && IsFindable(key) ==> Contents() - {Canonical(key)} == Contents();
      }
    }

    /** The part of map_remove that unlinks the node that was found */
    method RemoveNode(key: Key, node: Node, prev: Node?, ghost pos: nat)
      requires Valid() && IsFindable(key) && Canonical(key) in index && index[Canonical(key)] == node
      requires var chain := chains[BucketIndex(Hash(key), numBuckets)];
               pos < |chain| && chain[pos] == node && prev == if pos == 0 then null else chain[pos - 1]
      requires Just(prev) <= nodes
      modifies this, buckets, nodes`next
      ensures Valid() && buckets == old(buckets) && nodes == old(nodes) - {node}
      ensures Contents() == old(Contents()) - {Canonical(key)} && size == old(size) - 1
      ensures numBuckets == old(numBuckets)
    {
      hide Distributed, Indexed, AllIn, AllLinked, Covers, IsBucketCount, FillCapacity, ValuesOf;
      hide Hash, Canonical, IsFindable, BucketIndex, Without;
      var hashcode := MapHashFunction(key);
      var b := BucketIndex(hashcode, numBuckets);
      DistributedRemove(chains, nodes, b, pos);
      IndexedRemove(index, nodes, Canonical(key));
      ValuesOfRemove(index, nodes, Canonical(key));
      Unlink(buckets, b, node, prev, pos, chains, nodes);
      size := size - 1;
      chains := chains[b := Without(chains[b], pos)];
      nodes := nodes - {node};
      index := index - {Canonical(key)};
    }

    /** map_clear */
    method Clear()
      requires Valid()
      modifies this, buckets
      ensures Valid() && Contents() == map[] && size == 0 && nodes == {} && buckets == old(buckets)
      ensures numBuckets == old(numBuckets)
    {
      hide IsBucketCount, Distributed, AllLinked, AllIn, Indexed, ValuesOf, FillCapacity;
      var i := 0;
      while i < numBuckets
        invariant i <= numBuckets == old(numBuckets) && fillCapacity == old(fillCapacity) && buckets == old(buckets)
        invariant forall b :: 0 <= b < i ==> buckets[b] == null
      {
        buckets[i] := null;
        i := i + 1;
      }
      size := 0;
      chains, nodes, index := seq(numBuckets, _ => []), {}, map[];
      EmptyMap(buckets, numBuckets);
    }

    /** map_size */
    method Size() returns (r: nat)
      requires Valid()
      ensures r == |Contents()|
    {
      hide Distributed, Indexed, AllIn, AllLinked, IsBucketCount, ValuesOf;
      ValuesOfKeys(index, nodes);
      assert |Contents()| == |Contents().Keys| && |index| == |index.Keys|;
      r := size;
    }
  }

  /** A node that points to the head of a bucket becomes the head. */
  method PushHead(buckets: array<Node?>, b: nat, node: Node, ghost chains: seq<seq<Node>>, ghost nodes: set<Node>)
    requires AllIn(chains, nodes) && AllLinked(buckets, chains, nodes)
    requires b < buckets.Length && node !in nodes && node.next == buckets[b]
    modifies buckets
    ensures AllIn(chains[b := [node] + chains[b]], nodes + {node})
    ensures AllLinked(buckets, chains[b := [node] + chains[b]], nodes + {node})
  {
    ghost var chain := [node] + chains[b];
    assert IsChain(buckets[b], chains[b]);
    buckets[b] := node;
    assert IsChain(buckets[b], chain) by {
      forall j | 0 <= j < |chain| ensures chain[j].next == NextIn(chain, j) {
        assert 0 < j ==> chain[j] == chains[b][j - 1] && NextIn(chain, j) == NextIn(chains[b], j - 1);
      }
    }
    forall c | 0 <= c < |chains| && c != b ensures IsChain(buckets[c], chains[c]) {
      assert old(IsChain(buckets[c], chains[c]));
    }
  }

  ghost function NodesOf(chain: seq<Node>): set<Node> {
    set n | n in chain
  }

  lemma StepMoved(chain: seq<Node>, k: nat, moved: set<Node>)
    requires k < |chain| && IsDistinct(chain) && forall n <- chain :: n !in moved
    ensures chain[k] in NodesOf(chain) && chain[k] !in moved + NodesOf(chain[..k])
    ensures moved + NodesOf(chain[..k + 1]) == moved + NodesOf(chain[..k]) + {chain[k]}
  {
  }

  /** The inner loop of the rehash: every node of a chain becomes the head of its new bucket. */
  method MoveChain(head: Node?, ghost chain: seq<Node>, buckets: array<Node?>,
                   ghost chains: seq<seq<Node>>, ghost moved: set<Node>)
    returns (ghost newChains: seq<seq<Node>>)
    requires IsChain(head, chain) && IsDistinct(chain) && forall n <- chain :: n !in moved
    requires AllIn(chains, moved) && AllLinked(buckets, chains, moved) && 0 < |chains| == buckets.Length
    requires Distributed(chains, moved)
    modifies buckets, NodesOf(chain)`next
    ensures |newChains| == |chains| && AllIn(newChains, moved + NodesOf(chain))
    ensures Distributed(newChains, moved + NodesOf(chain))
    ensures AllLinked(buckets, newChains, moved + NodesOf(chain))
  {
    hide AllLinked, Distributed, AllIn, BucketIndex, NodesOf;
    var current := head;
    ghost var k := 0;
    newChains := chains;
    assert moved + NodesOf(chain[..0]) == moved by {
      assert chain[..0] == [];
      NodesOfNone();
    }
    while current != null
      invariant k <= |chain| && current == if k < |chain| then chain[k] else null
      invariant forall j :: k <= j < |chain| ==> chain[j].next == NextIn(chain, j)
      invariant |newChains| == |chains| && AllIn(newChains, moved + NodesOf(chain[..k]))
      invariant Distributed(newChains, moved + NodesOf(chain[..k]))
      invariant AllLinked(buckets, newChains, moved + NodesOf(chain[..k]))
      decreases |chain| - k
    {
      ghost var all := moved + NodesOf(chain[..k]);
      StepMoved(chain, k, moved);
      var next := current.next;
      var b := BucketIndex(current.hash, buckets.Length);
      DistributedInsert(newChains, all, b, current);
      MoveNode(current, b, buckets, newChains, all);
      newChains := newChains[b := [current] + newChains[b]];
      current, k := next, k + 1;
    }
    assert chain[..k] == chain;
  }

  lemma NodesOfNone()
    ensures NodesOf([]) == {}
  {
  }

  /** The nodes in the buckets before bucket i */
  ghost function NodesBefore(nodes: set<Node>, numBuckets: nat, i: nat): set<Node>
    requires 0 < numBuckets
  {
    set n | n in nodes && BucketIndex(n.hash, numBuckets) < i
  }

  lemma NextBucket(chains: seq<seq<Node>>, nodes: set<Node>, i: nat)
    requires Distributed(chains, nodes) && i < |chains|
    ensures IsDistinct(chains[i]) && forall n <- chains[i] :: n !in NodesBefore(nodes, |chains|, i)
    ensures NodesBefore(nodes, |chains|, i + 1) == NodesBefore(nodes, |chains|, i) + NodesOf(chains[i])
    ensures forall b, n :: i < b < |chains| && n in chains[b] ==> n !in NodesOf(chains[i])
    ensures NodesOf(chains[i]) <= nodes
  {
    hide BucketIndex;
  }

  lemma AllBuckets(chains: seq<seq<Node>>, nodes: set<Node>)
    requires Distributed(chains, nodes)
    ensures NodesBefore(nodes, |chains|, 0) == {} && NodesBefore(nodes, |chains|, |chains|) == nodes
  {
    hide And;
  }

  /** The outer loop of the rehash */
  method MoveAll(oldBuckets: array<Node?>, ghost chains: seq<seq<Node>>, ghost nodes: set<Node>, buckets: array<Node?>)
    returns (ghost newChains: seq<seq<Node>>)
    requires AllIn(chains, nodes) && Distributed(chains, nodes) && AllLinked(oldBuckets, chains, nodes)
    requires 0 < |chains| == oldBuckets.Length && 0 < buckets.Length && buckets != oldBuckets
    requires forall b :: 0 <= b < buckets.Length ==> buckets[b] == null
    modifies buckets, nodes`next
    ensures |newChains| == buckets.Length && AllIn(newChains, nodes) && Distributed(newChains, nodes)
    ensures AllLinked(buckets, newChains, nodes)
  {
    hide Distributed, NodesBefore, NodesOf;
    newChains := seq(buckets.Length, _ => []);
    NoChains(buckets.Length);
    AllBuckets(chains, nodes);
    var i := 0;
    assert forall b :: 0 <= b < |chains| ==> IsChain(oldBuckets[b], chains[b]);
    assert AllLinked(buckets, newChains, NodesBefore(nodes, |chains|, i));
    hide AllLinked, AllIn;
    while i < oldBuckets.Length
      invariant i <= oldBuckets.Length && oldBuckets.Length == |chains|
      invariant forall b :: i <= b < |chains| ==> IsChain(oldBuckets[b], chains[b])
      invariant |newChains| == buckets.Length && AllIn(newChains, NodesBefore(nodes, |chains|, i))
      invariant Distributed(newChains, NodesBefore(nodes, |chains|, i))
      invariant AllLinked(buckets, newChains, NodesBefore(nodes, |chains|, i))
    {
      NextBucket(chains, nodes, i);
      newChains := MoveChain(oldBuckets[i], chains[i], buckets, newChains, NodesBefore(nodes, |chains|, i));
      i := i + 1;
    }
  }

  lemma EmptyMap(buckets: array<Node?>, n: nat)
    requires 0 < n == buckets.Length && forall b :: 0 <= b < n ==> buckets[b] == null
    ensures AllIn(seq(n, _ => []), {}) && Distributed(seq(n, _ => []), {})
    ensures AllLinked(buckets, seq(n, _ => []), {})
    ensures Indexed(map[], {}) && Covers(map[], {}) && ValuesOf(map[], {}) == map[]
  {
  }

  lemma NoChains(n: nat)
    requires 0 < n
    ensures Distributed(seq(n, _ => []), {})
  {
  }

  method MoveNode(current: Node, b: nat, buckets: array<Node?>, ghost chains: seq<seq<Node>>, ghost moved: set<Node>)
    requires AllIn(chains, moved) && AllLinked(buckets, chains, moved) && current !in moved && b < buckets.Length
    modifies buckets, current`next
    ensures AllIn(chains[b := [current] + chains[b]], moved + {current})
    ensures AllLinked(buckets, chains[b := [current] + chains[b]], moved + {current})
  {
    current.next := buckets[b];
    PushHead(buckets, b, current, chains, moved);
  }

  lemma DistributedInsert(chains: seq<seq<Node>>, nodes: set<Node>, b: nat, node: Node)
    requires Distributed(chains, nodes) && node !in nodes
    requires b < |chains| && BucketIndex(node.hash, |chains|) == b
    ensures AllIn(chains[b := [node] + chains[b]], nodes + {node})
    ensures Distributed(chains[b := [node] + chains[b]], nodes + {node})
  {
    hide BucketIndex;
    assert IsDistinct([node] + chains[b]);
  }

  lemma ValuesOfInsert(index: map<Key, Node>, nodes: set<Node>, k: Key, node: Node)
    requires Covers(index, nodes)
    ensures Covers(index[k := node], nodes + {node})
    ensures ValuesOf(index[k := node], nodes + {node}) == ValuesOf(index, nodes)[k := node.value]
  {
  }

  lemma IndexedInsert(index: map<Key, Node>, nodes: set<Node>, node: Node)
    requires Indexed(index, nodes) && node !in nodes
    requires node.hash == Hash(node.key) && IsFindable(node.key) && Canonical(node.key) !in index
    ensures Indexed(index[Canonical(node.key) := node], nodes + {node})
    ensures Covers(index[Canonical(node.key) := node], nodes + {node})
  {
    hide Hash, IsFindable, Canonical;
  }

  function Without<T>(s: seq<T>, pos: nat): seq<T>
    requires pos < |s|
  {
    s[..pos] + s[pos + 1..]
  }

  lemma DistributedRemove(chains: seq<seq<Node>>, nodes: set<Node>, b: nat, pos: nat)
    requires Distributed(chains, nodes) && b < |chains| && pos < |chains[b]|
    ensures AllIn(chains[b := Without(chains[b], pos)], nodes - {chains[b][pos]})
    ensures Distributed(chains[b := Without(chains[b], pos)], nodes - {chains[b][pos]})
  {
    hide BucketIndex;
    assert IsDistinct(Without(chains[b], pos));
  }

  lemma IndexedRemove(index: map<Key, Node>, nodes: set<Node>, k: Key)
    requires Indexed(index, nodes) && k in index
    ensures Covers(index - {k}, nodes - {index[k]}) && Indexed(index - {k}, nodes - {index[k]})
  {
    hide Hash, IsFindable, Canonical;
  }

  lemma ValuesOfKeys(index: map<Key, Node>, nodes: set<Node>)
    requires Covers(index, nodes)
    ensures ValuesOf(index, nodes).Keys == index.Keys
  {
  }

  lemma ValuesOfRemove(index: map<Key, Node>, nodes: set<Node>, k: Key)
    requires Indexed(index, nodes) && Covers(index, nodes) && k in index && Covers(index - {k}, nodes - {index[k]})
    ensures ValuesOf(index - {k}, nodes - {index[k]}) == ValuesOf(index, nodes) - {k}
    ensures |index - {k}| == |index| - 1
  {
    assert index == (index - {k})[k := index[k]];
  }

  ghost function Just(node: Node?): set<Node> {
    if node == null then {} else {node}
  }

  /** map_remove takes a node out of its chain. */
  method UnlinkFromChain(buckets: array<Node?>, b: nat, node: Node, prev: Node?, ghost pos: nat, ghost chain: seq<Node>)
    requires b < buckets.Length && IsChain(buckets[b], chain) && IsDistinct(chain)
    requires pos < |chain| && node == chain[pos] && prev == if pos == 0 then null else chain[pos - 1]
    modifies buckets, Just(prev)`next
    ensures IsChain(buckets[b], Without(chain, pos))
    ensures forall c :: 0 <= c < buckets.Length && c != b ==> buckets[c] == old(buckets[c])
  {
    ghost var rest := Without(chain, pos);
    if prev == null {
      buckets[b] := node.next;
      assert forall j :: 0 <= j < |rest| ==> rest[j] == chain[j + 1];
    } else {
      prev.next := node.next;
      assert forall j :: 0 <= j < |rest| ==> rest[j] == chain[if j < pos then j else j + 1];
    }
  }

  lemma OtherChains(chains: seq<seq<Node>>, nodes: set<Node>, b: nat, node: Node?)
    requires Distributed(chains, nodes) && b < |chains| && (node == null || node in chains[b])
    ensures IsDistinct(chains[b])
    ensures forall c, j :: 0 <= c < |chains| && c != b && 0 <= j < |chains[c]| ==> chains[c][j] != node
  {
    hide BucketIndex;
  }

  method Unlink(buckets: array<Node?>, b: nat, node: Node, prev: Node?, ghost pos: nat,
                ghost chains: seq<seq<Node>>, ghost nodes: set<Node>)
    requires AllIn(chains, nodes) && Distributed(chains, nodes) && AllLinked(buckets, chains, nodes)
    requires b < |chains| && pos < |chains[b]| && node == chains[b][pos]
    requires prev == if pos == 0 then null else chains[b][pos - 1]
    requires AllIn(chains[b := Without(chains[b], pos)], nodes - {node})
    modifies buckets, Just(prev)`next
    ensures AllLinked(buckets, chains[b := Without(chains[b], pos)], nodes - {node})
  {
    hide Distributed, AllIn;
    OtherChains(chains, nodes, b, prev);
    assert IsChain(buckets[b], chains[b]);
    UnlinkFromChain(buckets, b, node, prev, pos, chains[b]);
    forall c | 0 <= c < |chains| && c != b ensures IsChain(buckets[c], chains[c]) {
      assert old(IsChain(buckets[c], chains[c]));
      assert forall j :: 0 <= j < |chains[c]| ==> chains[c][j] != prev;
    }
  }

  /** The loop over a chain that map_node_for, map_get, map_put and map_remove have in common */
  method Walk(head: Node?, key: Key, ghost chain: seq<Node>) returns (node: Node?, prev: Node?, ghost pos: nat)
    requires IsChain(head, chain)
    ensures pos <= |chain| && node == if pos < |chain| then chain[pos] else null
    ensures prev == if pos == 0 then null else chain[pos - 1]
    ensures forall j :: 0 <= j < pos ==> !EqualsKey(key, chain[j].key)
    ensures node != null ==> EqualsKey(key, node.key)
  {
    hide EqualsKey;
    pos, prev, node := 0, null, head;
    while node != null
      invariant pos <= |chain| && node == if pos < |chain| then chain[pos] else null
      invariant prev == if pos == 0 then null else chain[pos - 1]
      invariant forall j :: 0 <= j < pos ==> !EqualsKey(key, chain[j].key)
      decreases |chain| - pos
    {
      if EqualsKey(key, node.key) {
        return;
      }
      prev, node, pos := node, node.next, pos + 1;
    }
  }

  lemma BoundsArePow2()
    ensures IsPow2(MIN_NUM_BUCKETS) && IsPow2(MAX_NUM_BUCKETS)
    ensures MAX_NUM_BUCKETS < Collections.WordLimit()
  {
    MaxIsPow2();
    assert Pow2(4) == MIN_NUM_BUCKETS;
    Pow2Grows(28, Collections.WordBits());
  }

  lemma CreateIsRoomy(capacity: nat, n: nat)
    requires MIN_CAPACITY <= capacity <= MAX_CAPACITY
    requires MIN_NUM_BUCKETS <= n <= MAX_NUM_BUCKETS
    requires var wanted := Collections.Clamp(WantedBuckets(capacity), MIN_NUM_BUCKETS, MAX_NUM_BUCKETS);
             Collections.IsLeastPow2AtLeast(n, wanted)
    ensures IsBucketCount(n) && capacity <= FillCapacity(n)
    ensures n == 16 || 3 * n < 8 * capacity
  {
    LeastIsEnough(n, Collections.Clamp(WantedBuckets(capacity), MIN_NUM_BUCKETS, MAX_NUM_BUCKETS));
    if 16 < n {
      LeastIsTight(n, Collections.Clamp(WantedBuckets(capacity), MIN_NUM_BUCKETS, MAX_NUM_BUCKETS));
    }
    hide Collections.IsLeastPow2AtLeast, IsPow2;
    FourDivides(n);
    RoomForCapacity(capacity, n);
  }

  lemma LeastIsEnough(n: nat, wanted: nat)
    requires Collections.IsLeastPow2AtLeast(n, wanted)
    ensures IsPow2(n) && wanted <= n
  {
    hide Pow2;
  }

  /** Half as many would not be enough. */
  lemma LeastIsTight(n: nat, wanted: nat)
    requires Collections.IsLeastPow2AtLeast(n, wanted) && 16 <= wanted && 16 < n
    ensures n < 2 * wanted && 16 < wanted
  {
    var k: nat :| Pow2(k) == n;
    assert 0 < k && IsPow2(Pow2(k - 1));
    assert Pow2(4) == 16 && IsPow2(16);
  }

  lemma BucketsDivideByFour(n: nat)
    requires IsBucketCount(n)
    ensures 4 * FillCapacity(n) == 3 * n
  {
    FourDivides(n);
    var q := n / 4;
    assert n == 4 * q;
    assert n * 3 / 4 == 3 * q;
  }

  lemma RoomForCapacity(capacity: nat, n: nat)
    requires n % 4 == 0 && WantedBuckets(capacity) <= n
    ensures capacity <= FillCapacity(n)
  {
    var q := n / 4;
    assert n == 4 * q;
    assert 4 * capacity < 3 * n + 3;
    assert n * 3 / 4 == 3 * q;
  }

  lemma FourDivides(n: nat)
    requires IsPow2(n) && 4 <= n
    ensures n % 4 == 0
  {
    var k: nat :| Pow2(k) == n;
    assert k != 0 && Pow2(k) == 2 * Pow2(k - 1);
    assert k - 1 != 0 && Pow2(k - 1) == 2 * Pow2(k - 2);
  }

  // ---------------------------------------------------------------------------------------------
  //  Runs
  // ---------------------------------------------------------------------------------------------

  /** An operation that changes a map; a key that can never be found again must not be put. */
  datatype MapOp = PutOp(key: Key, value: Value) | RemoveOp(key: Key) | ClearOp

  /** What an operation does to a finite map */
  function Effect(m: map<Key, Value>, op: MapOp): map<Key, Value> {
    match op
    case PutOp(key, value) => m[Canonical(key) := value]
    case RemoveOp(key) => if IsFindable(key) then m - {Canonical(key)} else m
    case ClearOp => map[]
  }

  /** A put under one key changes what another key finds iff the two are the same, or zeros of either sign. */
  lemma PutReachesEqualKeys(m: map<Key, Value>, put: Key, value: Value, key: Key)
    requires IsFindable(put)
    ensures Lookup(Effect(m, PutOp(put, value)), key)
         == if key == put || AreZeros(put, key) then value else Lookup(m, key)
  {
    EqualKeys(put, key);
    EqualKeysAreCanonical(put, key);
  }

  /** So does a removal. */
  lemma RemoveReachesEqualKeys(m: map<Key, Value>, removed: Key, key: Key)
    ensures Lookup(Effect(m, RemoveOp(removed)), key)
         == if key == removed || AreZeros(removed, key) then NullValue else Lookup(m, key)
  {
    EqualKeys(removed, key);
    EqualKeysAreCanonical(removed, key);
  }

  function Effects(ops: seq<MapOp>): map<Key, Value> {
    if ops == [] then map[] else Effect(Effects(ops[..|ops| - 1]), ops[|ops| - 1])
  }

  method Apply(hashMap: HashMap, op: MapOp)
    requires hashMap.Valid() && (op.PutOp? ==> IsFindable(op.key))
    modifies hashMap, hashMap.buckets, hashMap.nodes
    ensures hashMap.Valid() && fresh(hashMap.Repr() - old(hashMap.Repr()))
    ensures hashMap.Contents() == Effect(old(hashMap.Contents()), op)
    ensures hashMap.size <= old(hashMap.size) + 1
    ensures old(hashMap.size) < old(hashMap.fillCapacity) ==>
              hashMap.buckets == old(hashMap.buckets) && hashMap.fillCapacity == old(hashMap.fillCapacity)
  {
    hide Distributed, Indexed, AllIn, AllLinked, IsPow2, ValuesOf, IsFindable, Canonical;
    match op {
      case PutOp(key, value) => hashMap.Put(key, value);
      case RemoveOp(key) => hashMap.Remove(key);
      case ClearOp => hashMap.Clear();
    }
  }

  /** Any run of operations on a new map, with whatever rehashes it brings, leaves the finite map that the same
      operations leave; and as many puts as were asked for at the start go by without a rehash. */
  method Run(initialCapacity: nat, ops: seq<MapOp>) returns (hashMap: HashMap, rehashed: bool)
    requires initialCapacity < Collections.WordLimit()
    requires forall op <- ops :: op.PutOp? ==> IsFindable(op.key)
    ensures fresh(hashMap) && hashMap.Valid() && hashMap.Contents() == Effects(ops)
    ensures |ops| <= Min(initialCapacity, MAX_CAPACITY) ==> !rehashed
  {
    hide Distributed, Indexed, AllIn, AllLinked, IsBucketCount, FillCapacity, ValuesOf, IsFindable, Effect;
    hashMap := new HashMap(initialCapacity);
    rehashed := false;
    var i := 0;
    while i < |ops|
      invariant i <= |ops| && hashMap.Valid() && fresh(hashMap.Repr())
      invariant hashMap.Contents() == Effects(ops[..i])
      invariant !rehashed ==> hashMap.size <= i && Min(initialCapacity, MAX_CAPACITY) <= hashMap.fillCapacity
      invariant i <= Min(initialCapacity, MAX_CAPACITY) ==> !rehashed
      decreases |ops| - i
    {
      var before := hashMap.buckets;
      Apply(hashMap, ops[i]);
      rehashed := rehashed || hashMap.buckets != before;
      assert ops[..i + 1][..i] == ops[..i];
      i := i + 1;
    }
    assert ops[..i] == ops;
  }
}
