/** string_counter.c: a hash map from strings to counts, and the string pool that such a counter makes for the
    string values of another hash map. */
module StringPools {
  import opened Bytes
  import opened HashKeys
  import opened HashMaps
  import Collections

  const LONG_MAX: int := 0x7FFF_FFFF_FFFF_FFFF

  /** The keys and values of a counter */
  predicate IsCounts(counts: map<Key, Value>) {
    forall k <- counts :: k.StringKey? && counts[k].LongValue?
  }

  function CountOf(counts: map<Key, Value>, s: CText): Int64
    requires IsCounts(counts)
  {
    if StringKey(s) in counts then counts[StringKey(s)].long else 0
  }

  /** One more reference to s */
  function Referenced(counts: map<Key, Value>, s: CText): map<Key, Value>
    requires IsCounts(counts) && CountOf(counts, s) < LONG_MAX
  {
    counts[StringKey(s) := LongValue(CountOf(counts, s) + 1)]
  }

  /** One reference less; a string whose count was 1 leaves the map. */
  function Unreferenced(counts: map<Key, Value>, s: CText): map<Key, Value>
    requires IsCounts(counts) && (StringKey(s) in counts ==> -LONG_MAX <= CountOf(counts, s))
  {
    if StringKey(s) !in counts then counts
    else if CountOf(counts, s) == 1 then counts - {StringKey(s)}
    else counts[StringKey(s) := LongValue(CountOf(counts, s) - 1)]
  }

  class StringCounter {
    const hashMap: HashMap

    ghost predicate Valid()
      reads this, hashMap, hashMap.buckets, hashMap.nodes
    {
      hashMap.Valid() && IsCounts(hashMap.Contents())
    }

    ghost function Counts(): map<Key, Value>
      requires Valid()
      reads this, hashMap, hashMap.buckets, hashMap.nodes
    {
      hashMap.Contents()
    }

    /** sct_create */
    constructor (numBuckets: nat)
      requires numBuckets < Collections.WordLimit()
      ensures Valid() && Counts() == map[] && fresh(hashMap) && fresh(hashMap.Repr())
    {
      hashMap := new HashMap(numBuckets);
    }

    /** sct_get_count */
    method GetCount(s: CText) returns (count: Int64)
      requires Valid()
      ensures count == CountOf(Counts(), s)
    {
      hide Distributed, Indexed, AllIn, AllLinked, IsBucketCount, FillCapacity, ValuesOf, Covers;
      var value := hashMap.Get(StringKey(s));
      count := if value.LongValue? then value.long else 0;
    }

    /** sct_put */
    method Put(s: CText, count: Int64)
      requires Valid()
      modifies hashMap, hashMap.buckets, hashMap.nodes
      ensures Valid() && fresh(hashMap.Repr() - old(hashMap.Repr()))
      ensures Counts() == old(Counts())[StringKey(s) := LongValue(count)]
    {
      hide Distributed, Indexed, AllIn, AllLinked, IsBucketCount, FillCapacity, ValuesOf, Covers;
      hashMap.Put(StringKey(s), LongValue(count));
    }

    /** sct_remove */
    method Remove(s: CText)
      requires Valid()
      modifies hashMap, hashMap.buckets, hashMap.nodes
      ensures Valid() && hashMap.Repr() <= old(hashMap.Repr())
      ensures Counts() == old(Counts()) - {StringKey(s)}
    {
      hide Distributed, Indexed, AllIn, AllLinked, IsBucketCount, FillCapacity, ValuesOf, Covers;
      hashMap.Remove(StringKey(s));
    }

    /** sct_ref: the pooled string, which equals s */
    method Ref(s: CText) returns (pooled: CText)
      requires Valid() && CountOf(Counts(), s) < 0x7FFF_FFFF_FFFF_FFFF
      modifies hashMap, hashMap.buckets, hashMap.nodes
      ensures Valid() && fresh(hashMap.Repr() - old(hashMap.Repr()))
      ensures Counts() == Referenced(old(Counts()), s) && pooled == s
    {
      hide Distributed, Indexed, AllIn, AllLinked, IsBucketCount, FillCapacity, ValuesOf, Covers;
      var node := hashMap.NodeFor(StringKey(s));
      if node == null {
        Put(s, 1);
        node := hashMap.NodeFor(StringKey(s));
      } else {
        hashMap.SetValue(node, LongValue(node.value.long + 1));
      }
      pooled := node.key.text;
    }

    /** sct_unref */
    method Unref(s: CText)
      requires Valid() && -0x7FFF_FFFF_FFFF_FFFF <= CountOf(Counts(), s)
      modifies hashMap, hashMap.buckets, hashMap.nodes
      ensures Valid() && fresh(hashMap.Repr() - old(hashMap.Repr()))
      ensures Counts() == Unreferenced(old(Counts()), s)
    {
      hide Distributed, Indexed, AllIn, AllLinked, IsBucketCount, FillCapacity, ValuesOf, Covers;
      var node := hashMap.NodeFor(StringKey(s));
      if node == null {
        return;
      }
      if node.value.long - 1 == 0 {
        Remove(s);
      } else {
        hashMap.SetValue(node, LongValue(node.value.long - 1));
      }
    }
  }

  // ---------------------------------------------------------------------------------------------
  //  Conservation
  // ---------------------------------------------------------------------------------------------

  /** The keys that are mapped to the string s */
  ghost function Users(m: map<Key, Value>, s: CText): set<Key> {
    set k | k in m && m[k] == StringValue(s)
  }

  /** The pool holds every string that is a value of the map, with the number of its keys, and no other string. */
  ghost predicate Conserved(m: map<Key, Value>, counts: map<Key, Value>) {
    && IsCounts(counts)
    && forall s: CText :: (StringKey(s) in counts <==> Users(m, s) != {}) && CountOf(counts, s) == |Users(m, s)|
  }

  /** What freeing a value does to the pool */
  function Freed(counts: map<Key, Value>, v: Value): map<Key, Value>
    requires IsCounts(counts)
    requires v.StringValue? && StringKey(v.text) in counts ==> -LONG_MAX <= CountOf(counts, v.text)
  {
    if v.StringValue? then Unreferenced(counts, v.text) else counts
  }

  /** What storing a value does to the pool */
  function Stored(counts: map<Key, Value>, v: Value): map<Key, Value>
    requires IsCounts(counts)
    requires v.StringValue? ==> CountOf(counts, v.text) < LONG_MAX
  {
    if v.StringValue? then Referenced(counts, v.text) else counts
  }

  lemma UsersWithout(m: map<Key, Value>, k: Key, s: CText)
    requires k in m
    ensures Users(m - {k}, s) == Users(m, s) - {k}
    ensures |Users(m - {k}, s)| == |Users(m, s)| - if m[k] == StringValue(s) then 1 else 0
  {
    assert m[k] != StringValue(s) ==> Users(m - {k}, s) == Users(m, s);
  }

  lemma UsersWith(m: map<Key, Value>, k: Key, v: Value, s: CText)
    requires k !in m
    ensures Users(m[k := v], s) == Users(m, s) + if v == StringValue(s) then {k} else {}
    ensures |Users(m[k := v], s)| == |Users(m, s)| + if v == StringValue(s) then 1 else 0
  {
    if v == StringValue(s) {
      assert Users(m[k := v], s) == Users(m, s) + {k};
    } else {
      assert Users(m[k := v], s) == Users(m, s);
    }
  }

  lemma UsersAreKeys(m: map<Key, Value>, s: CText)
    ensures Users(m, s) <= m.Keys && |Users(m, s)| <= |m|
  {
    SubsetIsSmaller(Users(m, s), m.Keys);
  }

  lemma {:induction false} SubsetIsSmaller<T>(a: set<T>, b: set<T>)
    requires a <= b
    ensures |a| <= |b|
  {
    if a != {} {
      var x :| x in a;
      SubsetIsSmaller(a - {x}, b - {x});
    }
  }

  /** Taking a key out of the map and freeing its value keeps the balance. */
  lemma FreeConserves(m: map<Key, Value>, counts: map<Key, Value>, k: Key)
    requires Conserved(m, counts) && k in m
    ensures Conserved(m - {k}, Freed(counts, m[k]))
  {
    hide Users;
    var after := Freed(counts, m[k]);
    forall s: CText
      ensures (StringKey(s) in after <==> Users(m - {k}, s) != {}) && CountOf(after, s) == |Users(m - {k}, s)|
    {
      UsersWithout(m, k, s);
    }
  }

  /** While a value is overwritten, its pooled string outlives the release exactly if its count was not 1, that is, if
      another key has the same string. Otherwise a caller who passes the pointer that the pool handed out for the old
      value, as in putting back what was got, passes freed memory. */
  lemma FreedStringSurvives(m: map<Key, Value>, counts: map<Key, Value>, k: Key)
    requires Conserved(m, counts) && k in m && m[k].StringValue?
    ensures var survives := StringKey(m[k].text) in Freed(counts, m[k]);
            && (survives <==> CountOf(counts, m[k].text) != 1)
            && (survives <==> exists j :: j in m && j != k && m[j] == m[k])
  {
    var s := m[k].text;
    FreeConserves(m, counts, k);
    assert k in Users(m, s);
    if Users(m - {k}, s) != {} {
      var j :| j in Users(m - {k}, s);
      assert j in m && j != k && m[j] == m[k];
    }
    if j :| j in m && j != k && m[j] == m[k] {
      assert j in Users(m - {k}, s);
    }
    UsersWithout(m, k, s);
  }

  /** The string of an only key is gone when its value has been freed. */
  lemma OnlyStringIsGone(k: Key, s: CText)
    ensures var m: map<Key, Value> := map[k := StringValue(s)];
            var counts: map<Key, Value> := map[StringKey(s) := LongValue(1)];
            Conserved(m, counts) && StringKey(s) !in Freed(counts, m[k])
  {
    var m: map<Key, Value> := map[k := StringValue(s)];
    var counts: map<Key, Value> := map[StringKey(s) := LongValue(1)];
    forall t: CText
      ensures (StringKey(t) in counts <==> Users(m, t) != {}) && CountOf(counts, t) == |Users(m, t)|
    {
      assert Users(m, t) == if t == s then {k} else {};
    }
  }

  /** Storing a value for a new key keeps the balance. */
  lemma StoreConserves(m: map<Key, Value>, counts: map<Key, Value>, k: Key, v: Value)
    requires Conserved(m, counts) && k !in m
    requires v.StringValue? ==> CountOf(counts, v.text) < LONG_MAX
    ensures Conserved(m[k := v], Stored(counts, v))
  {
    hide Users;
    var after := Stored(counts, v);
    forall s: CText
      ensures (StringKey(s) in after <==> Users(m[k := v], s) != {}) && CountOf(after, s) == |Users(m[k := v], s)|
    {
      UsersWith(m, k, v, s);
    }
  }

  /** Freeing the value of a key and storing another one for it keeps the balance, and no count overflows. */
  lemma OverwriteConserves(m: map<Key, Value>, counts: map<Key, Value>, k: Key, v: Value)
    requires Conserved(m, counts) && k in m && |m| < LONG_MAX
    ensures forall s: CText :: 0 <= CountOf(counts, s)
    ensures var freed := Freed(counts, m[k]);
            && IsCounts(freed)
            && (forall s: CText :: CountOf(freed, s) < LONG_MAX)
            && Conserved(m[k := v], Stored(freed, v))
  {
    hide Users, Stored;
    CountsFit(m, counts);
    FreeConserves(m, counts, k);
    CountsFit(m - {k}, Freed(counts, m[k]));
    StoreConserves(m - {k}, Freed(counts, m[k]), k, v);
    assert (m - {k})[k := v] == m[k := v];
  }

  lemma EmptyIsConserved()
    ensures Conserved(map[], map[])
  {
    assert forall s: CText :: Users(map[], s) == {};
  }

  // ---------------------------------------------------------------------------------------------
  //  A map with a string pool
  // ---------------------------------------------------------------------------------------------

  class PooledMap {
    const hashMap: HashMap
    const pool: StringCounter

    ghost predicate Valid()
      reads this, hashMap, hashMap.buckets, hashMap.nodes
      reads pool, pool.hashMap, pool.hashMap.buckets, pool.hashMap.nodes
    {
      && hashMap.Valid() && pool.Valid() && hashMap.Repr() !! pool.hashMap.Repr()
      && Conserved(hashMap.Contents(), pool.Counts())
    }

    /** map_create_using_stringpool */
    constructor (numBuckets: nat)
      requires numBuckets < Collections.WordLimit()
      ensures Valid() && Contents() == map[]
      ensures fresh(hashMap.Repr()) && fresh(pool) && fresh(pool.hashMap.Repr())
    {
      hide Distributed, Indexed, AllIn, AllLinked, IsBucketCount, FillCapacity, ValuesOf, Covers;
      hide Conserved;
      EmptyIsConserved();
      hashMap := new HashMap(numBuckets);
      pool := new StringCounter(numBuckets);
    }

    /** map_policy_value_free_unref_from_stringpool */
    method FreeValue(value: Value)
      requires pool.Valid() && (value.StringValue? ==> -LONG_MAX <= CountOf(pool.Counts(), value.text))
      modifies pool.hashMap, pool.hashMap.buckets, pool.hashMap.nodes
      ensures pool.Valid() && fresh(pool.hashMap.Repr() - old(pool.hashMap.Repr()))
      ensures pool.Counts() == Freed(old(pool.Counts()), value)
    {
      if value.StringValue? {
        pool.Unref(value.text);
      }
    }

    /** map_policy_value_add_to_stringpool */
    method StoredValue(value: Value) returns (stored: Value)
      requires pool.Valid() && (value.StringValue? ==> CountOf(pool.Counts(), value.text) < LONG_MAX)
      modifies pool.hashMap, pool.hashMap.buckets, pool.hashMap.nodes
      ensures pool.Valid() && fresh(pool.hashMap.Repr() - old(pool.hashMap.Repr()))
      ensures pool.Counts() == Stored(old(pool.Counts()), value) && stored == value
    {
      stored := value;
      if value.StringValue? {
        var pooled := pool.Ref(value.text);
        stored := StringValue(pooled);
      }
    }

    ghost function Contents(): map<Key, Value>
      requires Valid()
      reads this, hashMap, hashMap.buckets, hashMap.nodes
      reads pool, pool.hashMap, pool.hashMap.buckets, pool.hashMap.nodes
    {
      hashMap.Contents()
    }

    /** No count can overflow. */
    ghost predicate HasRoom()
      requires Valid()
      reads this, hashMap, hashMap.buckets, hashMap.nodes
      reads pool, pool.hashMap, pool.hashMap.buckets, pool.hashMap.nodes
    {
      |Contents()| < 0x7FFF_FFFF_FFFF_FFFF
    }

    lemma InBalance()
      requires Valid()
      ensures pool.Valid() && Conserved(Contents(), pool.Counts())
    {
    }

    /** map_put with the string pool's value policy */
    method Put(key: Key, value: Value)
      requires Valid() && IsFindable(key) && HasRoom()
      modifies hashMap, hashMap.buckets, hashMap.nodes
      modifies pool.hashMap, pool.hashMap.buckets, pool.hashMap.nodes
      ensures Valid()
      ensures fresh(hashMap.Repr() - old(hashMap.Repr())) && fresh(pool.hashMap.Repr() - old(pool.hashMap.Repr()))
      ensures Contents() == old(Contents())[Canonical(key) := value]
    {
      hide Distributed, Indexed, AllIn, AllLinked, IsBucketCount, FillCapacity, ValuesOf, Covers;
      hide Conserved, Users, IsFindable, Canonical, HashKeys.Hash, HashMap.Valid, StringCounter.Valid, Freed, Stored;
      hide IsCounts, CountOf, IsDistinct;
      hashMap.MakeRoom();
      var hashcode := MapHashFunction(key);
      var node := hashMap.NodeFor(key);
      hashMap.ContentsAt(key);
      if node != null {
        Overwrite(key, node, value);
      } else {
        Add(key, hashcode, value);
      }
    }

    /** map_put for a key that is in the map: the value that is replaced is freed before the new one is stored. */
    method Overwrite(key: Key, node: Node, value: Value)
      requires Valid() && HasRoom() && Canonical(key) in hashMap.Contents()
      requires node in hashMap.nodes && Canonical(node.key) == Canonical(key)
      requires node.value == hashMap.Contents()[Canonical(key)]
      modifies hashMap, hashMap.buckets, hashMap.nodes
      modifies pool.hashMap, pool.hashMap.buckets, pool.hashMap.nodes
      ensures Valid()
      ensures fresh(hashMap.Repr() - old(hashMap.Repr())) && fresh(pool.hashMap.Repr() - old(pool.hashMap.Repr()))
      ensures Contents() == old(Contents())[Canonical(key) := value]
    {
      hide Distributed, Indexed, AllIn, AllLinked, IsBucketCount, FillCapacity, ValuesOf, Covers;
      hide Conserved, Users, IsFindable, Canonical, HashKeys.Hash, HashMap.Valid, StringCounter.Valid, Freed, Stored;
      OverwriteConserves(hashMap.Contents(), pool.Counts(), Canonical(key), value);
      FreeValue(node.value);
      var stored := StoredValue(value);
      hashMap.SetValue(node, stored);
    }

    /** map_put for a new key */
    method Add(key: Key, hashcode: Word, value: Value)
      requires Valid() && HasRoom() && IsFindable(key) && hashcode == HashKeys.Hash(key)
      requires Canonical(key) !in hashMap.index && Canonical(key) !in hashMap.Contents()
      requires hashMap.numBuckets < MAX_NUM_BUCKETS ==> hashMap.size < hashMap.fillCapacity
      modifies hashMap, hashMap.buckets, hashMap.nodes
      modifies pool.hashMap, pool.hashMap.buckets, pool.hashMap.nodes
      ensures Valid()
      ensures fresh(hashMap.Repr() - old(hashMap.Repr())) && fresh(pool.hashMap.Repr() - old(pool.hashMap.Repr()))
      ensures Contents() == old(Contents())[Canonical(key) := value]
    {
      hide Distributed, Indexed, AllIn, AllLinked, IsBucketCount, FillCapacity, ValuesOf, Covers;
      hide Conserved, Users, IsFindable, Canonical, HashKeys.Hash, HashMap.Valid, StringCounter.Valid, Freed, Stored;
      CountsFit(hashMap.Contents(), pool.Counts());
      StoreConserves(hashMap.Contents(), pool.Counts(), Canonical(key), value);
      var stored := StoredValue(value);
      hashMap.Insert(key, hashcode, stored);
    }

    /** map_remove with the string pool's value policy */
    method Remove(key: Key)
      requires Valid()
      modifies hashMap, hashMap.buckets, hashMap.nodes
      modifies pool.hashMap, pool.hashMap.buckets, pool.hashMap.nodes
      ensures Valid()
      ensures fresh(hashMap.Repr() - old(hashMap.Repr())) && fresh(pool.hashMap.Repr() - old(pool.hashMap.Repr()))
      ensures Contents() == if IsFindable(key) then old(Contents()) - {Canonical(key)} else old(Contents())
    {
      hide Distributed, Indexed, AllIn, AllLinked, IsBucketCount, FillCapacity, ValuesOf, Covers;
      hide Conserved, Users, IsFindable, Canonical, HashKeys.Hash, HashMap.Valid, StringCounter.Valid, Freed, Stored;
      ghost var m, counts := hashMap.Contents(), pool.Counts();
      CountsAreNatural(m, counts);
      var node, prev, pos := hashMap.Find(key);
      if node != null {
        hashMap.ContentsAt(key);
        FreeConserves(m, counts, Canonical(key));
        var value := node.value;
        hashMap.RemoveNode(key, node, prev, pos);
        FreeValue(value);
      } else {
        hashMap.ContentsAt(key);
        assert Canonical(key) !in m ==> m - {Canonical(key)} == m;
      }
    }

    /** The pool is in balance with the part of the map whose nodes have not been destroyed yet. */
    ghost predicate ConservedWithout(destroyed: set<Node>)
      reads this, hashMap, hashMap.buckets, hashMap.nodes
      reads pool, pool.hashMap, pool.hashMap.buckets, pool.hashMap.nodes
    {
      && hashMap.Valid() && pool.Valid() && hashMap.Repr() !! pool.hashMap.Repr()
      && Conserved(Rest(hashMap.Contents(), hashMap.index, hashMap.nodes - destroyed), pool.Counts())
    }

    /** map_destroy_node with the string pool's value policy */
    method FreeNode(node: Node, ghost destroyed: set<Node>)
      requires ConservedWithout(destroyed) && node in hashMap.nodes && node !in destroyed
      modifies pool.hashMap, pool.hashMap.buckets, pool.hashMap.nodes
      ensures ConservedWithout(destroyed + {node}) && fresh(pool.hashMap.Repr() - old(pool.hashMap.Repr()))
    {
      hide HashMap.Valid, StringCounter.Valid, Conserved, Users, Canonical, Freed, Rest, ValuesOf;
      ghost var rest := Rest(hashMap.Contents(), hashMap.index, hashMap.nodes - destroyed);
      hashMap.ContentsKeys();
      hashMap.ContentsAt(node.key);
      RestStep(hashMap.Contents(), hashMap.index, hashMap.nodes, destroyed, node);
      CountsAreNatural(rest, pool.Counts());
      FreeConserves(rest, pool.Counts(), Canonical(node.key));
      FreeValue(node.value);
    }

    /** The walk of map_clear along a chain */
    method FreeNodes(head: Node?, ghost chain: seq<Node>, ghost destroyed: set<Node>)
      requires ConservedWithout(destroyed) && IsChain(head, chain) && IsDistinct(chain)
      requires NodesOf(chain) <= hashMap.nodes && forall n <- chain :: n !in destroyed
      modifies pool.hashMap, pool.hashMap.buckets, pool.hashMap.nodes
      ensures ConservedWithout(destroyed + NodesOf(chain))
      ensures fresh(pool.hashMap.Repr() - old(pool.hashMap.Repr()))
    {
      hide HashMap.Valid, StringCounter.Valid, Conserved, Rest, NodesOf, Distributed, AllLinked, AllIn, IsDistinct;
      hide Indexed, Covers, ValuesOf, IsFindable, Canonical, HashKeys.Hash, IsBucketCount, FillCapacity;
      assert destroyed + NodesOf(chain[..0]) == destroyed by {
        assert chain[..0] == [];
        NodesOfNone();
      }
      var current := head;
      ghost var k := 0;
      while current != null
        invariant k <= |chain| && current == if k < |chain| then chain[k] else null
        invariant ConservedWithout(destroyed + NodesOf(chain[..k]))
        invariant fresh(pool.hashMap.Repr() - old(pool.hashMap.Repr()))
        decreases |chain| - k
      {
        hide ConservedWithout;
        StepMoved(chain, k, destroyed);
        var next := current.next;
        FreeNode(current, destroyed + NodesOf(chain[..k]));
        current, k := next, k + 1;
      }
      assert chain[..k] == chain;
    }

    /** The inner loop of map_clear */
    method FreeChain(b: nat, ghost destroyed: set<Node>)
      requires ConservedWithout(destroyed) && b < hashMap.numBuckets == |hashMap.chains|
      requires destroyed == NodesBefore(hashMap.nodes, hashMap.numBuckets, b)
      modifies pool.hashMap, pool.hashMap.buckets, pool.hashMap.nodes
      ensures ConservedWithout(destroyed + NodesOf(hashMap.chains[b]))
      ensures fresh(pool.hashMap.Repr() - old(pool.hashMap.Repr()))
    {
      hide HashMap.Valid, StringCounter.Valid, Conserved, Rest, NodesOf, NodesBefore, Distributed, AllLinked, AllIn;
      hide Indexed, Covers, ValuesOf, IsFindable, Canonical, HashKeys.Hash, IsBucketCount, FillCapacity;
      hashMap.ChainsAreDistributed();
      NextBucket(hashMap.chains, hashMap.nodes, b);
      hashMap.BucketIsChain(b);
      FreeNodes(hashMap.buckets[b], hashMap.chains[b], destroyed);
    }

    /** map_clear with the string pool's value policy */
    method Clear()
      requires Valid()
      modifies hashMap, hashMap.buckets
      modifies pool.hashMap, pool.hashMap.buckets, pool.hashMap.nodes
      ensures Valid() && Contents() == map[]
      ensures fresh(hashMap.Repr() - old(hashMap.Repr())) && fresh(pool.hashMap.Repr() - old(pool.hashMap.Repr()))
    {
      hide HashMap.Valid, StringCounter.Valid, Conserved, Rest, NodesOf, NodesBefore, Distributed, AllLinked, AllIn;
      hide Indexed, Covers, ValuesOf, IsFindable, Canonical, HashKeys.Hash, IsBucketCount, FillCapacity;
      ghost var chains, nodes := hashMap.chains, hashMap.nodes;
      hashMap.ChainsAreDistributed();
      hashMap.ContentsKeys();
      AllBuckets(chains, nodes);
      RestOfAll(hashMap.Contents(), hashMap.index, nodes);
      assert nodes - {} == nodes && nodes - nodes == {};
      var i := 0;
      while i < hashMap.numBuckets
        invariant i <= hashMap.numBuckets == |chains| && ConservedWithout(NodesBefore(nodes, |chains|, i))
        invariant fresh(pool.hashMap.Repr() - old(pool.hashMap.Repr()))
        modifies pool.hashMap, pool.hashMap.buckets, pool.hashMap.nodes
      {
        NextBucket(chains, nodes, i);
        FreeChain(i, NodesBefore(nodes, |chains|, i));
        i := i + 1;
      }
      hashMap.Clear();
    }
  }

  /** The part of a map whose nodes are left */
  ghost function Rest(m: map<Key, Value>, index: map<Key, Node>, left: set<Node>): map<Key, Value> {
    map k | k in m && k in index && index[k] in left :: m[k]
  }

  lemma RestOfAll(m: map<Key, Value>, index: map<Key, Node>, nodes: set<Node>)
    requires m.Keys == index.Keys && Covers(index, nodes)
    ensures Rest(m, index, nodes) == m && Rest(m, index, {}) == map[]
  {
  }

  lemma RestStep(m: map<Key, Value>, index: map<Key, Node>, nodes: set<Node>, moved: set<Node>, n: Node)
    requires Indexed(index, nodes) && n in nodes && n !in moved && m.Keys == index.Keys
    ensures Canonical(n.key) in Rest(m, index, nodes - moved)
    ensures Rest(m, index, nodes - moved)[Canonical(n.key)] == m[Canonical(n.key)]
    ensures index[Canonical(n.key)] == n
    ensures Rest(m, index, nodes - (moved + {n})) == Rest(m, index, nodes - moved) - {Canonical(n.key)}
  {
    hide Canonical, IsFindable, HashKeys.Hash;
  }

  lemma CountsAreNatural(m: map<Key, Value>, counts: map<Key, Value>)
    requires Conserved(m, counts)
    ensures forall s: CText :: 0 <= CountOf(counts, s)
  {
  }

  /** Counts that are in balance with a map are at most its size. */
  lemma CountsFit(m: map<Key, Value>, counts: map<Key, Value>)
    requires Conserved(m, counts) && |m| < LONG_MAX
    ensures forall s: CText :: 0 <= CountOf(counts, s) < LONG_MAX
  {
    forall s: CText ensures 0 <= CountOf(counts, s) < LONG_MAX {
      UsersAreKeys(m, s);
    }
  }

  // ---------------------------------------------------------------------------------------------
  //  Runs
  // ---------------------------------------------------------------------------------------------

  lemma {:induction false} EffectsAreFew(ops: seq<MapOp>)
    ensures |Effects(ops)| <= |ops|
  {
    if ops != [] {
      var m, op := Effects(ops[..|ops| - 1]), ops[|ops| - 1];
      EffectsAreFew(ops[..|ops| - 1]);
      if op.RemoveOp? && IsFindable(op.key) {
        SubsetIsSmaller((m - {Canonical(op.key)}).Keys, m.Keys);
      }
    }
  }

  method Apply(pm: PooledMap, op: MapOp)
    requires pm.Valid() && pm.HasRoom() && (op.PutOp? ==> IsFindable(op.key))
    modifies pm.hashMap, pm.hashMap.buckets, pm.hashMap.nodes
    modifies pm.pool.hashMap, pm.pool.hashMap.buckets, pm.pool.hashMap.nodes
    ensures pm.Valid() && pm.Contents() == Effect(old(pm.Contents()), op)
    ensures fresh(pm.hashMap.Repr() - old(pm.hashMap.Repr()))
    ensures fresh(pm.pool.hashMap.Repr() - old(pm.pool.hashMap.Repr()))
  {
    hide HashMap.Valid, StringCounter.Valid, Conserved, IsFindable, Canonical;
    match op {
      case PutOp(key, value) => pm.Put(key, value);
      case RemoveOp(key) => pm.Remove(key);
      case ClearOp => pm.Clear();
    }
  }

  /** After any run of puts, removes and clears on a map with a string pool, the pool's count of every string is
      the number of keys that are mapped to it, and a string is in the pool exactly when there are any. */
  method Run(numBuckets: nat, ops: seq<MapOp>) returns (pm: PooledMap)
    requires numBuckets < Collections.WordLimit() && |ops| < LONG_MAX
    requires forall op <- ops :: op.PutOp? ==> IsFindable(op.key)
    ensures pm.Valid() && pm.Contents() == Effects(ops)
    ensures pm.pool.Valid() && Conserved(Effects(ops), pm.pool.Counts())
  {
    hide PooledMap.Valid, HashMap.Valid, StringCounter.Valid, Conserved, IsFindable, Effect, PooledMap.Contents;
    pm := new PooledMap(numBuckets);
    var i := 0;
    while i < |ops|
      invariant i <= |ops| && pm.Valid() && pm.Contents() == Effects(ops[..i])
      invariant fresh(pm) && fresh(pm.hashMap.Repr()) && fresh(pm.pool.hashMap.Repr())
    {
      EffectsAreFew(ops[..i]);
      Apply(pm, ops[i]);
      assert ops[..i + 1][..i] == ops[..i];
      i := i + 1;
    }
    assert ops[..i] == ops;
    pm.InBalance();
  }
}
