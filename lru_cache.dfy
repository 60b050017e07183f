/**
 * LRUCache: a fixed-capacity key-value cache with least-recently-used
 * eviction. The C++ class keeps a std::list of nodes (front = most recently
 * used) and an unordered_map from each key to an iterator into that list.
 * Here the list's node storage is a map from node ids to nodes, the list
 * itself is the sequence of node ids from front to back, and an iterator is
 * a node id: it stays valid while its node is in the list, as a std::list
 * iterator does.
 */
module LruCache {
  import opened Results
  import opened LruModel

  /** The default argument of the C++ constructor. */
  const DefaultCapacity: nat := 10

  /** The nodes that a list of node ids designates, front to back. */
  ghost function Resolve<K, V>(ids: seq<nat>, nodes: map<nat, CacheNode<K, V>>): seq<CacheNode<K, V>>
    requires forall i :: 0 <= i < |ids| ==> ids[i] in nodes
  {
    seq(|ids|, i requires 0 <= i < |ids| => nodes[ids[i]])
  }

  /** Where a node id sits in the list (the position behind an iterator). */
  function IndexOf(ids: seq<nat>, id: nat): (i: nat)
    requires id in ids
    ensures i < |ids| && ids[i] == id
  {
    if ids[0] == id then 0 else 1 + IndexOf(ids[1..], id)
  }

  /**
   * The cache invariant on the raw fields: node ids in the list are distinct,
   * allocated and below the next fresh id; the list's size is within capacity
   * and equals the index's; each listed node's key is indexed to that node,
   * and each indexed key leads to a listed node holding that key.
   */
  ghost predicate Consistent<K, V>(capacity: nat, ids: seq<nat>, nodes: map<nat, CacheNode<K, V>>,
                                   index: map<K, nat>, nextId: nat)
  {
    && capacity >= 1
    && |ids| <= capacity
    && |index| == |ids|
    && (forall i, j :: 0 <= i < j < |ids| ==> ids[i] != ids[j])
    && (forall i :: 0 <= i < |ids| ==> ids[i] in nodes)
    && (forall id :: id in nodes ==> id < nextId)
    && (forall i :: 0 <= i < |ids| ==> nodes[ids[i]].key in index && index[nodes[ids[i]].key] == ids[i])
    && (forall k :: k in index ==> index[k] in ids && index[k] in nodes && nodes[index[k]].key == k)
  }

  lemma EntriesDistinct<K, V>(capacity: nat, ids: seq<nat>, nodes: map<nat, CacheNode<K, V>>,
                              index: map<K, nat>, nextId: nat)
    requires Consistent(capacity, ids, nodes, index, nextId)
    ensures DistinctKeys(Resolve(ids, nodes))
  {
    var es := Resolve(ids, nodes);
    forall a, b | 0 <= a < b < |es| ensures es[a].key != es[b].key {
      assert index[es[a].key] == ids[a];
    }
  }

  /** An indexed key is found in the list at the position of its node. */
  lemma IndexedFound<K, V>(capacity: nat, ids: seq<nat>, nodes: map<nat, CacheNode<K, V>>,
                           index: map<K, nat>, nextId: nat)
    requires Consistent(capacity, ids, nodes, index, nextId)
    ensures forall k :: k in index ==> Find(Resolve(ids, nodes), k) == Some(IndexOf(ids, index[k]))
  {
    EntriesDistinct(capacity, ids, nodes, index, nextId);
    forall k | k in index ensures Find(Resolve(ids, nodes), k) == Some(IndexOf(ids, index[k])) {
      FindDistinct(Resolve(ids, nodes), IndexOf(ids, index[k]));
    }
  }

  /** A key missing from the index is held by no node of the list. */
  lemma UnindexedAbsent<K, V>(capacity: nat, ids: seq<nat>, nodes: map<nat, CacheNode<K, V>>,
                              index: map<K, nat>, nextId: nat)
    requires Consistent(capacity, ids, nodes, index, nextId)
    ensures forall k :: k !in index ==> k !in KeysOf(Resolve(ids, nodes))
  {
    var es := Resolve(ids, nodes);
    forall i | 0 <= i < |es| ensures KeysOf(es)[i] in index {
    }
  }

  /** Any distinct rearrangement of the same node ids keeps the invariant. */
  lemma RearrangeConsistent<K, V>(capacity: nat, ids: seq<nat>, ids': seq<nat>,
                                  nodes: map<nat, CacheNode<K, V>>, index: map<K, nat>, nextId: nat)
    requires Consistent(capacity, ids, nodes, index, nextId)
    requires multiset(ids') == multiset(ids)
    requires forall i, j :: 0 <= i < j < |ids'| ==> ids'[i] != ids'[j]
    ensures Consistent(capacity, ids', nodes, index, nextId)
  {
    assert |ids'| == |multiset(ids')| == |ids|;
    forall i | 0 <= i < |ids'|
      ensures ids'[i] in nodes && nodes[ids'[i]].key in index && index[nodes[ids'[i]].key] == ids'[i]
    {
      assert ids'[i] in multiset(ids');
      var o :| 0 <= o < |ids| && ids[o] == ids'[i];
    }
    forall k | k in index ensures index[k] in ids' {
      assert index[k] in multiset(ids);
    }
  }

  /** Splicing the node at position p to the front keeps the invariant. */
  lemma SpliceConsistent<K, V>(capacity: nat, ids: seq<nat>, nodes: map<nat, CacheNode<K, V>>,
                               index: map<K, nat>, nextId: nat, p: nat)
    requires Consistent(capacity, ids, nodes, index, nextId) && p < |ids|
    ensures Consistent(capacity, [ids[p]] + ids[..p] + ids[p + 1..], nodes, index, nextId)
    ensures Resolve([ids[p]] + ids[..p] + ids[p + 1..], nodes) == Promote(Resolve(ids, nodes), p)
  {
    var ids' := [ids[p]] + ids[..p] + ids[p + 1..];
    SpliceDistinct(ids, p);
    RearrangeConsistent(capacity, ids, ids', nodes, index, nextId);
    SpliceResolve(ids, nodes, p);
  }

  /** moveToFront on a cached key: the splice keeps the invariant and promotes that key's entry. */
  lemma TouchPresent<K, V>(capacity: nat, ids: seq<nat>, nodes: map<nat, CacheNode<K, V>>,
                           index: map<K, nat>, nextId: nat, key: K)
    requires Consistent(capacity, ids, nodes, index, nextId) && key in index
    ensures var p := IndexOf(ids, index[key]);
      && Consistent(capacity, [index[key]] + ids[..p] + ids[p + 1..], nodes, index, nextId)
      && Resolve([index[key]] + ids[..p] + ids[p + 1..], nodes) == Touch(Resolve(ids, nodes), key)
  {
    var p := IndexOf(ids, index[key]);
    SpliceConsistent(capacity, ids, nodes, index, nextId, p);
    EntriesDistinct(capacity, ids, nodes, index, nextId);
    FindDistinct(Resolve(ids, nodes), p);
  }

  /** moveToFront on a key that is not cached leaves the list as it is. */
  lemma TouchAbsent<K, V>(capacity: nat, ids: seq<nat>, nodes: map<nat, CacheNode<K, V>>,
                          index: map<K, nat>, nextId: nat, key: K)
    requires Consistent(capacity, ids, nodes, index, nextId) && key !in index
    ensures Touch(Resolve(ids, nodes), key) == Resolve(ids, nodes)
  {
    UnindexedAbsent(capacity, ids, nodes, index, nextId);
  }

  /**
   * The hit branch of `set`: overwriting the value of the key's node and then
   * promoting the key gives Put.
   */
  lemma OverwritePut<K, V>(capacity: nat, ids: seq<nat>, nodes: map<nat, CacheNode<K, V>>,
                           index: map<K, nat>, nextId: nat, key: K, value: V)
    requires Consistent(capacity, ids, nodes, index, nextId) && key in index
    ensures Touch(Resolve(ids, nodes[index[key] := CacheNode(key, value)]), key)
         == Put(Resolve(ids, nodes), capacity, key, value)
  {
    AssignConsistent(capacity, ids, nodes, index, nextId, key, value);
    EntriesDistinct(capacity, ids, nodes, index, nextId);
    PutAsTouch(Resolve(ids, nodes), capacity, key, value, IndexOf(ids, index[key]));
  }

  /** The spliced list holds the same ids, still without repetition. */
  lemma SpliceDistinct(ids: seq<nat>, p: nat)
    requires forall i, j :: 0 <= i < j < |ids| ==> ids[i] != ids[j]
    requires p < |ids|
    ensures multiset([ids[p]] + ids[..p] + ids[p + 1..]) == multiset(ids)
    ensures var ids' := [ids[p]] + ids[..p] + ids[p + 1..];
      forall i, j :: 0 <= i < j < |ids'| ==> ids'[i] != ids'[j]
  {
    var ids' := [ids[p]] + ids[..p] + ids[p + 1..];
    assert ids == ids[..p] + [ids[p]] + ids[p + 1..];
    forall i, j | 0 <= i < j < |ids'| ensures ids'[i] != ids'[j] {
      var oi := if i == 0 then p else if i <= p then i - 1 else i;
      var oj := if j == 0 then p else if j <= p then j - 1 else j;
      assert ids'[i] == ids[oi] && ids'[j] == ids[oj];
    }
  }

  lemma SpliceResolve<K, V>(ids: seq<nat>, nodes: map<nat, CacheNode<K, V>>, p: nat)
    requires forall i :: 0 <= i < |ids| ==> ids[i] in nodes
    requires p < |ids|
    ensures Resolve([ids[p]] + ids[..p] + ids[p + 1..], nodes) == Promote(Resolve(ids, nodes), p)
  {
    var es := Resolve(ids, nodes);
    PromoteAt(es, p);
  }

  /** Replacing the value of the node `index[key]` keeps the invariant. */
  lemma AssignConsistent<K, V>(capacity: nat, ids: seq<nat>, nodes: map<nat, CacheNode<K, V>>,
                               index: map<K, nat>, nextId: nat, key: K, value: V)
    requires Consistent(capacity, ids, nodes, index, nextId) && key in index
    ensures Consistent(capacity, ids, nodes[index[key] := CacheNode(key, value)], index, nextId)
    ensures Resolve(ids, nodes[index[key] := CacheNode(key, value)]) ==
      Resolve(ids, nodes)[IndexOf(ids, index[key]) := CacheNode(key, value)]
  {
    var nodes' := nodes[index[key] := CacheNode(key, value)];
    var p := IndexOf(ids, index[key]);
    forall i | 0 <= i < |ids| ensures nodes'[ids[i]].key == nodes[ids[i]].key {
    }
    forall k | k in index ensures nodes'[index[k]].key == k {
    }
    assert Resolve(ids, nodes') == Resolve(ids, nodes)[p := CacheNode(key, value)];
  }

  /** Dropping the back node from the list, the node storage and the index keeps the invariant. */
  lemma PopBackConsistent<K, V>(capacity: nat, ids: seq<nat>, nodes: map<nat, CacheNode<K, V>>,
                                index: map<K, nat>, nextId: nat)
    requires Consistent(capacity, ids, nodes, index, nextId) && |ids| > 0
    ensures var last := ids[|ids| - 1];
      Consistent(capacity, ids[..|ids| - 1], nodes - {last}, index - {nodes[last].key}, nextId)
  {
    PopBackListed(ids, nodes, index);
    PopBackIndexed(ids, nodes, index);
  }

  /** After dropping the back node, every listed node is still stored and indexed to itself. */
  lemma PopBackListed<K, V>(ids: seq<nat>, nodes: map<nat, CacheNode<K, V>>, index: map<K, nat>)
    requires |ids| > 0 && forall i, j :: 0 <= i < j < |ids| ==> ids[i] != ids[j]
    requires forall i :: 0 <= i < |ids| ==> ids[i] in nodes && nodes[ids[i]].key in index && index[nodes[ids[i]].key] == ids[i]
    ensures var last := ids[|ids| - 1];
      var ids', nodes', index' := ids[..|ids| - 1], nodes - {last}, index - {nodes[last].key};
      forall i :: 0 <= i < |ids'| ==>
        ids'[i] in nodes' && nodes'[ids'[i]].key in index' && index'[nodes'[ids'[i]].key] == ids'[i]
  {
    var n := |ids|;
    var last := ids[n - 1];
    var ids', nodes', index' := ids[..n - 1], nodes - {last}, index - {nodes[last].key};
    forall i | 0 <= i < |ids'|
      ensures ids'[i] in nodes' && nodes'[ids'[i]].key in index' && index'[nodes'[ids'[i]].key] == ids'[i]
    {
      assert ids'[i] == ids[i] != last;
      assert index[nodes[ids[i]].key] == ids[i];
    }
  }

  /** After dropping the back node, every remaining indexed key leads to a listed node holding it. */
  lemma PopBackIndexed<K, V>(ids: seq<nat>, nodes: map<nat, CacheNode<K, V>>, index: map<K, nat>)
    requires |ids| > 0 && ids[|ids| - 1] in nodes
    requires nodes[ids[|ids| - 1]].key in index && index[nodes[ids[|ids| - 1]].key] == ids[|ids| - 1]
    requires forall k :: k in index ==> index[k] in ids && index[k] in nodes && nodes[index[k]].key == k
    ensures var last := ids[|ids| - 1];
      var ids', nodes', index' := ids[..|ids| - 1], nodes - {last}, index - {nodes[last].key};
      && |index'| == |index| - 1
      && forall k :: k in index' ==> index'[k] in ids' && index'[k] in nodes' && nodes'[index'[k]].key == k
  {
    var n := |ids|;
    var last := ids[n - 1];
    var victim := nodes[last].key;
    var ids', nodes', index' := ids[..n - 1], nodes - {last}, index - {victim};
    assert index'.Keys == index.Keys - {victim};
    forall k | k in index'
      ensures index'[k] in ids' && index'[k] in nodes' && nodes'[index'[k]].key == k
    {
      assert k != victim && index'[k] == index[k];
      var o := IndexOf(ids, index[k]);
      assert o != n - 1;
      assert ids'[o] == index[k];
    }
  }

  /** Dropping the back node leaves the other entries as they were. */
  lemma PopBackResolve<K, V>(capacity: nat, ids: seq<nat>, nodes: map<nat, CacheNode<K, V>>,
                             index: map<K, nat>, nextId: nat)
    requires Consistent(capacity, ids, nodes, index, nextId) && |ids| > 0
    ensures var last := ids[|ids| - 1];
      Resolve(ids[..|ids| - 1], nodes - {last}) == Resolve(ids, nodes)[..|ids| - 1]
  {
    var n := |ids|;
    var last := ids[n - 1];
    forall i | 0 <= i < n - 1
      ensures ids[i] != last
    {
    }
  }

  /** A fresh node for an absent key, pushed to the front and indexed, keeps the invariant. */
  lemma PushConsistent<K, V>(capacity: nat, ids: seq<nat>, nodes: map<nat, CacheNode<K, V>>,
                             index: map<K, nat>, nextId: nat, key: K, value: V)
    requires Consistent(capacity, ids, nodes, index, nextId)
    requires key !in index && |ids| < capacity
    ensures Consistent(capacity, [nextId] + ids, nodes[nextId := CacheNode(key, value)],
                       index[key := nextId], nextId + 1)
  {
    var ids', nodes', index' := [nextId] + ids, nodes[nextId := CacheNode(key, value)], index[key := nextId];
    assert nextId !in nodes;
    forall i, j | 0 <= i < j < |ids'|
      ensures ids'[i] != ids'[j]
    {
      assert ids'[j] == ids[j - 1] && ids[j - 1] in nodes;
    }
    forall i | 0 <= i < |ids'|
      ensures ids'[i] in nodes' && nodes'[ids'[i]].key in index' && index'[nodes'[ids'[i]].key] == ids'[i]
    {
      if i > 0 {
        assert ids'[i] == ids[i - 1] && ids[i - 1] in nodes;
      }
    }
    forall k | k in index'
      ensures index'[k] in ids' && index'[k] in nodes' && nodes'[index'[k]].key == k
    {
      if k != key {
        assert index'[k] == index[k] && index[k] in nodes;
      }
    }
  }

  /** The pushed node becomes the front entry; the others follow in their order. */
  lemma PushResolve<K, V>(ids: seq<nat>, nodes: map<nat, CacheNode<K, V>>, nextId: nat, node: CacheNode<K, V>)
    requires forall i :: 0 <= i < |ids| ==> ids[i] in nodes && ids[i] < nextId
    ensures Resolve([nextId] + ids, nodes[nextId := node]) == [node] + Resolve(ids, nodes)
  {
    var ids', nodes' := [nextId] + ids, nodes[nextId := node];
    forall i | 0 <= i < |ids| ensures nodes'[ids[i]] == nodes[ids[i]] {
    }
  }

  class LRUCache<K(==), V> {
    const capacity: nat
    /** usage_list_: node ids, most recently used first. */
    var usageList: seq<nat>
    /** The nodes of usage_list_, by id. */
    var nodes: map<nat, CacheNode<K, V>>
    /** cache_map_: each key to the id of its node in usageList. */
    var cacheMap: map<K, nat>
    /** No node id at or above this one has been handed out. */
    var nextId: nat

    /** The two views agree, keys are unique and the size is within capacity. */
    ghost predicate Valid()
      reads this
    {
      Consistent(capacity, usageList, nodes, cacheMap, nextId)
    }

    /** The recency list as values, most recently used first. */
    ghost function Entries(): seq<CacheNode<K, V>>
      reads this
      requires Valid()
    {
      Resolve(usageList, nodes)
    }

    /** What the invariant says about the list as values and about the index. */
    lemma EntriesFacts()
      requires Valid()
      ensures DistinctKeys(Entries()) && |Entries()| <= capacity
      ensures forall k :: k in cacheMap ==>
        Find(Entries(), k) == Some(IndexOf(usageList, cacheMap[k]))
      ensures forall k :: k !in cacheMap ==> k !in KeysOf(Entries())
    {
      EntriesDistinct(capacity, usageList, nodes, cacheMap, nextId);
      IndexedFound(capacity, usageList, nodes, cacheMap, nextId);
      UnindexedAbsent(capacity, usageList, nodes, cacheMap, nextId);
    }

    constructor (capacity: nat)
      requires capacity >= 1
      ensures Valid() && Entries() == [] && this.capacity == capacity
    {
      this.capacity := capacity;
      usageList := [];
      nodes := map[];
      cacheMap := map[];
      nextId := 0;
    }

    /** Construction: capacity 0 is rejected with invalid_argument. */
    static method New(capacity: nat) returns (r: Result<LRUCache<K, V>, CacheError>)
      ensures r.Failure? <==> capacity == 0
      ensures r.Failure? ==> r.error == InvalidArgument
      ensures r.Success? ==>
        fresh(r.value) && r.value.Valid() && r.value.Entries() == [] && r.value.capacity == capacity
    {
      if capacity == 0 {
        return Failure(InvalidArgument);
      }
      var c := new LRUCache(capacity);
      return Success(c);
    }

    /** Construction with the default capacity. */
    static method NewDefault() returns (c: LRUCache<K, V>)
      ensures fresh(c) && c.Valid() && c.Entries() == [] && c.capacity == DefaultCapacity
    {
      c := new LRUCache(DefaultCapacity);
    }

    /** The number of cached keys: the size of cache_map_. */
    function Size(): (n: nat)
      reads this
      requires Valid()
      ensures n == |Entries()| && n <= capacity
    {
      |cacheMap|
    }

    function Capacity(): (c: nat)
      reads this
      requires Valid()
      ensures c >= 1 && Size() <= c
    {
      capacity
    }

    /** Membership through the index; the recency order is not touched. */
    function Contains(key: K): (b: bool)
      reads this
      requires Valid()
      ensures b <==> key in KeysOf(Entries())
      ensures b <==> Lookup(Entries(), key).Success?
    {
      EntriesFacts();
      key in cacheMap
    }

    /** Splices the node of `key`, if there is one, to the front of the list. */
    method MoveToFront(key: K)
      requires Valid()
      modifies this
      ensures Valid()
      ensures cacheMap == old(cacheMap) && nodes == old(nodes) && nextId == old(nextId)
      ensures Entries() == Touch(old(Entries()), key)
    {
      if key in cacheMap {
        var id := cacheMap[key];
        var p := IndexOf(usageList, id);
        TouchPresent(capacity, usageList, nodes, cacheMap, nextId, key);
        usageList := [id] + usageList[..p] + usageList[p + 1..];
      } else {
        TouchAbsent(capacity, usageList, nodes, cacheMap, nextId, key);
      }
    }

    /** Writes `value` under `key`, evicting the least recently used node when full. */
    method Set(key: K, value: V)
      requires Valid()
      modifies this
      ensures Valid()
      ensures Entries() == Put(old(Entries()), capacity, key, value)
    {
      if key in cacheMap {
        Overwrite(key, value);
      } else {
        Insert(key, value);
      }
    }

    /** The hit branch of `set`: replace the node's value, then move it to the front. */
    method Overwrite(key: K, value: V)
      requires Valid() && key in cacheMap
      modifies this
      ensures Valid()
      ensures Entries() == Put(old(Entries()), capacity, key, value)
    {
      var id := cacheMap[key];
      AssignConsistent(capacity, usageList, nodes, cacheMap, nextId, key, value);
      OverwritePut(capacity, usageList, nodes, cacheMap, nextId, key, value);
      nodes := nodes[id := CacheNode(key, value)];
      MoveToFront(key);
    }

    /** The miss branch of `set`: evict the back node when full, then push a new node. */
    method Insert(key: K, value: V)
      requires Valid() && key !in cacheMap
      modifies this
      ensures Valid()
      ensures Entries() == Put(old(Entries()), capacity, key, value)
    {
      EntriesFacts();
      PutAbsent(Entries(), capacity, key, value);
      if Size() >= capacity {
        Evict();
      }
      PushFront(key, value);
    }

    /** Removes the back node from both views (the eviction step of `set`). */
    method Evict()
      requires Valid() && |usageList| > 0
      modifies this
      ensures Valid() && nextId == old(nextId)
      ensures Entries() == old(Entries())[..|old(Entries())| - 1]
      ensures forall k :: k in cacheMap ==> k in old(cacheMap)
    {
      var lastId := usageList[|usageList| - 1];
      var last := nodes[lastId];
      PopBackConsistent(capacity, usageList, nodes, cacheMap, nextId);
      PopBackResolve(capacity, usageList, nodes, cacheMap, nextId);
      cacheMap := cacheMap - {last.key};
      usageList := usageList[..|usageList| - 1];
      nodes := nodes - {lastId};
    }

    /** Puts a new node for an absent key at the front and indexes it (emplace_front). */
    method PushFront(key: K, value: V)
      requires Valid() && key !in cacheMap && |usageList| < capacity
      modifies this
      ensures Valid()
      ensures Entries() == [CacheNode(key, value)] + old(Entries())
    {
      PushConsistent(capacity, usageList, nodes, cacheMap, nextId, key, value);
      PushResolve(usageList, nodes, nextId, CacheNode(key, value));
      var id := nextId;
      nextId := nextId + 1;
      nodes := nodes[id := CacheNode(key, value)];
      usageList := [id] + usageList;
      cacheMap := cacheMap[key := id];
    }

    /** Reads `key`, promoting it to most recently used; out_of_range on a miss. */
    method Get(key: K) returns (r: Result<V, CacheError>)
      requires Valid()
      modifies this
      ensures Valid()
      ensures r == Lookup(old(Entries()), key)
      ensures Entries() == Touch(old(Entries()), key)
      ensures r.Failure? ==>
        usageList == old(usageList) && cacheMap == old(cacheMap) && nodes == old(nodes)
    {
      EntriesFacts();
      if key !in cacheMap {
        return Failure(OutOfRange);
      }
      ghost var es := Entries();
      MoveToFront(key);
      r := Success(nodes[cacheMap[key]].value);
    }

    /** Empties both views; the capacity stays. */
    method Clear()
      requires Valid()
      modifies this
      ensures Valid() && Entries() == []
    {
      cacheMap := map[];
      usageList := [];
      nodes := map[];
    }
  }
}
