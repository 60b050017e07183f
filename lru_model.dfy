/**
 * The LRU cache as a value: the recency list of (key, value) nodes, most
 * recently used first, and the effect of each cache operation on it.
 * The class in module LruCache is proved to change its state exactly as
 * these functions say; the lemmas here state what the operations promise.
 */
module LruModel {
  import opened Results

  /** One node of the recency list. */
  datatype CacheNode<K, V> = CacheNode(key: K, value: V)

  /** The two exceptions of the cache: std::invalid_argument and std::out_of_range. */
  datatype CacheError = InvalidArgument | OutOfRange

  /** The keys of the recency list, front to back. */
  function KeysOf<K, V>(es: seq<CacheNode<K, V>>): seq<K>
  {
    seq(|es|, i requires 0 <= i < |es| => es[i].key)
  }

  /** The keys of a non-empty list are its front key followed by the keys of the rest. */
  lemma KeysOfCons<K, V>(es: seq<CacheNode<K, V>>)
    requires es != []
    ensures KeysOf(es) == [es[0].key] + KeysOf(es[1..])
  {
  }

  /** No key occurs twice in the recency list. */
  ghost predicate DistinctKeys<K, V>(es: seq<CacheNode<K, V>>) {
    forall i, j :: 0 <= i < j < |es| ==> es[i].key != es[j].key
  }

  /** The position of the first node holding `key`, if any. */
  function Find<K(==), V>(es: seq<CacheNode<K, V>>, key: K): (r: Option<nat>)
    ensures r.Some? ==> r.value < |es| && es[r.value].key == key
    ensures r.Some? ==> forall j :: 0 <= j < r.value ==> es[j].key != key
    ensures r.None? <==> key !in KeysOf(es)
  {
    if es == [] then None
    else
      KeysOfCons(es);
      if es[0].key == key then Some(0)
      else match Find(es[1..], key)
      case None => None
      case Some(i) => Some(i + 1)
  }

  /** Node i taken out of the list and put at the front (std::list::splice to begin()). */
  function Promote<K, V>(es: seq<CacheNode<K, V>>, i: nat): seq<CacheNode<K, V>>
    requires i < |es|
  {
    [es[i]] + es[..i] + es[i + 1..]
  }

  /** The recency list after `set(key, value)` on a cache of the given capacity. */
  function Put<K(==), V>(es: seq<CacheNode<K, V>>, capacity: nat, key: K, value: V): seq<CacheNode<K, V>>
    requires capacity >= 1
  {
    match Find(es, key)
    case Some(i) => Promote(es[i := CacheNode(key, value)], i)
    case None =>
      var kept := if |es| >= capacity then es[..|es| - 1] else es;
      [CacheNode(key, value)] + kept
  }

  /** The recency list after `moveToFront(key)`, hence after a `get(key)`. */
  function Touch<K(==), V>(es: seq<CacheNode<K, V>>, key: K): seq<CacheNode<K, V>>
  {
    match Find(es, key)
    case Some(i) => Promote(es, i)
    case None => es
  }

  /** What `get(key)` returns on the recency list: the value, or out_of_range. */
  function Lookup<K(==), V>(es: seq<CacheNode<K, V>>, key: K): Result<V, CacheError>
  {
    match Find(es, key)
    case Some(i) => Success(es[i].value)
    case None => Failure(OutOfRange)
  }

  lemma PromoteAt<K, V>(es: seq<CacheNode<K, V>>, i: nat)
    requires i < |es|
    ensures |Promote(es, i)| == |es| && Promote(es, i)[0] == es[i]
    ensures forall t :: 0 <= t < i ==> Promote(es, i)[t + 1] == es[t]
    ensures forall t :: i < t < |es| ==> Promote(es, i)[t] == es[t]
  {
  }

  /** Promotion only reorders: it keeps every node and the distinctness of keys. */
  lemma PromoteKeepsNodes<K, V>(es: seq<CacheNode<K, V>>, i: nat)
    requires i < |es|
    ensures multiset(Promote(es, i)) == multiset(es)
    ensures DistinctKeys(es) ==> DistinctKeys(Promote(es, i))
  {
    PromotePermutes(es, i);
    if DistinctKeys(es) {
      PromoteDistinct(es, i);
    }
  }

  lemma PromotePermutes<K, V>(es: seq<CacheNode<K, V>>, i: nat)
    requires i < |es|
    ensures multiset(Promote(es, i)) == multiset(es)
  {
    assert es == es[..i] + [es[i]] + es[i + 1..];
  }

  lemma PromoteDistinct<K, V>(es: seq<CacheNode<K, V>>, i: nat)
    requires i < |es| && DistinctKeys(es)
    ensures DistinctKeys(Promote(es, i))
  {
    PromoteAt(es, i);
    var p := Promote(es, i);
    forall a, b | 0 <= a < b < |p| ensures p[a].key != p[b].key {
      var ia := if a == 0 then i else if a <= i then a - 1 else a;
      var ib := if b == 0 then i else if b <= i then b - 1 else b;
      assert p[a] == es[ia] && p[b] == es[ib] && ia != ib;
    }
  }

  /** In a list with distinct keys, Find returns the one position holding the key. */
  lemma FindDistinct<K, V>(es: seq<CacheNode<K, V>>, i: nat)
    requires DistinctKeys(es) && i < |es|
    ensures Find(es, es[i].key) == Some(i)
  {
    var r := Find(es, es[i].key);
    assert es[i].key in KeysOf(es) by { assert KeysOf(es)[i] == es[i].key; }
  }

  /** Lookup in a list with distinct keys, through any node position. */
  lemma LookupAt<K, V>(es: seq<CacheNode<K, V>>, i: nat)
    requires DistinctKeys(es) && i < |es|
    ensures Lookup(es, es[i].key) == Success(es[i].value)
  {
    FindDistinct(es, i);
  }

  lemma LookupAbsent<K, V>(es: seq<CacheNode<K, V>>, key: K)
    requires forall i :: 0 <= i < |es| ==> es[i].key != key
    ensures Lookup(es, key) == Failure(OutOfRange)
  {
    assert key !in KeysOf(es);
  }

  /**
   * `set` keeps the cache invariant (distinct keys, size within capacity),
   * puts the written node at the front, and a later read of the key gives the
   * value just written. The size grows by one exactly when the key was absent
   * and the cache was not full.
   */
  lemma {:induction false} PutInvariant<K, V>(es: seq<CacheNode<K, V>>, capacity: nat, key: K, value: V)
    requires capacity >= 1 && |es| <= capacity && DistinctKeys(es)
    ensures DistinctKeys(Put(es, capacity, key, value))
    ensures |Put(es, capacity, key, value)| <= capacity
    ensures |Put(es, capacity, key, value)| ==
      if key in KeysOf(es) || |es| == capacity then |es| else |es| + 1
    ensures Put(es, capacity, key, value)[0] == CacheNode(key, value)
    ensures Lookup(Put(es, capacity, key, value), key) == Success(value)
  {
    var r := Put(es, capacity, key, value);
    match Find(es, key)
    case Some(i) =>
      var es' := es[i := CacheNode(key, value)];
      assert DistinctKeys(es') by {
        forall a, b | 0 <= a < b < |es'| ensures es'[a].key != es'[b].key {
          assert es'[a].key == es[a].key && es'[b].key == es[b].key;
        }
      }
      PromoteKeepsNodes(es', i);
      PromoteAt(es', i);
    case None =>
      var kept := if |es| >= capacity then es[..|es| - 1] else es;
      assert r == [CacheNode(key, value)] + kept;
      forall a, b | 0 <= a < b < |r| ensures r[a].key != r[b].key {
        if a == 0 {
          assert r[b] == es[b - 1];
          assert KeysOf(es)[b - 1] == es[b - 1].key;
        } else {
          assert r[a] == es[a - 1] && r[b] == es[b - 1];
        }
      }
    LookupAt(r, 0);
  }

  /** Promotion changes what no key reads. */
  lemma PromoteLookup<K, V>(es: seq<CacheNode<K, V>>, i: nat)
    requires DistinctKeys(es) && i < |es|
    ensures forall k :: Lookup(Promote(es, i), k) == Lookup(es, k)
  {
    forall k ensures Lookup(Promote(es, i), k) == Lookup(es, k) {
      if j :| 0 <= j < |es| && es[j].key == k {
        PromoteLookupHeld(es, i, j);
      } else {
        PromoteLookupMissing(es, i, k);
      }
    }
  }

  lemma PromoteLookupHeld<K, V>(es: seq<CacheNode<K, V>>, i: nat, j: nat)
    requires DistinctKeys(es) && i < |es| && j < |es|
    ensures Lookup(Promote(es, i), es[j].key) == Lookup(es, es[j].key)
  {
    var r := Promote(es, i);
    PromoteKeepsNodes(es, i);
    PromoteAt(es, i);
    var t := if j == i then 0 else if j < i then j + 1 else j;
    assert r[t] == es[j];
    LookupAt(es, j);
    LookupAt(r, t);
  }

  lemma PromoteLookupMissing<K, V>(es: seq<CacheNode<K, V>>, i: nat, k: K)
    requires i < |es| && forall j :: 0 <= j < |es| ==> es[j].key != k
    ensures Lookup(Promote(es, i), k) == Lookup(es, k)
  {
    var r := Promote(es, i);
    PromoteAt(es, i);
    LookupAbsent(es, k);
    forall t | 0 <= t < |r| ensures r[t].key != k {
      var s := if t == 0 then i else if t <= i then t - 1 else t;
      assert r[t] == es[s];
    }
    LookupAbsent(r, k);
  }

  /** Replacing the value of node i keeps the keys, hence their distinctness. */
  lemma UpdateValueKeepsKeys<K, V>(es: seq<CacheNode<K, V>>, i: nat, value: V)
    requires DistinctKeys(es) && i < |es|
    ensures DistinctKeys(es[i := CacheNode(es[i].key, value)])
    ensures forall k :: k != es[i].key ==> Lookup(es[i := CacheNode(es[i].key, value)], k) == Lookup(es, k)
  {
    var es' := es[i := CacheNode(es[i].key, value)];
    forall a, b | 0 <= a < b < |es'| ensures es'[a].key != es'[b].key {
      assert es'[a].key == es[a].key && es'[b].key == es[b].key;
    }
    forall k | k != es[i].key ensures Lookup(es', k) == Lookup(es, k) {
      if j :| 0 <= j < |es| && es[j].key == k {
        LookupAt(es, j);
        LookupAt(es', j);
      } else {
        LookupAbsent(es, k);
        LookupAbsent(es', k);
      }
    }
  }

  /**
   * `set` on a key already present: the value is replaced, the node moves to
   * the front, the others keep their order, the size is unchanged and every
   * other key reads as before.
   */
  lemma {:induction false} PutExisting<K, V>(es: seq<CacheNode<K, V>>, capacity: nat, key: K, value: V, i: nat)
    requires capacity >= 1 && DistinctKeys(es)
    requires i < |es| && es[i].key == key
    ensures Put(es, capacity, key, value) == [CacheNode(key, value)] + es[..i] + es[i + 1..]
    ensures |Put(es, capacity, key, value)| == |es|
    ensures forall k :: k != key ==> Lookup(Put(es, capacity, key, value), k) == Lookup(es, k)
  {
    FindDistinct(es, i);
    var es' := es[i := CacheNode(key, value)];
    assert es'[..i] == es[..i] && es'[i + 1..] == es[i + 1..];
    UpdateValueKeepsKeys(es, i, value);
    PromoteLookup(es', i);
  }

  /** `set` on a present key is a value update followed by `moveToFront`. */
  lemma PutAsTouch<K, V>(es: seq<CacheNode<K, V>>, capacity: nat, key: K, value: V, p: nat)
    requires capacity >= 1 && DistinctKeys(es) && p < |es| && es[p].key == key
    ensures Put(es, capacity, key, value) == Touch(es[p := CacheNode(key, value)], key)
  {
    FindDistinct(es, p);
    UpdateValueKeepsKeys(es, p, value);
    FindDistinct(es[p := CacheNode(key, value)], p);
  }

  /** `set` on an absent key: evict the back node when full, then push to the front. */
  lemma PutAbsent<K, V>(es: seq<CacheNode<K, V>>, capacity: nat, key: K, value: V)
    requires capacity >= 1 && key !in KeysOf(es)
    ensures Put(es, capacity, key, value) ==
      [CacheNode(key, value)] + if |es| >= capacity then es[..|es| - 1] else es
  {
  }

  /**
   * `set` on an absent key when the cache is full: exactly the back (least
   * recently used) node is evicted and the new node goes to the front; the
   * size stays at capacity, the victim no longer reads, and every other key
   * reads as before.
   */
  lemma {:induction false} PutEvicts<K, V>(es: seq<CacheNode<K, V>>, capacity: nat, key: K, value: V)
    requires capacity >= 1 && |es| == capacity && DistinctKeys(es)
    requires key !in KeysOf(es)
    ensures KeysOf(Put(es, capacity, key, value)) == [key] + KeysOf(es)[..|es| - 1]
    ensures |Put(es, capacity, key, value)| == capacity
    ensures Lookup(Put(es, capacity, key, value), es[|es| - 1].key) == Failure(OutOfRange)
    ensures forall k :: k != key && k != es[|es| - 1].key ==>
      Lookup(Put(es, capacity, key, value), k) == Lookup(es, k)
  {
    var r := Put(es, capacity, key, value);
    var n := |es|;
    assert r == [CacheNode(key, value)] + es[..n - 1];
    var victim := es[n - 1].key;
    assert key != victim by { assert KeysOf(es)[n - 1] == victim; }
    forall t | 0 <= t < |r| ensures r[t].key != victim {
      if t > 0 { assert r[t] == es[t - 1]; }
    }
    LookupAbsent(r, victim);
    PutInvariant(es, capacity, key, value);
    forall k | k != key && k != victim ensures Lookup(r, k) == Lookup(es, k) {
      FrontLookup(es, r, CacheNode(key, value), n - 1, k);
    }
  }

  /**
   * A list made of a new front node and a prefix of es answers as es does
   * for every key other than the new node's and those of the dropped suffix.
   */
  lemma FrontLookup<K, V>(es: seq<CacheNode<K, V>>, r: seq<CacheNode<K, V>>, node: CacheNode<K, V>, m: nat, k: K)
    requires DistinctKeys(es) && DistinctKeys(r) && m <= |es| && r == [node] + es[..m]
    requires k != node.key && forall t :: m <= t < |es| ==> es[t].key != k
    ensures Lookup(r, k) == Lookup(es, k)
  {
    if j :| 0 <= j < |es| && es[j].key == k {
      FrontLookupHeld(es, r, node, m, j);
    } else {
      FrontLookupMissing(es, r, node, m, k);
    }
  }

  lemma FrontLookupHeld<K, V>(es: seq<CacheNode<K, V>>, r: seq<CacheNode<K, V>>, node: CacheNode<K, V>, m: nat, j: nat)
    requires DistinctKeys(es) && DistinctKeys(r) && m <= |es| && r == [node] + es[..m]
    requires j < m
    ensures Lookup(r, es[j].key) == Lookup(es, es[j].key)
  {
    assert r[j + 1] == es[j];
    LookupAt(es, j);
    LookupAt(r, j + 1);
  }

  lemma FrontLookupMissing<K, V>(es: seq<CacheNode<K, V>>, r: seq<CacheNode<K, V>>, node: CacheNode<K, V>, m: nat, k: K)
    requires m <= |es| && r == [node] + es[..m] && k != node.key
    requires forall t :: 0 <= t < |es| ==> es[t].key != k
    ensures Lookup(r, k) == Lookup(es, k)
  {
    LookupAbsent(es, k);
    forall t | 0 <= t < |r| ensures r[t].key != k {
      if t > 0 {
        assert r[t] == es[..m][t - 1] == es[t - 1];
      }
    }
    LookupAbsent(r, k);
  }

  /**
   * `set` on an absent key when the cache is not full: the new node goes to
   * the front, nothing is evicted and the size grows by exactly one.
   */
  lemma {:induction false} PutGrows<K, V>(es: seq<CacheNode<K, V>>, capacity: nat, key: K, value: V)
    requires capacity >= 1 && |es| < capacity && DistinctKeys(es)
    requires key !in KeysOf(es)
    ensures Put(es, capacity, key, value) == [CacheNode(key, value)] + es
    ensures |Put(es, capacity, key, value)| == |es| + 1
    ensures forall k :: k != key ==> Lookup(Put(es, capacity, key, value), k) == Lookup(es, k)
  {
    var r := Put(es, capacity, key, value);
    PutInvariant(es, capacity, key, value);
    assert es[..|es|] == es;
    forall k | k != key ensures Lookup(r, k) == Lookup(es, k) {
      FrontLookup(es, r, CacheNode(key, value), |es|, k);
    }
  }

  /**
   * `get` of a present key moves it to the front without changing what any key
   * reads; with two or more nodes the key is then not the next eviction victim.
   */
  lemma {:induction false} TouchPromotes<K, V>(es: seq<CacheNode<K, V>>, key: K)
    requires DistinctKeys(es) && key in KeysOf(es)
    ensures |Touch(es, key)| == |es| && Touch(es, key)[0].key == key
    ensures multiset(Touch(es, key)) == multiset(es) && DistinctKeys(Touch(es, key))
    ensures |es| >= 2 ==> Touch(es, key)[|es| - 1].key != key
    ensures forall k :: Lookup(Touch(es, key), k) == Lookup(es, k)
  {
    var i := Find(es, key).value;
    PromoteKeepsNodes(es, i);
    PromoteAt(es, i);
    PromoteLookup(es, i);
  }
}
