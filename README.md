# LRU cache and block-based k-way merge sort, modelled in Dafny

This project models two independent components of a small C++ library.

- **`LRUCache<Key, Value>`** (`caches/CacheImp.h`) is a fixed-capacity
  key-value cache with least-recently-used eviction. It keeps two views of
  the same entries: the recency list `usage_list_` (front = most recently
  used) and the index `cache_map_` from each key to its node in the list.
  The class `LruCache.LRUCache` has the same state: `usageList` is the
  list as a sequence of node ids, `nodes` stores the node behind each id,
  and `cacheMap` maps each key to a node id, which plays the role of the
  list iterator. Each method is proved to keep the invariant `Valid()` and
  to change the recency list exactly as a pure function of module
  `LruModel` says. `Put` is the effect of `set`, `Touch` the effect of
  `moveToFront` and `get`, and `Lookup` the answer of `get`. The lemmas of
  `LruModel` state what these functions promise: hit, eviction and growth
  behaviour of `set`, and promotion by `get`.
- **`KwayMergeSort` and `mergeKBlocks`**
  (`operations/k-way-merge/KwayMerge.h`) sort an array in several steps.
  The input is cut into blocks of `block_size` elements, and each block is
  sorted. Groups of up to `k` blocks are then merged with a min-heap,
  round after round, until one block remains. `KwayMerge.MergeKBlocks` runs
  the same heap loop. The heap is a sequence of `MergeNode`s, and the
  least node is taken out by a verified linear scan. A ghost cursor per
  block accounts for every element. `KwaySort.KwayMergeSort` clamps the
  parameters as the C++ does, splits the input, and runs the merge rounds.
  It is proved to return the input sorted, i.e. `Sorting.Sort(a)`, for
  every `k` and every block size.

Modules: `Results` (Option and Result), `LruModel`, `LruCache`, `Sorting`
(sortedness, the reference sort standing for `std::sort`, and uniqueness of
sorted permutations), `KwayMerge` and `KwaySort`.

## Model

| member | source | states |
|---|---|---|
| LruCache.LRUCache.New | caches/CacheImp.h:29-33 | Construction fails with invalid_argument exactly when the capacity is 0. Otherwise the cache is valid and empty, and its capacity is the argument. |
| LruCache.LRUCache.NewDefault | caches/CacheImp.h:29 | The default capacity is 10, and the new cache is valid and empty. |
| LruCache.LRUCache.Size | caches/CacheImp.h:72-74 | The size of the index equals the length of the recency list and is at most the capacity. |
| LruCache.LRUCache.Capacity | caches/CacheImp.h:76-78 | The capacity is at least 1 and bounds the size. `capacity` is a `const` field, so no operation changes it. |
| LruCache.LRUCache.Contains | caches/CacheImp.h:63-65 | Returns true iff some list node holds the key, iff `get` would succeed. The function reads only and changes nothing. |
| LruCache.LRUCache.MoveToFront | caches/CacheImp.h:21-26 | Splices the key's node to the front. The index and the node storage are unchanged, the invariant is kept, and the list becomes `Touch` of the old list. |
| LruCache.LRUCache.Set | caches/CacheImp.h:35-51 | Keeps the invariant, and the new list is `Put(old list, capacity, key, value)`. |
| LruCache.LRUCache.Overwrite | caches/CacheImp.h:38-41 | Hit branch: assigns the node's value and then calls moveToFront. The result equals `Put`. |
| LruCache.LRUCache.Insert | caches/CacheImp.h:42-50 | Miss branch: evicts when size >= capacity, then pushes to the front. The result equals `Put`. |
| LruCache.LRUCache.Evict | caches/CacheImp.h:43-47 | Removes the back node from the list and from the index. The other entries are kept in order, the invariant holds, and no key is added to the index. |
| LruCache.LRUCache.PushFront | caches/CacheImp.h:48-49 | A fresh node for an absent key becomes the front entry and is indexed. The other entries follow unchanged. |
| LruCache.LRUCache.Get | caches/CacheImp.h:53-61 | Returns the key's value, or out_of_range on a miss. The list becomes `Touch` of the old list. On a miss the list, the index and the nodes are all unchanged. |
| LruCache.LRUCache.Clear | caches/CacheImp.h:67-70 | Both views become empty, the invariant holds, and the capacity is kept. |
| LruCache.TouchPresent | caches/CacheImp.h:21-26 | Splicing the indexed node of a key to the front keeps the invariant and gives `Touch` of the entries. |
| LruCache.TouchAbsent | caches/CacheImp.h:22-23 | For a key that is not indexed, moveToFront changes nothing. |
| LruCache.OverwritePut | caches/CacheImp.h:38-41 | Assigning the node's value and then promoting the key gives `Put`. |
| LruCache.SpliceConsistent | caches/CacheImp.h:24 | The splice keeps the invariant and promotes the entry at that position. |
| LruCache.PopBackConsistent | caches/CacheImp.h:44-46 | Erasing the back node's key from the index and popping the node keeps the invariant. |
| LruCache.PopBackResolve | caches/CacheImp.h:46 | After pop_back the remaining entries are the old ones without the last. |
| LruCache.PushConsistent | caches/CacheImp.h:48-49 | emplace_front of a fresh node for an absent key, plus indexing it, keeps the invariant below capacity. |
| LruCache.PushResolve | caches/CacheImp.h:48 | After emplace_front the new node is first and the old entries follow. |
| LruCache.EntriesDistinct | caches/CacheImp.h:18-19 | The invariant implies that the keys of the list are pairwise distinct. |
| LruCache.IndexedFound | caches/CacheImp.h:19-24 | An indexed key is found in the list at the position of its node. |
| LruCache.UnindexedAbsent | caches/CacheImp.h:54-56 | A key missing from the index is held by no node of the list. |
| LruModel.Find | caches/CacheImp.h:36-38 | Finds the first position holding the key. It returns None iff no node holds the key. |
| LruModel.PutInvariant | caches/CacheImp.h:35-51 | `set` keeps keys distinct and the size within capacity. The written node is at the front, and reading the key gives the new value. The size grows by one iff the key was absent and the cache was not full. |
| LruModel.PutExisting | caches/CacheImp.h:38-41 | `set` on a present key replaces the value and moves the node to the front. The other entries keep their order, the size is unchanged, and every other key reads as before. |
| LruModel.PutAsTouch | caches/CacheImp.h:38-41 | `set` on a present key is a value update followed by moveToFront. |
| LruModel.PutAbsent | caches/CacheImp.h:42-50 | `set` on an absent key drops the back entry when full and puts the new node at the front. |
| LruModel.PutEvicts | caches/CacheImp.h:43-49 | On an absent key in a full cache, the keys become the new key followed by the old keys minus the last. The size stays at capacity, the victim no longer reads, and every other key reads as before. |
| LruModel.PutGrows | caches/CacheImp.h:48-49 | On an absent key below capacity, the new node is put in front of the unchanged list. The size grows by one, nothing is evicted, and other keys read as before. |
| LruModel.TouchPromotes | caches/CacheImp.h:58-60 | `get` of a present key puts it at the front while keeping the same entries and distinct keys. With two or more entries the key is not the next victim, and every key reads as before. |
| LruModel.PromoteKeepsNodes | caches/CacheImp.h:24 | The splice only reorders the list and keeps keys distinct. |
| LruModel.FindDistinct | caches/CacheImp.h:19 | With distinct keys, a key is found exactly at its one node. |
| LruModel.LookupAt | caches/CacheImp.h:58-60 | With distinct keys, `get` returns the value of the key's node. |
| LruModel.LookupAbsent | caches/CacheImp.h:55-56 | A key held by no node reads as out_of_range. |
| LruModel.FrontLookup | caches/CacheImp.h:44-49 | A new front node followed by a prefix of the list answers as the list does, for every other key not in the dropped suffix. |
| KwayMerge.PopMin | operations/k-way-merge/KwayMerge.h:17-48 | Takes a heap node that no other node is greater than (by operator>) and removes exactly one occurrence of it. |
| KwayMerge.InitialHeap | operations/k-way-merge/KwayMerge.h:33-37 | The heap holds exactly the first node of every non-empty block. |
| KwayMerge.MergeKBlocks | operations/k-way-merge/KwayMerge.h:22-63 | No blocks give []. One block is returned as it is. Otherwise the result has exactly the elements of all blocks (so the length is their total), and it is sorted when every block is sorted. |
| KwayMerge.MergeStep | operations/k-way-merge/KwayMerge.h:46-60 | One pop, push-successor and append keeps the invariant. The invariant says the heap holds the head of every block, the output holds the consumed elements, and with sorted blocks the output is sorted and at most the heap. The number of elements left decreases. |
| KwayMerge.HeapStep | operations/k-way-merge/KwayMerge.h:47-59 | The popped node is the head of its block. After pushing its successor, the heap holds the heads with that block advanced by one. |
| KwayMerge.OrderStep | operations/k-way-merge/KwayMerge.h:46-59 | With sorted blocks, the popped value is at most every value remaining in the heap and at most its successor. |
| KwayMerge.MergeDone | operations/k-way-merge/KwayMerge.h:46-62 | Once the heap is empty the output holds every element of every block, and it is sorted if the blocks are. |
| KwaySort.ChunksFlatten | operations/k-way-merge/KwayMerge.h:84-89 | The pieces concatenate back to the input. |
| KwaySort.ChunksShape | operations/k-way-merge/KwayMerge.h:84-86 | Every piece has 1 to block_size elements, and all but the last have exactly block_size. |
| KwaySort.ChunksCount | operations/k-way-merge/KwayMerge.h:84-89 | The number of pieces is \|a\| / size rounded up. |
| KwaySort.ChunksFewer | operations/k-way-merge/KwayMerge.h:99-103 | With a group size of at least 2, a non-empty list of n blocks gives at least 1 and at most (n + 1) / 2 groups. |
| KwaySort.SplitIntoSortedBlocks | operations/k-way-merge/KwayMerge.h:82-89 | Block j is the j-th piece of block_size elements, sorted. |
| KwaySort.SortedBlocks | operations/k-way-merge/KwayMerge.h:82-89 | The sorted blocks are all sorted and hold exactly the input's elements. |
| KwaySort.MergeRound | operations/k-way-merge/KwayMerge.h:100-114 | Merged block j holds exactly the elements of the j-th run of k consecutive blocks. Sorted blocks give sorted merged blocks. |
| KwaySort.RoundFacts | operations/k-way-merge/KwayMerge.h:99-115 | A round keeps every element and leaves at least one block. From two blocks or more it leaves strictly fewer, which is why the rounds terminate. |
| KwaySort.MergedGroups | operations/k-way-merge/KwayMerge.h:102-112 | Blocks that each hold one group's elements hold all the elements of all the groups. |
| KwaySort.KwayMergeSort | operations/k-way-merge/KwayMerge.h:65-118 | The result is sorted and a permutation of the input, and it equals `Sort(a)`. It therefore depends on neither k nor block_size, which covers the clamping of k < 2 and block_size 0. An empty input gives an empty result. |
| KwaySort.KwayMergeSortDefault | operations/k-way-merge/KwayMerge.h:66-68 | With the default k = 4 and block_size = 8 the result is `Sort(a)`. |
| Sorting.Insert | operations/k-way-merge/KwayMerge.h:87 | Insertion into a sorted sequence gives a sorted sequence with one more occurrence of the element. |
| Sorting.Sort | operations/k-way-merge/KwayMerge.h:87 | The reference for std::sort: the result is sorted, a permutation, and of the same length. |
| Sorting.SortedPermutationUnique | operations/k-way-merge/KwayMerge.h:87-117 | Two sorted sequences with the same elements are equal. |
| Sorting.SortIsUnique | operations/k-way-merge/KwayMerge.h:117 | Any sorted permutation of s equals `Sort(s)`. |
| Sorting.SortOfSorted | operations/k-way-merge/KwayMerge.h:87-117 | An already sorted input is its own sort, so the merge sort returns it unchanged. |

## Left out

- Hashing, `std::unordered_map` and the O(1) cost of the cache are not modelled. The index is a Dafny `map`.
- `std::list` iterators and `splice` are not modelled as such. A node id stands for an iterator, and the splice is a reordering of the id sequence.
- The `ICache` base interface and the destructor are not modelled. `ICache.h` is not part of this model.
- Exceptions are not modelled as a control-flow mechanism. `invalid_argument` and `out_of_range` are `Failure` results.
- LruCache.LRUCache.constructor: requires capacity >= 1. The throwing C++ constructor is `LRUCache.New`, which fails on 0.
- The cache's `size_t` width is not modelled. Sizes and capacity are unbounded naturals.
- The merge sort's element type `T` is fixed to `int`. The floating-point instantiation is not modelled.
- `std::sort` is not modelled as such. The block sort is the verified insertion sort `Sorting.Sort`, which specifies the same result: the unique sorted permutation.
- `std::priority_queue` is not modelled as a binary heap. It is a sequence with a verified linear minimum search, which pops the first of several equal minima; a binary heap may pop another one.
- KwayMerge.MergeKBlocks: promises the exact output sequence only through sortedness. When every block is sorted, as inside `KwayMergeSort`, the output is the unique sorted permutation, whichever equal minimum is popped. For unsorted blocks with equal heads the order can differ from the C++ (blocks `[[1],[1,0],[0]]` give `[0,1,1,0]` here, while a binary heap may give `[0,1,0,1]`), and only the multiset of the output is promised.
- `result.reserve(total_size)` and the total-size loop (KwayMerge.h:39-44) are not modelled. They only affect allocation.
- Move semantics and copies of blocks are not modelled.
- The `size_t` arithmetic of the split and the rounds is not modelled. `i + block_size` and `i + k` are unbounded, so a wrap-around near `SIZE_MAX` is outside the model.
