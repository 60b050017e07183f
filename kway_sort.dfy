/**
 * KwayMergeSort: the input is cut into blocks of blockSize elements, each
 * block is sorted, and runs of k consecutive blocks are merged with
 * mergeKBlocks, round after round, until one block is left.
 */
module KwaySort {
  import opened Sorting
  import opened KwayMerge

  /** The consecutive pieces of a of the given size, the last one possibly shorter. */
  function Chunks<T>(a: seq<T>, size: nat): seq<seq<T>>
    requires size >= 1
    decreases |a|
  {
    if a == [] then [] else if |a| <= size then [a] else [a[..size]] + Chunks(a[size..], size)
  }

  /** The number of pieces is |a| divided by size, rounded up. */
  lemma {:induction false} ChunksCount<T>(a: seq<T>, size: nat)
    requires size >= 1
    ensures |a| <= |Chunks(a, size)| * size
    ensures a != [] ==> (|Chunks(a, size)| - 1) * size < |a|
    decreases |a|
  {
    if a != [] && |a| > size {
      var n := |Chunks(a[size..], size)|;
      ChunksCount(a[size..], size);
      assert (n + 1) * size == n * size + size;
    }
  }

  /** With pieces of at least two, a non-empty input gives at most half as many pieces, rounded up. */
  lemma {:induction false} ChunksFewer<T>(a: seq<T>, size: nat)
    requires size >= 2 && a != []
    ensures 1 <= |Chunks(a, size)| && 2 * |Chunks(a, size)| <= |a| + 1
    decreases |a|
  {
    if |a| > size {
      ChunksFewer(a[size..], size);
    }
  }

  /** Laid end to end, the pieces give back the input. */
  lemma {:induction false} ChunksFlatten<T>(a: seq<T>, size: nat)
    requires size >= 1
    ensures Flatten(Chunks(a, size)) == a
    decreases |a|
  {
    if a == [] {
    } else if |a| <= size {
      FlattenOne(a);
    } else {
      ChunksFlatten(a[size..], size);
      FlattenAppend([a[..size]], Chunks(a[size..], size));
      FlattenOne(a[..size]);
      assert a == a[..size] + a[size..];
    }
  }

  /** Every piece holds between 1 and size elements, and all but the last exactly size. */
  lemma {:induction false} ChunksShape<T>(a: seq<T>, size: nat)
    requires size >= 1
    ensures forall j :: 0 <= j < |Chunks(a, size)| ==> 1 <= |Chunks(a, size)[j]| <= size
    ensures forall j :: 0 <= j < |Chunks(a, size)| - 1 ==> |Chunks(a, size)[j]| == size
    decreases |a|
  {
    if a != [] && |a| > size {
      ChunksShape(a[size..], size);
    }
  }

  /** Peeling the piece that starts at i off the pieces of a[i..]. */
  lemma ChunksFrom<T>(a: seq<T>, size: nat, i: nat)
    requires size >= 1 && i < |a|
    ensures Chunks(a[i..], size) == [a[i..Min(i + size, |a|)]] + Chunks(a[Min(i + size, |a|)..], size)
  {
    var end := Min(i + size, |a|);
    if |a[i..]| <= size {
      assert a[i..] == a[i..end];
      assert a[end..] == [];
    } else {
      assert a[i..][..size] == a[i..end];
      assert a[i..][size..] == a[end..];
    }
  }

  /** The loop step over the pieces: the piece at i moves from what is left to what is done. */
  lemma ChunksNext<T>(a: seq<T>, size: nat, i: nat, done: seq<seq<T>>)
    requires size >= 1 && i < |a|
    requires Chunks(a, size) == done + Chunks(a[Min(i, |a|)..], size)
    ensures Chunks(a, size) == (done + [a[i..Min(i + size, |a|)]]) + Chunks(a[Min(i + size, |a|)..], size)
  {
    ChunksFrom(a, size, i);
    assert a[Min(i, |a|)..] == a[i..];
  }

  /**
   * Cuts the input into pieces of blockSize elements (the last may be
   * shorter) and sorts each piece.
   */
  method SplitIntoSortedBlocks(a: seq<int>, blockSize: nat) returns (blocks: seq<seq<int>>)
    requires blockSize >= 1
    ensures SortedPieces(blocks, Chunks(a, blockSize))
  {
    blocks := [];
    ghost var pieces: seq<seq<int>> := [];
    var i := 0;
    while i < |a|
      invariant SortedPieces(blocks, pieces)
      invariant Chunks(a, blockSize) == pieces + Chunks(a[Min(i, |a|)..], blockSize)
      decreases |a| - i
    {
      var end := Min(i + blockSize, |a|);
      ChunksNext(a, blockSize, i, pieces);
      var block := a[i..end];
      SortedPiecesAppend(blocks, pieces, block);
      pieces := pieces + [block];
      blocks := blocks + [Sort(block)];
      i := i + blockSize;
    }
    assert a[Min(i, |a|)..] == [];
  }

  /** Each block is the piece at the same index, sorted. */
  ghost predicate SortedPieces(blocks: seq<seq<int>>, pieces: seq<seq<int>>) {
    |blocks| == |pieces| && forall j :: 0 <= j < |blocks| ==> blocks[j] == Sort(pieces[j])
  }

  lemma SortedPiecesAppend(blocks: seq<seq<int>>, pieces: seq<seq<int>>, piece: seq<int>)
    requires SortedPieces(blocks, pieces)
    ensures SortedPieces(blocks + [Sort(piece)], pieces + [piece])
  {
  }

  /** Blocks that pairwise hold the same elements hold the same elements in all. */
  lemma {:induction false} FlattenSameElements(xs: seq<seq<int>>, ys: seq<seq<int>>)
    requires |xs| == |ys| && forall j :: 0 <= j < |xs| ==> multiset(xs[j]) == multiset(ys[j])
    ensures multiset(Flatten(xs)) == multiset(Flatten(ys))
    decreases |xs|
  {
    if xs != [] {
      FlattenSameElements(xs[..|xs| - 1], ys[..|ys| - 1]);
    }
  }

  /** Blocks that each hold the elements of one group of blocks hold all their elements. */
  lemma {:induction false} MergedGroups(merged: seq<seq<int>>, groups: seq<seq<seq<int>>>)
    requires MergedFrom(merged, groups)
    ensures multiset(Flatten(merged)) == multiset(Flatten(Flatten(groups)))
    decreases |merged|
  {
    if merged != [] {
      var n := |merged| - 1;
      MergedGroups(merged[..n], groups[..n]);
      FlattenAppend(Flatten(groups[..n]), groups[n]);
    }
  }

  /** Each merged block holds the elements of the group of blocks at the same index. */
  ghost predicate MergedFrom(merged: seq<seq<int>>, groups: seq<seq<seq<int>>>) {
    |merged| == |groups| && forall j :: 0 <= j < |merged| ==> multiset(merged[j]) == multiset(Flatten(groups[j]))
  }

  lemma MergedFromAppend(merged: seq<seq<int>>, groups: seq<seq<seq<int>>>, block: seq<int>, group: seq<seq<int>>)
    requires MergedFrom(merged, groups) && multiset(block) == multiset(Flatten(group))
    ensures MergedFrom(merged + [block], groups + [group])
  {
  }

  lemma AllSortedAppend(blocks: seq<seq<int>>, block: seq<int>)
    requires AllSorted(blocks) && Sorted(block)
    ensures AllSorted(blocks + [block])
  {
  }

  /**
   * One round of the merge: every run of k consecutive blocks (the last run
   * possibly shorter) is merged into one block.
   */
  method MergeRound(current: seq<seq<int>>, k: nat) returns (merged: seq<seq<int>>)
    requires k >= 2
    ensures MergedFrom(merged, Chunks(current, k))
    ensures AllSorted(current) ==> AllSorted(merged)
  {
    merged := [];
    ghost var groups: seq<seq<seq<int>>> := [];
    var i := 0;
    while i < |current|
      invariant MergedFrom(merged, groups)
      invariant Chunks(current, k) == groups + Chunks(current[Min(i, |current|)..], k)
      invariant AllSorted(current) ==> AllSorted(merged)
      decreases |current| - i
    {
      var groupEnd := Min(i + k, |current|);
      ChunksNext(current, k, i, groups);
      var group := current[i..groupEnd];
      var block := MergeKBlocks(group);
      MergedFromAppend(merged, groups, block, group);
      if AllSorted(current) {
        assert AllSorted(group);
        AllSortedAppend(merged, block);
      }
      groups := groups + [group];
      merged := merged + [block];
      i := i + k;
    }
    assert current[Min(i, |current|)..] == [];
  }

  /** A round keeps every element and, from two blocks or more, leaves fewer blocks. */
  lemma RoundFacts(current: seq<seq<int>>, k: nat, merged: seq<seq<int>>)
    requires k >= 2 && |current| >= 1
    requires MergedFrom(merged, Chunks(current, k))
    ensures multiset(Flatten(merged)) == multiset(Flatten(current))
    ensures 1 <= |merged| && (|current| > 1 ==> |merged| < |current|)
  {
    ChunksFewer(current, k);
    MergedGroups(merged, Chunks(current, k));
    ChunksFlatten(current, k);
  }

  const DefaultK: nat := 4
  const DefaultBlockSize: nat := 8

  /**
   * KwayMergeSort: an empty input gives an empty result; k below 2 counts as
   * 2 and a block size of 0 as 1; the result is the input sorted, whatever k
   * and the block size are.
   */
  method KwayMergeSort(a: seq<int>, k: nat, blockSize: nat) returns (result: seq<int>)
    ensures Sorted(result) && multiset(result) == multiset(a)
    ensures result == Sort(a)
  {
    if |a| == 0 {
      return [];
    }
    var k := k;
    var blockSize := blockSize;
    if k < 2 {
      k := 2;
    }
    if blockSize == 0 {
      blockSize := 1;
    }
    var sortedBlocks := SplitIntoSortedBlocks(a, blockSize);
    SortedBlocks(a, blockSize, sortedBlocks);
    if |sortedBlocks| == 1 {
      assert sortedBlocks == [sortedBlocks[0]];
      FlattenOne(sortedBlocks[0]);
      SortIsUnique(a, sortedBlocks[0]);
      return sortedBlocks[0];
    }
    k := Min(k, |sortedBlocks|);
    var current := sortedBlocks;
    while |current| > 1
      invariant 1 <= |current|
      invariant AllSorted(current) && multiset(Flatten(current)) == multiset(a)
      decreases |current|
    {
      var merged := MergeRound(current, k);
      RoundFacts(current, k, merged);
      current := merged;
    }
    assert current == [current[0]];
    FlattenOne(current[0]);
    result := current[0];
    SortIsUnique(a, result);
  }

  /** The sorted pieces are sorted and hold exactly the input's elements. */
  lemma SortedBlocks(a: seq<int>, blockSize: nat, blocks: seq<seq<int>>)
    requires blockSize >= 1
    requires SortedPieces(blocks, Chunks(a, blockSize))
    ensures AllSorted(blocks) && multiset(Flatten(blocks)) == multiset(a)
  {
    FlattenSameElements(blocks, Chunks(a, blockSize));
    ChunksFlatten(a, blockSize);
  }

  /** KwayMergeSort with the defaults k = 4 and a block size of 8. */
  method KwayMergeSortDefault(a: seq<int>) returns (result: seq<int>)
    ensures result == Sort(a)
  {
    result := KwayMergeSort(a, DefaultK, DefaultBlockSize);
  }
}
