/**
 * Block-based k-way merge sort over integers. The input is cut into blocks
 * of `blockSize` elements, each block is sorted, and groups of up to `k`
 * sorted blocks are merged with a min-heap, round after round, until one
 * block is left. The heap is a sequence of heap nodes from which the node
 * with the least value is taken, as std::priority_queue with std::greater
 * does.
 */
module KwayMerge {
  import opened Sorting

  /** A heap entry: a value, the block it came from and its index in that block. */
  datatype MergeNode = MergeNode(value: int, arrayIndex: nat, elementIndex: nat)

  /** MergeNode::operator>, which std::greater uses to make the heap a min-heap. */
  predicate Greater(a: MergeNode, b: MergeNode) {
    a.value > b.value
  }

  function Min(a: int, b: int): int {
    if a <= b then a else b
  }

  /** The blocks laid end to end. */
  function Flatten<T>(blocks: seq<seq<T>>): seq<T> {
    if blocks == [] then [] else Flatten(blocks[..|blocks| - 1]) + blocks[|blocks| - 1]
  }

  lemma {:induction false} FlattenAppend<T>(a: seq<seq<T>>, b: seq<seq<T>>)
    ensures Flatten(a + b) == Flatten(a) + Flatten(b)
    decreases |b|
  {
    if b == [] {
      assert a + b == a;
    } else {
      var front, last := b[..|b| - 1], b[|b| - 1];
      assert (a + b)[..|a + b| - 1] == a + front;
      FlattenAppend(a, front);
      assert Flatten(a + b) == (Flatten(a) + Flatten(front)) + last;
      assert Flatten(b) == Flatten(front) + last;
    }
  }

  lemma FlattenOne<T>(x: seq<T>)
    ensures Flatten([x]) == x
  {
    assert [x][..0] == [];
  }

  ghost predicate AllSorted(blocks: seq<seq<int>>) {
    forall j :: 0 <= j < |blocks| ==> Sorted(blocks[j])
  }

  /** Takes a node that no other node is less than out of the heap (top() then pop()). */
  method PopMin(heap: seq<MergeNode>) returns (top: MergeNode, rest: seq<MergeNode>)
    requires heap != []
    ensures top in heap
    ensures forall n :: n in heap ==> !Greater(top, n)
    ensures multiset(rest) + multiset{top} == multiset(heap)
  {
    var m := 0;
    var i := 1;
    while i < |heap|
      invariant m < i <= |heap|
      invariant forall j :: 0 <= j < i ==> !Greater(heap[m], heap[j])
    {
      if Greater(heap[m], heap[i]) {
        m := i;
      }
      i := i + 1;
    }
    top := heap[m];
    rest := heap[..m] + heap[m + 1..];
    assert heap == heap[..m] + [top] + heap[m + 1..];
  }

  // ---- Bookkeeping of a merge in progress: cursor[i] elements of block i are consumed.

  ghost predicate CursorOk(blocks: seq<seq<int>>, cursor: seq<nat>) {
    |cursor| == |blocks| && forall j :: 0 <= j < |blocks| ==> cursor[j] <= |blocks[j]|
  }

  /** The heap node of block i when pos of its elements are consumed, if one is left. */
  ghost function HeadNode(block: seq<int>, i: nat, pos: nat): multiset<MergeNode> {
    if pos < |block| then multiset{MergeNode(block[pos], i, pos)} else multiset{}
  }

  /** The consumed prefix of a block. */
  ghost function Taken(block: seq<int>, pos: nat): seq<int> {
    if pos <= |block| then block[..pos] else block
  }

  /** The number of unconsumed elements of a block. */
  ghost function Left(block: seq<int>, pos: nat): nat {
    if pos <= |block| then |block| - pos else 0
  }

  /** The heap nodes of the first n blocks. */
  ghost function Heads(blocks: seq<seq<int>>, cursor: seq<nat>, n: nat): multiset<MergeNode> {
    if n == 0 || n > |blocks| || n > |cursor| then multiset{}
    else Heads(blocks, cursor, n - 1) + HeadNode(blocks[n - 1], n - 1, cursor[n - 1])
  }

  /** The consumed elements of the first n blocks. */
  ghost function Consumed(blocks: seq<seq<int>>, cursor: seq<nat>, n: nat): multiset<int> {
    if n == 0 || n > |blocks| || n > |cursor| then multiset{}
    else Consumed(blocks, cursor, n - 1) + multiset(Taken(blocks[n - 1], cursor[n - 1]))
  }

  /** The number of unconsumed elements of the first n blocks. */
  ghost function Remaining(blocks: seq<seq<int>>, cursor: seq<nat>, n: nat): nat {
    if n == 0 || n > |blocks| || n > |cursor| then 0
    else Remaining(blocks, cursor, n - 1) + Left(blocks[n - 1], cursor[n - 1])
  }

  /** A heap node describes the next unconsumed element of its block. */
  lemma {:induction false} HeadsMember(blocks: seq<seq<int>>, cursor: seq<nat>, n: nat, x: MergeNode)
    requires CursorOk(blocks, cursor) && n <= |blocks| && x in Heads(blocks, cursor, n)
    ensures x.arrayIndex < n && x.elementIndex == cursor[x.arrayIndex]
    ensures x.elementIndex < |blocks[x.arrayIndex]| && x.value == blocks[x.arrayIndex][x.elementIndex]
  {
    if x !in HeadNode(blocks[n - 1], n - 1, cursor[n - 1]) {
      HeadsMember(blocks, cursor, n - 1, x);
    }
  }

  /** An empty heap means every block is fully consumed. */
  lemma {:induction false} HeadsEmpty(blocks: seq<seq<int>>, cursor: seq<nat>, n: nat)
    requires CursorOk(blocks, cursor) && n <= |blocks| && Heads(blocks, cursor, n) == multiset{}
    ensures forall j :: 0 <= j < n ==> cursor[j] == |blocks[j]|
  {
    if n > 0 {
      assert HeadNode(blocks[n - 1], n - 1, cursor[n - 1]) == multiset{};
      HeadsEmpty(blocks, cursor, n - 1);
    }
  }

  /** Fully consumed blocks contribute all their elements. */
  lemma {:induction false} ConsumedAll(blocks: seq<seq<int>>, cursor: seq<nat>, n: nat)
    requires CursorOk(blocks, cursor) && n <= |blocks|
    requires forall j :: 0 <= j < n ==> cursor[j] == |blocks[j]|
    ensures Consumed(blocks, cursor, n) == multiset(Flatten(blocks[..n]))
  {
    if n > 0 {
      ConsumedAll(blocks, cursor, n - 1);
      assert blocks[..n][..n - 1] == blocks[..n - 1];
      assert Taken(blocks[n - 1], cursor[n - 1]) == blocks[n - 1];
    }
  }

  /** Two cursors that agree on the first n blocks give the same heap nodes for them. */
  lemma {:induction false} AgreeHeads(blocks: seq<seq<int>>, c: seq<nat>, d: seq<nat>, n: nat)
    requires n <= |c| && n <= |d| && forall j :: 0 <= j < n ==> c[j] == d[j]
    ensures Heads(blocks, c, n) == Heads(blocks, d, n)
  {
    if n > 0 {
      AgreeHeads(blocks, c, d, n - 1);
    }
  }

  /** Two cursors that agree on the first n blocks give the same consumed elements for them. */
  lemma {:induction false} AgreeConsumed(blocks: seq<seq<int>>, c: seq<nat>, d: seq<nat>, n: nat)
    requires n <= |c| && n <= |d| && forall j :: 0 <= j < n ==> c[j] == d[j]
    ensures Consumed(blocks, c, n) == Consumed(blocks, d, n)
  {
    if n > 0 {
      AgreeConsumed(blocks, c, d, n - 1);
    }
  }

  /** Two cursors that agree on the first n blocks leave the same number of elements in them. */
  lemma {:induction false} AgreeRemaining(blocks: seq<seq<int>>, c: seq<nat>, d: seq<nat>, n: nat)
    requires n <= |c| && n <= |d| && forall j :: 0 <= j < n ==> c[j] == d[j]
    ensures Remaining(blocks, c, n) == Remaining(blocks, d, n)
  {
    if n > 0 {
      AgreeRemaining(blocks, c, d, n - 1);
    }
  }

  /** Adding the same elements to both sides of an equation of multisets keeps it. */
  lemma AddBoth<T>(p: multiset<T>, q: multiset<T>, a: multiset<T>, b: multiset<T>, x: multiset<T>)
    requires p + a == q + b
    ensures (p + x) + a == (q + x) + b
  {
    calc {
      (p + x) + a;
      (p + a) + x;
      (q + b) + x;
      (q + x) + b;
    }
  }

  lemma UnionSwap<T>(h: multiset<T>, a: multiset<T>, b: multiset<T>)
    ensures (h + a) + b == (h + b) + a
  {
  }

  lemma UnionAssoc<T>(p: multiset<T>, a: multiset<T>, b: multiset<T>)
    ensures p + (a + b) == (p + a) + b
  {
  }

  lemma Cancel<T>(p: multiset<T>, q: multiset<T>, x: multiset<T>)
    requires p + x == q + x
    ensures p == q
  {
    assert forall t :: p[t] == (p + x)[t] - x[t];
  }

  /** d is c with one more element of block i consumed. */
  ghost predicate Advanced(blocks: seq<seq<int>>, c: seq<nat>, d: seq<nat>, i: nat) {
    |c| == |blocks| && i < |blocks| && c[i] < |blocks[i]| && d == c[i := c[i] + 1]
  }

  /** Consuming one element of block i swaps its heap node for the next one. */
  lemma {:induction false} AdvanceHeads(blocks: seq<seq<int>>, c: seq<nat>, d: seq<nat>, i: nat, n: nat)
    requires Advanced(blocks, c, d, i) && i < n <= |blocks|
    ensures Heads(blocks, d, n) + HeadNode(blocks[i], i, c[i]) == Heads(blocks, c, n) + HeadNode(blocks[i], i, d[i])
  {
    if n - 1 == i {
      AdvanceHeadsAt(blocks, c, d, i);
    } else {
      AdvanceHeads(blocks, c, d, i, n - 1);
      assert d[n - 1] == c[n - 1];
      var x := HeadNode(blocks[n - 1], n - 1, c[n - 1]);
      assert Heads(blocks, d, n) == Heads(blocks, d, n - 1) + x;
      assert Heads(blocks, c, n) == Heads(blocks, c, n - 1) + x;
      AddBoth(Heads(blocks, d, n - 1), Heads(blocks, c, n - 1), HeadNode(blocks[i], i, c[i]), HeadNode(blocks[i], i, d[i]), x);
    }
  }

  lemma AdvanceHeadsAt(blocks: seq<seq<int>>, c: seq<nat>, d: seq<nat>, i: nat)
    requires Advanced(blocks, c, d, i)
    ensures Heads(blocks, d, i + 1) + HeadNode(blocks[i], i, c[i]) == Heads(blocks, c, i + 1) + HeadNode(blocks[i], i, d[i])
  {
    AgreeHeads(blocks, c, d, i);
    var p := Heads(blocks, c, i);
    assert Heads(blocks, d, i + 1) == p + HeadNode(blocks[i], i, d[i]);
    assert Heads(blocks, c, i + 1) == p + HeadNode(blocks[i], i, c[i]);
    UnionSwap(p, HeadNode(blocks[i], i, d[i]), HeadNode(blocks[i], i, c[i]));
  }

  /** Consuming one element of block i adds exactly that element to the output. */
  lemma {:induction false} AdvanceConsumed(blocks: seq<seq<int>>, c: seq<nat>, d: seq<nat>, i: nat, n: nat)
    requires Advanced(blocks, c, d, i) && i < n <= |blocks|
    ensures Consumed(blocks, d, n) == Consumed(blocks, c, n) + multiset{blocks[i][c[i]]}
  {
    var e := multiset{blocks[i][c[i]]};
    if n - 1 == i {
      AgreeConsumed(blocks, c, d, i);
      TakeOneMore(blocks[i], c[i]);
      var p := Consumed(blocks, c, i);
      var t := multiset(Taken(blocks[i], c[i]));
      assert Consumed(blocks, d, n) == p + (t + e);
      assert Consumed(blocks, c, n) == p + t;
      UnionAssoc(p, t, e);
    } else {
      AdvanceConsumed(blocks, c, d, i, n - 1);
      assert d[n - 1] == c[n - 1];
      var p := Consumed(blocks, c, n - 1);
      var x := multiset(Taken(blocks[n - 1], c[n - 1]));
      assert Consumed(blocks, d, n) == Consumed(blocks, d, n - 1) + x;
      assert Consumed(blocks, c, n) == p + x;
      UnionSwap(p, e, x);
    }
  }

  /** Consuming the element at pos adds it to the consumed prefix. */
  lemma TakeOneMore(block: seq<int>, pos: nat)
    requires pos < |block|
    ensures multiset(Taken(block, pos + 1)) == multiset(Taken(block, pos)) + multiset{block[pos]}
  {
    assert Taken(block, pos + 1) == Taken(block, pos) + [block[pos]];
  }

  /** Consuming one element of block i leaves one element fewer to consume. */
  lemma {:induction false} AdvanceRemaining(blocks: seq<seq<int>>, c: seq<nat>, d: seq<nat>, i: nat, n: nat)
    requires Advanced(blocks, c, d, i) && i < n <= |blocks|
    ensures Remaining(blocks, d, n) + 1 == Remaining(blocks, c, n)
  {
    if n - 1 == i {
      AgreeRemaining(blocks, c, d, i);
      assert Remaining(blocks, d, n) == Remaining(blocks, c, i) + Left(blocks[i], d[i]);
      assert Remaining(blocks, c, n) == Remaining(blocks, c, i) + Left(blocks[i], c[i]);
    } else {
      AdvanceRemaining(blocks, c, d, i, n - 1);
      assert d[n - 1] == c[n - 1];
      assert Remaining(blocks, d, n) == Remaining(blocks, d, n - 1) + Left(blocks[n - 1], c[n - 1]);
    }
  }

  /** Nothing is consumed while the cursor is all zeros. */
  lemma {:induction false} ConsumedNone(blocks: seq<seq<int>>, c: seq<nat>, n: nat)
    requires n <= |blocks| && n <= |c| && forall j :: 0 <= j < |c| ==> c[j] == 0
    ensures Consumed(blocks, c, n) == multiset{}
  {
    if n > 0 {
      ConsumedNone(blocks, c, n - 1);
      assert Taken(blocks[n - 1], 0) == [];
    }
  }

  /** The last output value is at most every value still in the heap. */
  ghost predicate Below(result: seq<int>, heap: seq<MergeNode>) {
    result != [] ==> forall n :: n in heap ==> result[|result| - 1] <= n.value
  }

  /** The next node of the block a popped node came from, if there is one. */
  function Successor(blocks: seq<seq<int>>, node: MergeNode): seq<MergeNode>
    requires node.arrayIndex < |blocks|
  {
    var next := node.elementIndex + 1;
    if next < |blocks[node.arrayIndex]| then [MergeNode(blocks[node.arrayIndex][next], node.arrayIndex, next)] else []
  }

  /**
   * Popping a node from the heap and pushing its successor: the node was the
   * head of its block, and the new heap holds the heads once that block has
   * one more element consumed.
   */
  lemma HeapStep(blocks: seq<seq<int>>, cursor: seq<nat>, heap: seq<MergeNode>, top: MergeNode, rest: seq<MergeNode>)
    requires CursorOk(blocks, cursor) && multiset(heap) == Heads(blocks, cursor, |blocks|)
    requires multiset(rest) + multiset{top} == multiset(heap)
    ensures top.arrayIndex < |blocks| && top.elementIndex == cursor[top.arrayIndex]
    ensures top.elementIndex < |blocks[top.arrayIndex]|
    ensures top.value == blocks[top.arrayIndex][top.elementIndex]
    ensures multiset(rest + Successor(blocks, top))
         == Heads(blocks, cursor[top.arrayIndex := top.elementIndex + 1], |blocks|)
  {
    assert top in multiset(heap);
    HeadsMember(blocks, cursor, |blocks|, top);
    var a := top.arrayIndex;
    var d := cursor[a := top.elementIndex + 1];
    AdvanceHeads(blocks, cursor, d, a, |blocks|);
    var pushed := HeadNode(blocks[a], a, d[a]);
    assert multiset(Successor(blocks, top)) == pushed;
    assert HeadNode(blocks[a], a, cursor[a]) == multiset{top};
    UnionSwap(multiset(rest), multiset{top}, pushed);
    Cancel(Heads(blocks, d, |blocks|), multiset(rest) + pushed, multiset{top});
  }

  /** Consuming the head of its block keeps the cursor within the blocks. */
  lemma CursorStep(blocks: seq<seq<int>>, cursor: seq<nat>, top: MergeNode)
    requires CursorOk(blocks, cursor) && top.arrayIndex < |blocks| && top.elementIndex < |blocks[top.arrayIndex]|
    ensures CursorOk(blocks, cursor[top.arrayIndex := top.elementIndex + 1])
  {
  }

  /** Consuming the head of its block appends a node's value to the output. */
  lemma OutputStep(blocks: seq<seq<int>>, cursor: seq<nat>, result: seq<int>, top: MergeNode)
    requires CursorOk(blocks, cursor) && top.arrayIndex < |blocks| && top.elementIndex == cursor[top.arrayIndex]
    requires top.elementIndex < |blocks[top.arrayIndex]| && top.value == blocks[top.arrayIndex][top.elementIndex]
    requires multiset(result) == Consumed(blocks, cursor, |blocks|)
    ensures multiset(result + [top.value]) == Consumed(blocks, cursor[top.arrayIndex := top.elementIndex + 1], |blocks|)
  {
    AdvanceConsumed(blocks, cursor, cursor[top.arrayIndex := top.elementIndex + 1], top.arrayIndex, |blocks|);
  }

  /** Consuming the head of its block leaves one element fewer. */
  lemma ProgressStep(blocks: seq<seq<int>>, cursor: seq<nat>, top: MergeNode)
    requires CursorOk(blocks, cursor) && top.arrayIndex < |blocks| && top.elementIndex == cursor[top.arrayIndex]
    requires top.elementIndex < |blocks[top.arrayIndex]|
    ensures Remaining(blocks, cursor[top.arrayIndex := top.elementIndex + 1], |blocks|) < Remaining(blocks, cursor, |blocks|)
  {
    AdvanceRemaining(blocks, cursor, cursor[top.arrayIndex := top.elementIndex + 1], top.arrayIndex, |blocks|);
  }

  /** Appending a value no less than the last keeps a sequence sorted. */
  lemma SortedAppend(s: seq<int>, v: int)
    requires Sorted(s) && (s != [] ==> s[|s| - 1] <= v)
    ensures Sorted(s + [v])
  {
    var r := s + [v];
    forall i, j | 0 <= i < j < |r|
      ensures r[i] <= r[j]
    {
      if j == |s| && i < j {
        assert s[i] <= s[|s| - 1];
      }
    }
  }

  /**
   * With sorted blocks, the popped node's value is at most every value left
   * in the heap and its successor's.
   */
  lemma OrderStep(blocks: seq<seq<int>>, heap: seq<MergeNode>, top: MergeNode, rest: seq<MergeNode>)
    requires top.arrayIndex < |blocks| && Sorted(blocks[top.arrayIndex])
    requires top.elementIndex < |blocks[top.arrayIndex]| && top.value == blocks[top.arrayIndex][top.elementIndex]
    requires forall n :: n in heap ==> !Greater(top, n)
    requires multiset(rest) + multiset{top} == multiset(heap)
    ensures Below([top.value], rest + Successor(blocks, top))
  {
    forall n | n in rest + Successor(blocks, top)
      ensures top.value <= n.value
    {
      if n in rest {
        assert n in multiset(rest);
        assert n in multiset(heap);
        assert n in heap;
        assert !Greater(top, n);
      } else {
        var a := top.arrayIndex;
        assert n == Successor(blocks, top)[0];
        assert blocks[a][top.elementIndex] <= blocks[a][top.elementIndex + 1];
      }
    }
  }

  /** The invariant of the merge loop: the heap and the output account for every element. */
  ghost predicate MergeState(blocks: seq<seq<int>>, cursor: seq<nat>, heap: seq<MergeNode>, result: seq<int>) {
    && CursorOk(blocks, cursor)
    && multiset(heap) == Heads(blocks, cursor, |blocks|)
    && multiset(result) == Consumed(blocks, cursor, |blocks|)
    && (AllSorted(blocks) ==> Sorted(result) && Below(result, heap))
  }

  /** One iteration of the merge loop keeps its invariant and consumes one element. */
  lemma MergeStep(blocks: seq<seq<int>>, cursor: seq<nat>, heap: seq<MergeNode>, result: seq<int>,
                  top: MergeNode, rest: seq<MergeNode>)
    requires MergeState(blocks, cursor, heap, result)
    requires top in heap && forall n :: n in heap ==> !Greater(top, n)
    requires multiset(rest) + multiset{top} == multiset(heap)
    ensures top.arrayIndex < |blocks|
    ensures MergeState(blocks, cursor[top.arrayIndex := top.elementIndex + 1],
                       rest + Successor(blocks, top), result + [top.value])
    ensures Remaining(blocks, cursor[top.arrayIndex := top.elementIndex + 1], |blocks|)
          < Remaining(blocks, cursor, |blocks|)
  {
    HeapStep(blocks, cursor, heap, top, rest);
    CursorStep(blocks, cursor, top);
    OutputStep(blocks, cursor, result, top);
    ProgressStep(blocks, cursor, top);
    if AllSorted(blocks) {
      SortedAppend(result, top.value);
      OrderStep(blocks, heap, top, rest);
    }
  }

  /** Before the first pop, nothing is consumed and the heap holds every block's first element. */
  lemma MergeStart(blocks: seq<seq<int>>, heap: seq<MergeNode>)
    requires multiset(heap) == Heads(blocks, seq(|blocks|, _ => 0), |blocks|)
    ensures MergeState(blocks, seq(|blocks|, _ => 0), heap, [])
  {
    ConsumedNone(blocks, seq(|blocks|, _ => 0), |blocks|);
  }

  /** Once the heap is empty, the output holds every element of every block. */
  lemma MergeDone(blocks: seq<seq<int>>, cursor: seq<nat>, result: seq<int>)
    requires MergeState(blocks, cursor, [], result)
    ensures multiset(result) == multiset(Flatten(blocks))
    ensures AllSorted(blocks) ==> Sorted(result)
  {
    HeadsEmpty(blocks, cursor, |blocks|);
    ConsumedAll(blocks, cursor, |blocks|);
    assert blocks[..|blocks|] == blocks;
  }

  /** Builds the initial heap: the first element of every non-empty block. */
  method InitialHeap(blocks: seq<seq<int>>) returns (heap: seq<MergeNode>)
    ensures multiset(heap) == Heads(blocks, seq(|blocks|, _ => 0), |blocks|)
  {
    ghost var zero: seq<nat> := seq(|blocks|, _ => 0);
    heap := [];
    var i := 0;
    while i < |blocks|
      invariant i <= |blocks|
      invariant multiset(heap) == Heads(blocks, zero, i)
    {
      if |blocks[i]| > 0 {
        heap := heap + [MergeNode(blocks[i][0], i, 0)];
      }
      i := i + 1;
    }
  }

  /**
   * mergeKBlocks: no blocks give an empty result, one block is returned as it
   * is, and otherwise the result holds exactly the elements of all blocks,
   * in order whenever every block is sorted.
   */
  method MergeKBlocks(blocks: seq<seq<int>>) returns (result: seq<int>)
    ensures blocks == [] ==> result == []
    ensures |blocks| == 1 ==> result == blocks[0]
    ensures multiset(result) == multiset(Flatten(blocks))
    ensures AllSorted(blocks) ==> Sorted(result)
  {
    if |blocks| == 0 {
      return [];
    }
    if |blocks| == 1 {
      FlattenOne(blocks[0]);
      return blocks[0];
    }
    var heap := InitialHeap(blocks);
    ghost var cursor: seq<nat> := seq(|blocks|, _ => 0);
    result := [];
    MergeStart(blocks, heap);
    while heap != []
      invariant MergeState(blocks, cursor, heap, result)
      decreases Remaining(blocks, cursor, |blocks|)
    {
      var current, rest := PopMin(heap);
      MergeStep(blocks, cursor, heap, result, current, rest);
      cursor := cursor[current.arrayIndex := current.elementIndex + 1];
      heap := rest + Successor(blocks, current);
      result := result + [current.value];
    }
    MergeDone(blocks, cursor, result);
  }
}
