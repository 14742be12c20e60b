/**
 * The max-heap visualizer: distinct numeric values kept in an array laid out
 * breadth-first, every parent at least as large as its children. Insertion
 * sifts the new value up; deletion splices the value out, renumbers the
 * entries and rebuilds the heap bottom-up by sifting down.
 */
module MaxHeapVisualizer {
  import opened Common
  import opened IndexTree

  /** An entry of the heap array: its value and the position it records for itself. */
  datatype HeapNode = HeapNode(value: int, index: nat)

  /** A parent-to-child line of the drawing, between two positions. */
  datatype Edge = Edge(from: nat, to: nat)

  function Values(h: seq<HeapNode>): (r: seq<int>)
    ensures |r| == |h| && forall k :: 0 <= k < |h| ==> r[k] == h[k].value
  {
    seq(|h|, k requires 0 <= k < |h| => h[k].value)
  }

  /** Every entry records its own position. */
  ghost predicate Indexed(h: seq<HeapNode>) {
    forall k :: 0 <= k < |h| ==> h[k].index == k
  }

  /** Every parent is at least as large as each of its children. */
  ghost predicate IsMaxHeap(h: seq<HeapNode>) {
    forall k :: 0 < k < |h| ==> h[Parent(k)].value >= h[k].value
  }

  /** The root of a max-heap holds its largest value. */
  lemma {:induction false} RootIsMax(h: seq<HeapNode>, k: nat)
    requires IsMaxHeap(h) && k < |h|
    ensures h[0].value >= h[k].value
    decreases k
  {
    if k > 0 {
      RootIsMax(h, Parent(k));
    }
  }

  /** The root of a max-heap is at least every value in it. */
  lemma HeapRootDominates(h: seq<HeapNode>)
    requires IsMaxHeap(h)
    ensures forall k :: 0 <= k < |h| ==> h[0].value >= h[k].value
  {
    forall k | 0 <= k < |h|
      ensures h[0].value >= h[k].value
    {
      RootIsMax(h, k);
    }
  }

  /**
   * Sifting up from i: every parent link is ordered except the one into i,
   * and i's parent already dominates i's children.
   */
  ghost predicate SiftUpInvariant(h: seq<HeapNode>, i: nat) {
    && i < |h|
    && (forall k :: 0 < k < |h| && k != i ==> h[Parent(k)].value >= h[k].value)
    && (forall k :: 0 < k < |h| && i > 0 && Parent(k) == i ==> h[Parent(i)].value >= h[k].value)
  }

  /**
   * Sifting down from j inside the subtree of i0: every parent link below i0
   * is ordered except the ones out of j, and j's parent dominates j's children.
   */
  ghost predicate SiftDownInvariant(h: seq<HeapNode>, i0: nat, j: nat) {
    && i0 <= j < |h|
    && (forall k :: 0 < k < |h| && Parent(k) >= i0 && Parent(k) != j ==> h[Parent(k)].value >= h[k].value)
    && (forall k :: 0 < k < |h| && j > i0 && Parent(k) == j ==> h[Parent(j)].value >= h[k].value)
  }

  /** The edges the drawing holds for a heap of n entries: one from each parent to each child, children in order. */
  function TreeEdges(n: nat): (r: seq<Edge>)
    ensures |r| == if n == 0 then 0 else n - 1
  {
    if n == 0 then [] else seq(n - 1, k requires 0 <= k < n - 1 => Edge(Parent(k + 1), k + 1))
  }

  /** The drawn edges join exactly each position other than the root to its parent. */
  lemma TreeEdgesAreParentLinks(n: nat, e: Edge)
    ensures e in TreeEdges(n) <==> 0 < e.to < n && e.from == Parent(e.to)
  {
    if 0 < e.to < n && e.from == Parent(e.to) {
      assert TreeEdges(n)[e.to - 1] == e;
    }
  }

  /** Every listed position lies below n. */
  predicate InBounds(idx: seq<nat>, n: nat) {
    forall j :: 0 <= j < |idx| ==> idx[j] < n
  }

  /** The values at the listed positions, in the order listed. */
  function Pick(v: seq<int>, idx: seq<nat>): (r: seq<int>)
    requires InBounds(idx, |v|)
    ensures |r| == |idx| && forall j :: 0 <= j < |idx| ==> r[j] == v[idx[j]]
  {
    if idx == [] then [] else [v[idx[0]]] + Pick(v, idx[1..])
  }

  lemma PickAppend(v: seq<int>, a: seq<nat>, b: seq<nat>)
    requires InBounds(a, |v|) && InBounds(b, |v|)
    ensures InBounds(a + b, |v|)
    ensures Pick(v, a + b) == Pick(v, a) + Pick(v, b)
  {
  }

  /** Positions with the same multiset are within the same bounds. */
  lemma InBoundsPermutation(a: seq<nat>, b: seq<nat>, n: nat)
    requires InBounds(a, n) && multiset(a) == multiset(b)
    ensures InBounds(b, n)
  {
    forall j | 0 <= j < |b|
      ensures b[j] < n
    {
      assert b[j] in multiset(a);
      var i :| 0 <= i < |a| && a[i] == b[j];
    }
  }

  /** Listing the same positions in another order lists the same values in another order. */
  lemma {:induction false} PickPermutation(v: seq<int>, a: seq<nat>, b: seq<nat>)
    requires InBounds(a, |v|) && multiset(a) == multiset(b)
    ensures InBounds(b, |v|)
    ensures multiset(Pick(v, a)) == multiset(Pick(v, b))
    decreases |a|
  {
    InBoundsPermutation(a, b, |v|);
    if a != [] {
      var x := a[0];
      assert x in multiset(b);
      var p :| 0 <= p < |b| && b[p] == x;
      var pre, post := b[..p], b[p + 1..];
      RemoveOne(a, b, p);
      PickPermutation(v, a[1..], pre + post);
      PickSplit(v, pre, x, post);
      assert Pick(v, a) == [v[x]] + Pick(v, a[1..]);
    }
  }

  /** Taking the first element out of a and a matching element out of b keeps the multisets equal. */
  lemma RemoveOne(a: seq<nat>, b: seq<nat>, p: nat)
    requires multiset(a) == multiset(b) && |a| > 0 && p < |b| && b[p] == a[0]
    ensures multiset(a[1..]) == multiset(b[..p] + b[p + 1..])
    ensures b == b[..p] + ([b[p]] + b[p + 1..])
  {
    var x, pre, post := a[0], b[..p], b[p + 1..];
    assert b == pre + ([x] + post);
    assert multiset(b) == multiset(pre) + multiset{x} + multiset(post);
    assert a == [x] + a[1..];
    assert multiset(a) == multiset{x} + multiset(a[1..]);
    assert multiset(a[1..]) == multiset(a) - multiset{x};
    assert multiset(pre + post) == multiset(pre) + multiset(post);
  }

  /** The values of pre, x, post are the value at x and the values of pre, post. */
  lemma PickSplit(v: seq<int>, pre: seq<nat>, x: nat, post: seq<nat>)
    requires InBounds(pre + post, |v|) && x < |v|
    ensures InBounds(pre + ([x] + post), |v|)
    ensures multiset(Pick(v, pre + ([x] + post))) == multiset{v[x]} + multiset(Pick(v, pre + post))
  {
    assert pre == (pre + post)[..|pre|];
    assert post == (pre + post)[|pre|..];
    PickAppend(v, pre, post);
    PickAppend(v, [x], post);
    PickAppend(v, pre, [x] + post);
  }

  /** The positions 0 .. n-1 in order list the level order itself. */
  lemma PickRange(v: seq<int>)
    ensures Pick(v, Range(0, |v|)) == v
  {
  }

  /** Sequences of positions with the same count of every position have the same multiset. */
  lemma SameCounts(a: seq<nat>, b: seq<nat>)
    requires forall k: nat :: multiset(a)[k] == multiset(b)[k]
    ensures multiset(a) == multiset(b)
  {
    forall k: int
      ensures multiset(a)[k] == multiset(b)[k]
    {
      if k < 0 {
        assert k !in a && k !in b;
      }
    }
  }

  /** The positions 0 .. n-1 in order, each once. */
  lemma RangeCounts(n: nat)
    ensures forall k: nat :: multiset(Range(0, n))[k] == if k < n then 1 else 0
  {
    forall k: nat
      ensures multiset(Range(0, n))[k] == if k < n then 1 else 0
    {
      if k < n {
        assert Range(0, n)[k] == k;
        NoDuplicatesCountOne(Range(0, n), k);
      }
    }
  }

  /** Each depth-first walk of n positions lists the positions 0 .. n-1, each once. */
  lemma TraversalsArePermutations(n: nat)
    ensures multiset(IndexTree.Preorder(n, 0)) == multiset(Range(0, n))
    ensures multiset(IndexTree.Inorder(n, 0)) == multiset(Range(0, n))
    ensures multiset(IndexTree.Postorder(n, 0)) == multiset(Range(0, n))
  {
    RangeCounts(n);
    forall k: nat
      ensures multiset(IndexTree.Preorder(n, 0))[k] == multiset(Range(0, n))[k]
      ensures multiset(IndexTree.Inorder(n, 0))[k] == multiset(Range(0, n))[k]
      ensures multiset(IndexTree.Postorder(n, 0))[k] == multiset(Range(0, n))[k]
    {
      TraversalsVisitEachSlotOnce(n, k);
    }
    SameCounts(IndexTree.Preorder(n, 0), Range(0, n));
    SameCounts(IndexTree.Inorder(n, 0), Range(0, n));
    SameCounts(IndexTree.Postorder(n, 0), Range(0, n));
  }

  /** A walk that lists positions 0 .. |v|-1 once each lists the values as a permutation of the level order. */
  lemma WalkListsEveryValue(v: seq<int>, walk: seq<nat>)
    requires multiset(walk) == multiset(Range(0, |v|))
    ensures InBounds(walk, |v|)
    ensures multiset(Pick(v, walk)) == multiset(v)
  {
    PickPermutation(v, Range(0, |v|), walk);
    PickRange(v);
  }

  /** The heap after the entries at i and j change places, each recording its new position. */
  function Swapped(h: seq<HeapNode>, i: nat, j: nat): (r: seq<HeapNode>)
    requires i < |h| && j < |h|
    ensures |r| == |h|
    ensures r[i].value == h[j].value && r[j].value == h[i].value
    ensures forall k :: 0 <= k < |h| && k != i && k != j ==> r[k] == h[k]
    ensures Indexed(h) ==> Indexed(r)
  {
    seq(|h|, k requires 0 <= k < |h| =>
      if k == j then h[i].(index := j) else if k == i then h[j].(index := i) else h[k])
  }

  /** A swap keeps the values of the heap. */
  lemma SwappedKeepsValues(h: seq<HeapNode>, i: nat, j: nat)
    requires i < |h| && j < |h|
    ensures multiset(Values(Swapped(h, i, j))) == multiset(Values(h))
  {
    var v := Values(h);
    assert Values(Swapped(h, i, j)) == v[i := v[j]][j := v[i]];
    ExchangeKeepsValues(v, i, j);
  }

  lemma ExchangeKeepsValues(v: seq<int>, i: nat, j: nat)
    requires i < |v| && j < |v|
    ensures multiset(v[i := v[j]][j := v[i]]) == multiset(v)
  {
  }

  /** One step of the sift-up: swapping i with a smaller parent moves the gap up to the parent. */
  lemma SiftUpStep(h: seq<HeapNode>, i: nat)
    requires SiftUpInvariant(h, i) && i > 0 && h[Parent(i)].value < h[i].value
    ensures SiftUpInvariant(Swapped(h, i, Parent(i)), Parent(i))
  {
    var p := Parent(i);
    var h' := Swapped(h, i, p);
    forall k | 0 < k < |h'| && k != p
      ensures h'[Parent(k)].value >= h'[k].value
    {
      if Parent(k) == p && k != i {
        assert h[p].value >= h[k].value;
      }
    }
    forall k | 0 < k < |h'| && p > 0 && Parent(k) == p
      ensures h'[Parent(p)].value >= h'[k].value
    {
      assert h[Parent(p)].value >= h[p].value;
      if k != i {
        assert h[p].value >= h[k].value;
      }
    }
  }

  /** Sifting up stops at the root or below a parent that is not smaller: the heap is then whole. */
  lemma SiftUpDone(h: seq<HeapNode>, i: nat)
    requires SiftUpInvariant(h, i) && (i == 0 || h[Parent(i)].value >= h[i].value)
    ensures IsMaxHeap(h)
  {
  }

  /**
   * One step of the sift-down: swapping j with its larger child l, when that
   * child is larger than j, moves the gap down to l.
   */
  lemma SiftDownStep(h: seq<HeapNode>, i0: nat, j: nat, l: nat)
    requires SiftDownInvariant(h, i0, j)
    requires l < |h| && (l == Left(j) || l == Right(j)) && h[l].value > h[j].value
    requires Left(j) < |h| ==> h[l].value >= h[Left(j)].value
    requires Right(j) < |h| ==> h[l].value >= h[Right(j)].value
    ensures SiftDownInvariant(Swapped(h, j, l), i0, l)
  {
    var h' := Swapped(h, j, l);
    ParentChild(l);
    forall k | 0 < k < |h'| && Parent(k) >= i0 && Parent(k) != l
      ensures h'[Parent(k)].value >= h'[k].value
    {
      if k == j {
        assert h[Parent(j)].value >= h[l].value;
      } else if Parent(k) == j {
        ParentChild(k);
        assert h[l].value >= h[k].value;
      }
    }
    forall k | 0 < k < |h'| && Parent(k) == l
      ensures h'[Parent(l)].value >= h'[k].value
    {
      assert h[l].value >= h[k].value;
    }
  }

  /** Sifting down stops when no child is larger: every link below i0 is then ordered. */
  lemma SiftDownDone(h: seq<HeapNode>, i0: nat, j: nat)
    requires SiftDownInvariant(h, i0, j)
    requires Left(j) < |h| ==> h[j].value >= h[Left(j)].value
    requires Right(j) < |h| ==> h[j].value >= h[Right(j)].value
    ensures forall k :: 0 < k < |h| && Parent(k) >= i0 ==> h[Parent(k)].value >= h[k].value
  {
    forall k | 0 < k < |h| && Parent(k) == j
      ensures h[j].value >= h[k].value
    {
      ParentChild(k);
    }
  }

  /**
   * The position the sift-down compares j with: the larger child when it is
   * larger than j (the left one on a tie between the children), else j itself.
   */
  function LargestOfFamily(h: seq<HeapNode>, j: nat): (l: nat)
    requires j < |h|
    ensures l < |h| && (l == j || l == Left(j) || l == Right(j))
    ensures h[l].value >= h[j].value && (l != j ==> h[l].value > h[j].value)
    ensures Left(j) < |h| ==> h[l].value >= h[Left(j)].value
    ensures Right(j) < |h| ==> h[l].value >= h[Right(j)].value
    ensures l == Right(j) ==> h[Right(j)].value > h[Left(j)].value
  {
    var left := if Left(j) < |h| && h[Left(j)].value > h[j].value then Left(j) else j;
    if Right(j) < |h| && h[Right(j)].value > h[left].value then Right(j) else left
  }

  /** A value appended to a heap is where a sift-up starts. */
  lemma AppendStartsSiftUp(h: seq<HeapNode>, x: int)
    requires Indexed(h) && IsMaxHeap(h)
    ensures Indexed(h + [HeapNode(x, |h|)]) && SiftUpInvariant(h + [HeapNode(x, |h|)], |h|)
  {
    var h' := h + [HeapNode(x, |h|)];
    forall k | 0 < k < |h'| && k != |h|
      ensures h'[Parent(k)].value >= h'[k].value
    {
      assert h'[Parent(k)] == h[Parent(k)];
    }
  }

  class MaxHeap {
    var heap: seq<HeapNode>
    var edges: seq<Edge>
    /** The input box: a number, or nothing for a blank box. */
    var heapValue: Option<int>
    var lastInserted: Option<int>
    var lastDeleted: Option<int>

    ghost predicate Valid()
      reads this
    {
      && Indexed(heap)
      && IsMaxHeap(heap)
      && NoDuplicates(Values(heap))
      && edges == TreeEdges(|heap|)
    }

    constructor ()
      ensures Valid() && heap == [] && heapValue == None
      ensures lastInserted == None && lastDeleted == None
    {
      heap := [];
      edges := [];
      heapValue := None;
      lastInserted := None;
      lastDeleted := None;
    }

    /** The heap's values in array order. */
    function Levelorder(): (r: seq<int>)
      reads this
      ensures |r| == |heap|
    {
      Values(heap)
    }

    /** The preorder getter: every value once, and the largest first. */
    function Preorder(): (r: seq<int>)
      reads this
      requires Valid()
      ensures multiset(r) == multiset(Levelorder())
      ensures |heap| > 0 ==> r[0] == heap[0].value && forall k :: 0 <= k < |r| ==> r[0] >= r[k]
    {
      TraversalsArePermutations(|heap|);
      WalkListsEveryValue(Values(heap), IndexTree.Preorder(|heap|, 0));
      HeapRootDominates(heap);
      Pick(Values(heap), IndexTree.Preorder(|heap|, 0))
    }

    /** The inorder getter: every value once. */
    function Inorder(): (r: seq<int>)
      reads this
      ensures multiset(r) == multiset(Levelorder())
    {
      TraversalsArePermutations(|heap|);
      WalkListsEveryValue(Values(heap), IndexTree.Inorder(|heap|, 0));
      Pick(Values(heap), IndexTree.Inorder(|heap|, 0))
    }

    /** The postorder getter: every value once, and the largest last. */
    function Postorder(): (r: seq<int>)
      reads this
      requires Valid()
      ensures multiset(r) == multiset(Levelorder())
      ensures |heap| > 0 ==> r[|r| - 1] == heap[0].value && forall k :: 0 <= k < |r| ==> r[|r| - 1] >= r[k]
    {
      TraversalsArePermutations(|heap|);
      WalkListsEveryValue(Values(heap), IndexTree.Postorder(|heap|, 0));
      HeapRootDominates(heap);
      Pick(Values(heap), IndexTree.Postorder(|heap|, 0))
    }

    /** Exchanges the entries at i and j, each recording its new position. */
    method Swap(i: nat, j: nat)
      requires i < |heap| && j < |heap|
      modifies this`heap
      ensures heap == Swapped(old(heap), i, j)
    {
      var hi, hj := heap[i], heap[j];
      heap := heap[i := hj][j := hi];
      heap := heap[i := heap[i].(index := i)][j := heap[j].(index := j)];
    }

    /** Moves the entry at idx up while its parent is smaller, then redraws the edges. */
    method HeapifyUp(idx: nat)
      requires Indexed(heap) && SiftUpInvariant(heap, idx)
      modifies this`heap, this`edges
      ensures Indexed(heap) && IsMaxHeap(heap) && |heap| == old(|heap|)
      ensures multiset(Values(heap)) == multiset(Values(old(heap)))
      ensures edges == TreeEdges(|heap|)
    {
      var i: nat := idx;
      while i > 0
        invariant Indexed(heap) && SiftUpInvariant(heap, i) && |heap| == old(|heap|)
        invariant multiset(Values(heap)) == multiset(Values(old(heap)))
      {
        var parentIdx := (i - 1) / 2;
        if heap[parentIdx].value < heap[i].value {
          SiftUpStep(heap, i);
          SwappedKeepsValues(heap, i, parentIdx);
          Swap(i, parentIdx);
          i := parentIdx;
        } else {
          break;
        }
      }
      SiftUpDone(heap, i);
      UpdateEdges();
    }

    /** Moves the entry at idx down while a child is larger, swapping with the larger child, then redraws the edges. */
    method HeapifyDown(idx: nat)
      requires Indexed(heap) && idx < |heap|
      requires forall k :: 0 < k < |heap| && Parent(k) > idx ==> heap[Parent(k)].value >= heap[k].value
      modifies this`heap, this`edges
      ensures Indexed(heap) && |heap| == old(|heap|)
      ensures forall k :: 0 < k < |heap| && Parent(k) >= idx ==> heap[Parent(k)].value >= heap[k].value
      ensures multiset(Values(heap)) == multiset(Values(old(heap)))
      ensures edges == TreeEdges(|heap|)
    {
      var n := |heap|;
      var j := idx;
      while true
        invariant Indexed(heap) && SiftDownInvariant(heap, idx, j) && |heap| == n
        invariant multiset(Values(heap)) == multiset(Values(old(heap)))
        decreases n - j
      {
        var largest := LargestOfFamily(heap, j);
        if largest != j {
          SiftDownStep(heap, idx, j, largest);
          SwappedKeepsValues(heap, j, largest);
          Swap(j, largest);
          j := largest;
        } else {
          SiftDownDone(heap, idx, j);
          break;
        }
      }
      UpdateEdges();
    }

    /** Rebuilds the edge list: for each position in order, an edge to its left and then its right child. */
    method UpdateEdges()
      modifies this`edges
      ensures edges == TreeEdges(|heap|)
    {
      edges := [];
      var n := |heap|;
      var i := 0;
      while i < n
        invariant 0 <= i <= n
        invariant edges == TreeEdges(if n < 2 * i + 1 then n else 2 * i + 1)
      {
        var left := 2 * i + 1;
        var right := 2 * i + 2;
        if left < n {
          edges := edges + [Edge(i, left)];
        }
        if right < n {
          edges := edges + [Edge(i, right)];
        }
        i := i + 1;
      }
    }

    /**
     * Adds the typed value unless the box is blank or the value is already in
     * the heap (then nothing changes, the box included), sifts it up and
     * redraws the edges.
     */
    method InsertNode()
      requires Valid()
      modifies this`heap, this`edges, this`lastInserted, this`heapValue
      ensures Valid()
      ensures old(heapValue).None? || old(heapValue.value) in old(Values(heap)) ==> unchanged(this)
      ensures old(heapValue).Some? && old(heapValue.value) !in old(Values(heap)) ==>
        && multiset(Values(heap)) == old(multiset(Values(heap))) + multiset{old(heapValue.value)}
        && lastInserted == old(heapValue) && heapValue == None
    {
      if heapValue.None? {
        return;
      }
      var value := heapValue.value;
      if value in Values(heap) {
        return;
      }
      var index := |heap|;
      ghost var before := Values(heap);
      AppendStartsSiftUp(heap, value);
      heap := heap + [HeapNode(value, index)];
      assert Values(heap) == before + [value];
      NoDuplicatesAppend(before, [value]);
      ghost var added := Values(heap);
      HeapifyUp(index);
      NoDuplicatesPermutation(added, Values(heap));
      UpdateEdges();
      lastInserted := Some(value);
      heapValue := None;
    }

    /**
     * Removes the first entry carrying the typed value and rebuilds the heap;
     * a blank box or an absent value changes nothing, the box included.
     */
    method DeleteNode()
      requires Valid()
      modifies this`heap, this`edges, this`lastDeleted, this`heapValue
      ensures Valid()
      ensures old(heapValue).None? || old(heapValue.value) !in old(Values(heap)) ==> unchanged(this)
      ensures old(heapValue).Some? && old(heapValue.value) in old(Values(heap)) ==>
        && multiset(Values(heap)) == old(multiset(Values(heap))) - multiset{old(heapValue.value)}
        && lastDeleted == old(heapValue) && heapValue == None
    {
      if heapValue.None? {
        return;
      }
      var value := heapValue.value;
      var idx := FirstIndex(Values(heap), value);
      if idx.None? {
        return;
      }
      RemoveNode(idx.value);
      lastDeleted := Some(value);
      heapValue := None;
      UpdateEdges();
    }

    /**
     * Splices the entry at idx out, renumbers the entries, sifts down every
     * position from |heap|/2 - 1 back to the root, and redraws the edges.
     */
    method RemoveNode(idx: nat)
      requires Valid() && idx < |heap|
      modifies this`heap, this`edges
      ensures Valid()
      ensures multiset(Values(heap)) == old(multiset(Values(heap))) - multiset{old(heap[idx].value)}
    {
      SpliceValues(heap, idx);
      heap := heap[..idx] + heap[idx + 1..];
      ghost var removed := Values(heap);
      Reindex();
      Reheapify();
      UpdateEdges();
      NoDuplicatesPermutation(removed, Values(heap));
    }

    /** Makes every entry record its own position; the values stay where they are. */
    method Reindex()
      modifies this`heap
      ensures Indexed(heap) && Values(heap) == old(Values(heap))
    {
      ghost var v := Values(heap);
      var i := 0;
      while i < |heap|
        invariant 0 <= i <= |heap| && |heap| == |v|
        invariant forall k :: 0 <= k < |heap| ==> heap[k].value == v[k]
        invariant forall k :: 0 <= k < i ==> heap[k].index == k
      {
        heap := heap[i := heap[i].(index := i)];
        i := i + 1;
      }
    }

    /** Sifts down every position from |heap|/2 - 1 back to the root: the heap is then whole. */
    method Reheapify()
      requires Indexed(heap)
      modifies this`heap, this`edges
      ensures Indexed(heap) && IsMaxHeap(heap)
      ensures multiset(Values(heap)) == multiset(Values(old(heap)))
      ensures edges == TreeEdges(|heap|)
    {
      var r: int := |heap| / 2 - 1;
      while r >= 0
        invariant -1 <= r < |heap| && |heap| == |old(heap)|
        invariant Indexed(heap)
        invariant forall k :: 0 < k < |heap| && Parent(k) > r ==> heap[Parent(k)].value >= heap[k].value
        invariant multiset(Values(heap)) == multiset(Values(old(heap)))
      {
        HeapifyDown(r);
        r := r - 1;
      }
      UpdateEdges();
    }

    /**
     * The search: a blank box only prompts; otherwise the entries are
     * highlighted in array order until the first carrying the value.
     */
    method SearchNode() returns (r: Scan)
      ensures heapValue.None? ==> r == Scan([], None)
      ensures heapValue.Some? ==> r == LinearSearch(Values(heap), heapValue.value)
    {
      if heapValue.None? {
        return Scan([], None);
      }
      var value := heapValue.value;
      ghost var v := Values(heap);
      var visited: seq<nat> := [];
      var i := 0;
      while i < |heap|
        invariant 0 <= i <= |heap|
        invariant visited == Range(0, i)
        invariant value !in v[..i]
      {
        visited := visited + [i];
        if heap[i].value == value {
          LinearSearchFinds(v, value, i);
          return Scan(visited, Some(i));
        }
        assert v[..i + 1] == v[..i] + [v[i]];
        i := i + 1;
      }
      assert v[..i] == v;
      LinearSearchMisses(v, value);
      r := Scan(visited, None);
    }

    /** Forgets every entry and edge. */
    method Clear()
      modifies this`heap, this`edges
      ensures Valid() && heap == [] && edges == []
    {
      edges := [];
      heap := [];
    }
  }

  /** Splicing out the entry at idx takes exactly its value out of the values, and keeps them free of duplicates. */
  lemma SpliceValues(h: seq<HeapNode>, idx: nat)
    requires idx < |h| && NoDuplicates(Values(h))
    ensures Values(h[..idx] + h[idx + 1..]) == Values(h)[..idx] + Values(h)[idx + 1..]
    ensures multiset(Values(h[..idx] + h[idx + 1..])) == multiset(Values(h)) - multiset{h[idx].value}
    ensures NoDuplicates(Values(h[..idx] + h[idx + 1..]))
  {
    var v, w := Values(h), Values(h[..idx] + h[idx + 1..]);
    assert w == v[..idx] + v[idx + 1..];
    assert v == v[..idx] + ([v[idx]] + v[idx + 1..]);
    assert multiset(v) == multiset(v[..idx]) + multiset{v[idx]} + multiset(v[idx + 1..]);
    forall p, q | 0 <= p < q < |w|
      ensures w[p] != w[q]
    {
      var p', q' := if p < idx then p else p + 1, if q < idx then q else q + 1;
      assert w[p] == v[p'] && w[q] == v[q'];
    }
  }

  /** A rearrangement of a sequence without duplicates has none either. */
  lemma NoDuplicatesPermutation(a: seq<int>, b: seq<int>)
    requires NoDuplicates(a) && multiset(a) == multiset(b)
    ensures NoDuplicates(b)
  {
    forall p, q | 0 <= p < q < |b|
      ensures b[p] != b[q]
    {
      if b[p] == b[q] {
        assert b == b[..q] + [b[q]] + b[q + 1..];
        assert multiset(b)[b[p]] >= 2 by {
          assert b[p] in b[..q];
          assert multiset(b[..q])[b[p]] >= 1;
        }
        assert b[p] in a;
        var i :| 0 <= i < |a| && a[i] == b[p];
        NoDuplicatesCountAtMostOne(a, i);
        assert false;
      }
    }
  }

  lemma NoDuplicatesCountAtMostOne(a: seq<int>, i: nat)
    requires NoDuplicates(a) && i < |a|
    ensures multiset(a)[a[i]] == 1
  {
    NoDuplicatesCountOne(a, a[i]);
  }
}
