/**
 * The array binary tree visualizer: node labels stored breadth-first in an
 * array of slots (children of slot i at 2i+1 and 2i+2). Deleting a label
 * empties the slots of its whole subtree and remembers them as free; the
 * next insertions fill the lowest free slot before the array grows. The
 * array never shrinks except when cleared.
 */
module BinaryTreeVisualizer {
  import opened Common
  import opened IndexTree

  /** A parent-to-child line of the drawing, between two slots. */
  datatype Edge = Edge(from: nat, to: nat)

  type Slots = seq<Option<string>>

  /** Every occupied slot other than the root has an occupied parent. */
  ghost predicate TreeShaped(slots: Slots) {
    forall c :: 0 < c < |slots| && slots[c].Some? ==> slots[Parent(c)].Some?
  }

  /** The free list holds each empty slot exactly once and nothing else. */
  ghost predicate FreeListExact(slots: Slots, free: seq<nat>) {
    forall j: nat :: multiset(free)[j] == if j < |slots| && slots[j].None? then 1 else 0
  }

  /** The edge of a drawn tree into slot c. */
  ghost predicate IsTreeEdge(slots: Slots, e: Edge) {
    0 < e.to < |slots| && slots[e.to].Some? && e.from == Parent(e.to)
  }

  /** The drawn edges are exactly the parent links of the occupied slots. */
  ghost predicate EdgesExact(slots: Slots, edges: seq<Edge>) {
    forall e :: e in edges <==> IsTreeEdge(slots, e)
  }

  /** Labels are never blank. */
  ghost predicate LabelsNotBlank(slots: Slots) {
    forall k :: 0 <= k < |slots| && slots[k].Some? ==> !IsBlank(slots[k].value)
  }

  /** The invariant of the component: a tree shape, an exact free list and exactly the parent edges. */
  ghost predicate Layout(slots: Slots, free: seq<nat>, edges: seq<Edge>) {
    && LabelsNotBlank(slots)
    && TreeShaped(slots)
    && FreeListExact(slots, free)
    && EdgesExact(slots, edges)
  }

  /** In a tree-shaped layout every ancestor of an occupied slot is occupied. */
  lemma {:induction false} AncestorOccupied(slots: Slots, k: nat, a: nat)
    requires TreeShaped(slots) && k < |slots| && slots[k].Some? && IsDescendant(k, a)
    ensures slots[a].Some?
    decreases k
  {
    if k != a {
      AncestorOccupied(slots, Parent(k), a);
    }
  }

  /**
   * The slots the subtree walk of a deletion collects from slot i: i itself,
   * then its left and then its right subtree, stopping at empty slots.
   */
  function CollectIndices(slots: Slots, i: nat): (r: seq<nat>)
    ensures forall k :: k in r ==> k < |slots| && slots[k].Some? && IsDescendant(k, i)
    decreases |slots| - i
  {
    if i >= |slots| || slots[i].None? then []
    else
      var l := if Left(i) < |slots| then CollectIndices(slots, Left(i)) else [];
      var r := if Right(i) < |slots| then CollectIndices(slots, Right(i)) else [];
      assert forall k :: k in l + r ==> IsDescendant(k, i) by {
        forall k | k in l + r ensures IsDescendant(k, i) {
          ChildDescendant(k, i);
        }
      }
      [i] + l + r
  }

  /** In a tree-shaped layout the walk collects every occupied slot of the subtree of an occupied i. */
  lemma {:induction false} CollectIndicesComplete(slots: Slots, i: nat, k: nat)
    requires TreeShaped(slots)
    requires k < |slots| && slots[k].Some? && IsDescendant(k, i)
    ensures k in CollectIndices(slots, i)
    decreases |slots| - i
  {
    DescendantIsBelow(k, i);
    AncestorOccupied(slots, k, i);
    if k != i {
      DescendantViaChild(k, i);
      if IsDescendant(k, Left(i)) {
        DescendantIsBelow(k, Left(i));
        CollectIndicesComplete(slots, Left(i), k);
      } else {
        DescendantIsBelow(k, Right(i));
        CollectIndicesComplete(slots, Right(i), k);
      }
    }
  }

  /** The walk collects each slot at most once. */
  lemma {:induction false} CollectIndicesNoDuplicates(slots: Slots, i: nat)
    ensures NoDuplicates(CollectIndices(slots, i))
    decreases |slots| - i
  {
    if i < |slots| && slots[i].Some? {
      var l := if Left(i) < |slots| then CollectIndices(slots, Left(i)) else [];
      var r := if Right(i) < |slots| then CollectIndices(slots, Right(i)) else [];
      if Left(i) < |slots| {
        CollectIndicesNoDuplicates(slots, Left(i));
      }
      if Right(i) < |slots| {
        CollectIndicesNoDuplicates(slots, Right(i));
      }
      JoinSubtrees(i, l, r);
    }
  }

  /** Under a tree shape the walk from an occupied slot collects exactly the occupied slots of its subtree, once each. */
  lemma CollectIndicesExact(slots: Slots, i: nat)
    requires TreeShaped(slots)
    ensures NoDuplicates(CollectIndices(slots, i))
    ensures forall k: nat :: k in CollectIndices(slots, i) <==> k < |slots| && slots[k].Some? && IsDescendant(k, i)
  {
    CollectIndicesNoDuplicates(slots, i);
    forall k: nat | k < |slots| && slots[k].Some? && IsDescendant(k, i)
      ensures k in CollectIndices(slots, i)
    {
      CollectIndicesComplete(slots, i, k);
    }
  }

  /** The edges that touch none of the given slots, in their original order. */
  function FilterEdges(edges: seq<Edge>, doomed: seq<nat>): (r: seq<Edge>)
    ensures forall e :: e in r <==> e in edges && e.from !in doomed && e.to !in doomed
    ensures |r| <= |edges|
  {
    if edges == [] then []
    else
      var rest := FilterEdges(edges[1..], doomed);
      var e := edges[0];
      assert edges == [e] + edges[1..];
      if e.from !in doomed && e.to !in doomed then [e] + rest else rest
  }

  /**
   * `findIndex` over the slots with a callback that reads the label of each
   * slot: the first slot carrying `v`, no slot, or a `TypeError` when an
   * empty slot is met before a match.
   */
  function FindSlot(slots: Slots, v: string): (r: Outcome<Option<nat>>)
    ensures r.Ok? && r.value.Some? ==>
      && r.value.value < |slots| && slots[r.value.value] == Some(v)
      && forall j :: 0 <= j < r.value.value ==> slots[j].Some? && slots[j] != Some(v)
    ensures r.Ok? && r.value.None? ==> forall j :: 0 <= j < |slots| ==> slots[j].Some? && slots[j] != Some(v)
    ensures r.TypeError? ==> exists g :: 0 <= g < |slots| && slots[g].None? && forall j :: 0 <= j < g ==> slots[j] != Some(v)
  {
    if |slots| == 0 then Ok(None)
    else if slots[0].None? then TypeError
    else if slots[0] == Some(v) then Ok(Some(0))
    else
      match FindSlot(slots[1..], v)
      case Ok(None) => Ok(None)
      case Ok(Some(i)) => Ok(Some(i + 1))
      case TypeError =>
        var g :| 0 <= g < |slots[1..]| && slots[1..][g].None? && forall j :: 0 <= j < g ==> slots[1..][j] != Some(v);
        assert slots[g + 1].None? && forall j :: 0 <= j < g + 1 ==> slots[j] != Some(v) by {
          forall j | 0 <= j < g + 1 ensures slots[j] != Some(v) {
            if j > 0 {
              assert slots[j] == slots[1..][j - 1];
            }
          }
        }
        TypeError
  }

  predicate SortedAsc(s: seq<nat>) {
    forall p, q :: 0 <= p < q < |s| ==> s[p] <= s[q]
  }

  /** Places x into a sorted sequence, before the first entry not below it. */
  function InsertSorted(x: nat, s: seq<nat>): (r: seq<nat>)
    requires SortedAsc(s)
    ensures SortedAsc(r) && |r| == |s| + 1
    ensures forall y :: y in r <==> y == x || y in s
  {
    if s == [] || x <= s[0] then [x] + s
    else
      assert s == [s[0]] + s[1..];
      var rest := InsertSorted(x, s[1..]);
      assert forall k :: 0 <= k < |rest| ==> s[0] <= rest[k] by {
        forall k | 0 <= k < |rest| ensures s[0] <= rest[k] {
          assert rest[k] in rest;
        }
      }
      [s[0]] + rest
  }

  /** Placing x adds exactly one copy of x. */
  lemma {:induction false} InsertSortedValues(x: nat, s: seq<nat>)
    requires SortedAsc(s)
    ensures multiset(InsertSorted(x, s)) == multiset(s) + multiset{x}
  {
    if s != [] && x > s[0] {
      assert s == [s[0]] + s[1..];
      InsertSortedValues(x, s[1..]);
    }
  }

  /** The free list in ascending order, as the numeric comparator sort leaves it. */
  function SortAsc(s: seq<nat>): (r: seq<nat>)
    ensures SortedAsc(r) && multiset(r) == multiset(s)
  {
    if s == [] then []
    else
      assert s == s[..|s| - 1] + [s[|s| - 1]];
      var sorted := SortAsc(s[..|s| - 1]);
      InsertSortedValues(s[|s| - 1], sorted);
      InsertSorted(s[|s| - 1], sorted)
  }

  /** The number of levels the height walk counts below slot i: empty slots count as nodes. */
  function HeightAt(n: nat, i: nat): nat
    decreases n - i
  {
    if i >= n then 0 else 1 + Max(HeightAt(n, Left(i)), HeightAt(n, Right(i)))
  }

  function Max(a: nat, b: nat): nat { if a >= b then a else b }

  function Min(a: nat, b: nat): nat { if a <= b then a else b }

  /** The height walk always descends furthest along the leftmost path. */
  lemma {:induction false} HeightIsLeftDepth(n: nat, i: nat)
    ensures HeightAt(n, i) == LeftDepth(n, i)
    decreases n - i
  {
    if i < n {
      HeightIsLeftDepth(n, Left(i));
      HeightIsLeftDepth(n, Right(i));
      LeftDepthAntitone(n, Left(i), Right(i));
    }
  }

  /** A layout of n > 0 slots has h levels exactly when 2^(h-1) <= n < 2^h. */
  lemma HeightBounds(n: nat)
    ensures n == 0 ==> HeightAt(n, 0) == 0
    ensures n > 0 ==> HeightAt(n, 0) >= 1 && Pow2(HeightAt(n, 0) - 1) <= n < Pow2(HeightAt(n, 0))
  {
    HeightIsLeftDepth(n, 0);
    if n > 0 {
      RootDepthBounds(n);
    }
  }

  /** The empty slots of a layout, as a multiset of indices. */
  function Gaps(slots: Slots): (r: multiset<nat>)
    ensures forall j: nat :: r[j] == if j < |slots| && slots[j].None? then 1 else 0
    ensures |r| + Occupied(slots) == |slots|
  {
    if slots == [] then multiset{}
    else
      var last := |slots| - 1;
      var r := Gaps(slots[..last]) + (if slots[last].None? then multiset{last} else multiset{});
      r
  }

  /** The number of slots that hold a label. */
  function Occupied(slots: Slots): nat {
    if slots == [] then 0
    else Occupied(slots[..|slots| - 1]) + if slots[|slots| - 1].Some? then 1 else 0
  }

  /** The lowest empty slot, or the length when there is none. */
  function LowestFree(slots: Slots): (r: nat)
    ensures r <= |slots|
    ensures r < |slots| ==> slots[r].None?
    ensures forall j :: 0 <= j < r ==> slots[j].Some?
  {
    match FirstIndex(slots, None)
    case Some(g) =>
      assert forall j :: 0 <= j < g ==> slots[..g][j] == slots[j];
      g
    case None => |slots|
  }

  /** The layout after a label is placed at slot idx, filling a gap or growing the array by one. */
  function Place(slots: Slots, idx: nat, v: string): (r: Slots)
    requires idx <= |slots|
    ensures |r| == if idx < |slots| then |slots| else |slots| + 1
    ensures r[idx] == Some(v)
    ensures forall j :: 0 <= j < |slots| && j != idx ==> r[j] == slots[j]
  {
    if idx < |slots| then slots[idx := Some(v)] else slots + [Some(v)]
  }

  /** The slots a deletion at idx leaves: its whole subtree emptied, everything else as it was. */
  ghost function Cleared(slots: Slots, idx: nat): (r: Slots)
    ensures |r| == |slots|
    ensures forall k :: 0 <= k < |slots| ==> r[k] == if IsDescendant(k, idx) then None else slots[k]
  {
    seq(|slots|, k requires 0 <= k < |slots| => if IsDescendant(k, idx) then None else slots[k])
  }

  /** The smallest entry of the sorted free list is the lowest empty slot, and the rest is the free list once it is filled. */
  lemma TakeLowestFree(slots: Slots, sorted: seq<nat>, v: string)
    requires FreeListExact(slots, sorted) && SortedAsc(sorted) && |sorted| > 0
    ensures sorted[0] == LowestFree(slots) < |slots|
    ensures FreeListExact(Place(slots, sorted[0], v), sorted[1..])
  {
    var idx := sorted[0];
    assert sorted == [idx] + sorted[1..];
    assert multiset(sorted)[idx] > 0;
    forall j: nat | j < |slots| && slots[j].None?
      ensures idx <= j
    {
      assert multiset(sorted)[j] == 1;
    }
    var g := LowestFree(slots);
    if g < |slots| {
      assert idx <= g;
    }
  }

  /** With an empty free list no slot is empty, so the label goes at the end. */
  lemma AppendWhenNoneFree(slots: Slots, free: seq<nat>, v: string)
    requires FreeListExact(slots, free) && |free| == 0
    ensures LowestFree(slots) == |slots|
    ensures FreeListExact(Place(slots, |slots|, v), free)
  {
    forall j: nat | j < |slots|
      ensures slots[j].Some?
    {
      assert multiset(free)[j] == 0;
    }
  }

  /** Filling the lowest free slot keeps the tree shape, and its parent is occupied, so its edge is drawn. */
  lemma PlaceKeepsShape(slots: Slots, edges: seq<Edge>, idx: nat, v: string)
    requires TreeShaped(slots) && EdgesExact(slots, edges) && idx == LowestFree(slots)
    ensures TreeShaped(Place(slots, idx, v))
    ensures idx > 0 ==> Place(slots, idx, v)[Parent(idx)].Some?
    ensures EdgesExact(Place(slots, idx, v), edges + if idx > 0 then [Edge(Parent(idx), idx)] else [])
  {
    var s := Place(slots, idx, v);
    var es := edges + if idx > 0 then [Edge(Parent(idx), idx)] else [];
    forall e
      ensures e in es <==> IsTreeEdge(s, e)
    {
      assert IsTreeEdge(slots, e) ==> IsTreeEdge(s, e);
    }
  }

  /** An insertion at the lowest free slot leaves a valid layout with the new parent edge. */
  lemma InsertKeepsLayout(slots: Slots, free: seq<nat>, edges: seq<Edge>, v: string)
    requires Layout(slots, free, edges) && !IsBlank(v)
    ensures |free| > 0 ==> SortAsc(free)[0] == LowestFree(slots)
    ensures var idx := LowestFree(slots);
      && (idx > 0 ==> Place(slots, idx, v)[Parent(idx)].Some?)
      && Layout(Place(slots, idx, v),
                if |free| > 0 then SortAsc(free)[1..] else free,
                edges + if idx > 0 then [Edge(Parent(idx), idx)] else [])
  {
    if |free| > 0 {
      TakeLowestFree(slots, SortAsc(free), v);
    } else {
      AppendWhenNoneFree(slots, free, v);
    }
    PlaceKeepsShape(slots, edges, LowestFree(slots), v);
  }

  /** A deletion leaves a valid layout whose edges are the old ones outside the cleared subtree. */
  lemma ClearedKeepsLayout(slots: Slots, free: seq<nat>, edges: seq<Edge>, idx: nat, free': seq<nat>)
    requires Layout(slots, free, edges)
    requires multiset(free') == multiset(free + CollectIndices(slots, idx))
    ensures Layout(Cleared(slots, idx), free', FilterEdges(edges, CollectIndices(slots, idx)))
    ensures forall e :: e in FilterEdges(edges, CollectIndices(slots, idx)) <==> e in edges && !IsDescendant(e.to, idx)
  {
    ClearedKeepsShape(slots, free, edges, idx);
  }

  /** The slots the marking loop leaves are the cleared subtree. */
  lemma ClearedSlots(slots: Slots, idx: nat, after: Slots)
    requires TreeShaped(slots)
    requires |after| == |slots|
    requires forall k :: 0 <= k < |after| ==> after[k] == if k in CollectIndices(slots, idx) then None else slots[k]
    ensures after == Cleared(slots, idx)
  {
    CollectIndicesExact(slots, idx);
    forall k | 0 <= k < |after|
      ensures after[k] == Cleared(slots, idx)[k]
    {
    }
  }

  /** Clearing a subtree keeps the tree shape, and the free list and filtered edges match the new layout. */
  lemma ClearedKeepsShape(slots: Slots, free: seq<nat>, edges: seq<Edge>, idx: nat)
    requires TreeShaped(slots) && FreeListExact(slots, free) && EdgesExact(slots, edges)
    ensures TreeShaped(Cleared(slots, idx))
    ensures FreeListExact(Cleared(slots, idx), free + CollectIndices(slots, idx))
    ensures EdgesExact(Cleared(slots, idx), FilterEdges(edges, CollectIndices(slots, idx)))
    ensures forall e :: e in FilterEdges(edges, CollectIndices(slots, idx)) <==> e in edges && !IsDescendant(e.to, idx)
  {
    var s := Cleared(slots, idx);
    var doomed := CollectIndices(slots, idx);
    CollectIndicesExact(slots, idx);
    forall c | 0 < c < |s| && s[c].Some?
      ensures s[Parent(c)].Some?
    {
    }
    forall j: nat
      ensures multiset(free + doomed)[j] == if j < |s| && s[j].None? then 1 else 0
    {
      if j in doomed {
        NoDuplicatesCountOne(doomed, j);
      }
    }
    forall e
      ensures e in FilterEdges(edges, doomed) <==> e in edges && !IsDescendant(e.to, idx)
    {
      if e in edges && IsDescendant(e.from, idx) {
        assert IsDescendant(e.to, idx);
      }
    }
  }

  /**
   * The marking loop of a deletion: each collected slot that is occupied is
   * emptied and, unless already listed, appended to the free list.
   */
  method MarkEmpty(slots: Slots, free: seq<nat>, indices: seq<nat>) returns (s: Slots, f: seq<nat>)
    requires NoDuplicates(indices)
    requires forall k :: k in indices ==> k < |slots| && slots[k].Some?
    requires FreeListExact(slots, free)
    ensures |s| == |slots|
    ensures forall k :: 0 <= k < |s| ==> s[k] == if k in indices then None else slots[k]
    ensures multiset(f) == multiset(free + indices)
  {
    s, f := slots, free;
    var t := 0;
    while t < |indices|
      invariant 0 <= t <= |indices|
      invariant |s| == |slots|
      invariant forall k :: 0 <= k < |s| ==> s[k] == if k in indices[..t] then None else slots[k]
      invariant multiset(f) == multiset(free) + multiset(indices[..t])
    {
      var i := indices[t];
      assert i in indices && i !in indices[..t];
      assert indices[..t + 1] == indices[..t] + [i];
      assert s[i].Some? && multiset(f)[i] == 0;
      if s[i].Some? {
        s := s[i := None];
        if i !in f {
          f := f + [i];
        }
      }
      t := t + 1;
    }
    assert indices[..t] == indices;
  }

  /**
   * The work of an insertion: the label goes into the lowest entry of the
   * free list once it is sorted (the rest of the sorted list stays free), or
   * at the end when none is free; the edge from its parent is drawn when
   * that parent holds a label.
   */
  method PlaceLabel(slots: Slots, free: seq<nat>, edges: seq<Edge>, v: string)
    returns (s: Slots, f: seq<nat>, es: seq<Edge>)
    requires Layout(slots, free, edges) && !IsBlank(v)
    ensures Layout(s, f, es) && s == Place(slots, LowestFree(slots), v)
    ensures f == if |free| > 0 then SortAsc(free)[1..] else free
    ensures var idx := LowestFree(slots);
      es == edges + if idx > 0 then [Edge(Parent(idx), idx)] else []
  {
    f, es := free, edges;
    InsertKeepsLayout(slots, free, edges, v);
    var idx: nat;
    if |f| > 0 {
      var sorted := SortAsc(f);
      idx := sorted[0];
      f := sorted[1..];
    } else {
      idx := |slots|;
    }
    s := Place(slots, idx, v);
    if idx > 0 {
      var parentIdx := Parent(idx);
      if s[parentIdx].Some? {
        es := es + [Edge(parentIdx, idx)];
      }
    }
  }

  /**
   * The work of a deletion at an occupied slot: the subtree walk collects
   * the slots below it, the marking loop empties them and lists them as
   * free, and the edges touching them are dropped.
   */
  method DeleteSubtree(slots: Slots, free: seq<nat>, edges: seq<Edge>, idx: nat)
    returns (s: Slots, f: seq<nat>, es: seq<Edge>)
    requires Layout(slots, free, edges) && idx < |slots| && slots[idx].Some?
    ensures Layout(s, f, es) && s == Cleared(slots, idx)
    ensures es == FilterEdges(edges, CollectIndices(slots, idx))
    ensures forall e :: e in es <==> e in edges && !IsDescendant(e.to, idx)
  {
    var indicesToDelete := CollectIndices(slots, idx);
    CollectIndicesExact(slots, idx);
    s, f := MarkEmpty(slots, free, indicesToDelete);
    ClearedSlots(slots, idx, s);
    ClearedKeepsLayout(slots, free, edges, idx, f);
    es := FilterEdges(edges, indicesToDelete);
  }

  class BinaryTree {
    var slots: Slots
    var emptyIndices: seq<nat>
    var edges: seq<Edge>
    var treeValue: string
    var lastInserted: Option<string>
    var lastDeleted: Option<string>

    ghost predicate Valid()
      reads this
    {
      Layout(slots, emptyIndices, edges)
    }

    constructor ()
      ensures Valid() && slots == [] && emptyIndices == [] && edges == [] && treeValue == ""
      ensures lastInserted == None && lastDeleted == None
    {
      slots := [];
      emptyIndices := [];
      edges := [];
      treeValue := "";
      lastInserted := None;
      lastDeleted := None;
    }

    /** The slot the next insertion fills: the lowest empty slot, or the end of the array. */
    ghost function NextSlot(): nat
      reads this
    {
      LowestFree(slots)
    }

    /**
     * Places the typed label (unless blank) into the lowest free slot, or
     * appends it, and draws the edge from its parent.
     */
    method InsertNode()
      requires Valid()
      modifies this`slots, this`emptyIndices, this`edges, this`lastInserted, this`treeValue
      ensures Valid()
      ensures IsBlank(old(treeValue)) ==> unchanged(this)
      ensures !IsBlank(old(treeValue)) ==>
        && slots == Place(old(slots), old(NextSlot()), old(treeValue))
        && emptyIndices == (if |old(emptyIndices)| > 0 then SortAsc(old(emptyIndices))[1..] else old(emptyIndices))
        && edges == old(edges) + (if old(NextSlot()) > 0 then [Edge(Parent(old(NextSlot())), old(NextSlot()))] else [])
        && lastInserted == Some(old(treeValue)) && treeValue == ""
    {
      if IsBlank(treeValue) {
        return;
      }
      ghost var idx := NextSlot();
      slots, emptyIndices, edges := PlaceLabel(slots, emptyIndices, edges, treeValue);
      assert Valid() && edges == old(edges) + (if idx > 0 then [Edge(Parent(idx), idx)] else []);
      lastInserted := Some(treeValue);
      treeValue := "";
    }

    /**
     * Deletes the subtree under the first slot carrying the typed label:
     * every occupied slot of it is emptied and added to the free list, and the
     * edges touching those slots are dropped. The result is the lookup's
     * outcome; after a blank input, a miss or a `TypeError` nothing changes.
     */
    method DeleteNode() returns (r: Outcome<Option<nat>>)
      requires Valid()
      modifies this`slots, this`emptyIndices, this`edges, this`lastDeleted, this`treeValue
      ensures Valid()
      ensures IsBlank(old(treeValue)) ==> r == Ok(None)
      ensures !IsBlank(old(treeValue)) ==> r == old(FindSlot(slots, treeValue))
      ensures !(r.Ok? && r.value.Some?) ==> unchanged(this)
      ensures r.Ok? && r.value.Some? ==>
        && slots == Cleared(old(slots), r.value.value)
        && edges == FilterEdges(old(edges), CollectIndices(old(slots), r.value.value))
        && (forall e :: e in edges <==> e in old(edges) && !IsDescendant(e.to, r.value.value))
        && lastDeleted == Some(old(treeValue)) && treeValue == ""
    {
      if IsBlank(treeValue) {
        return Ok(None);
      }
      r := FindSlot(slots, treeValue);
      if !(r.Ok? && r.value.Some?) {
        return;
      }
      var idx := r.value.value;
      lastDeleted := Some(slots[idx].value);
      slots, emptyIndices, edges := DeleteSubtree(slots, emptyIndices, edges, idx);
      treeValue := "";
    }

    /**
     * The search: a blank input only prompts; any empty slot makes the
     * colour reset fail with a `TypeError`; otherwise the slots are visited
     * breadth-first from the root, stopping at the first carrying the label.
     */
    method SearchNode() returns (r: Outcome<Scan>)
      ensures IsBlank(treeValue) ==> r == Ok(Scan([], None))
      ensures !IsBlank(treeValue) && None in slots ==> r == TypeError
      ensures !IsBlank(treeValue) && None !in slots ==> r == Ok(LinearSearch(slots, Some(treeValue)))
    {
      if IsBlank(treeValue) {
        return Ok(Scan([], None));
      }
      if None in slots {
        return TypeError;
      }
      var s, v := slots, treeValue;
      var n := |s|;
      var queue: seq<nat> := if n > 0 then [0] else [];
      var visited: seq<bool> := seq(n, _ => false);
      var order: seq<nat> := [];
      ghost var k: nat := 0;
      while |queue| > 0
        invariant k <= n
        invariant |queue| == Min(n, 2 * k + 1) - k && forall j :: 0 <= j < |queue| ==> queue[j] == k + j
        invariant |order| == k && forall j :: 0 <= j < k ==> order[j] == j
        invariant |visited| == n && forall j :: 0 <= j < n ==> (visited[j] <==> j < k)
        invariant Some(v) !in s[..k]
        decreases n - k
      {
        var idx := queue[0];
        queue := queue[1..];
        order := order + [idx];
        if s[idx] == Some(v) {
          LinearSearchFinds(s, Some(v), idx);
          assert order == Range(0, idx + 1);
          return Ok(Scan(order, Some(idx)));
        }
        assert s[..k + 1] == s[..k] + [s[k]];
        visited := visited[idx := true];
        var l := Left(idx);
        var rt := Right(idx);
        assert l < n ==> !visited[l];
        assert rt < n ==> !visited[rt];
        if l < n && !visited[l] {
          queue := queue + [l];
        }
        if rt < n && !visited[rt] {
          queue := queue + [rt];
        }
        k := k + 1;
      }
      assert s[..k] == s;
      LinearSearchMisses(s, Some(v));
      assert order == Range(0, n);
      r := Ok(Scan(order, None));
    }

    /** Removes the slots one by one from the end, then forgets the edges and the free list. */
    method Clear()
      modifies this`slots, this`edges, this`emptyIndices
      ensures Valid() && slots == [] && edges == [] && emptyIndices == []
    {
      while |slots| > 0
        invariant slots == old(slots)[..|slots|]
        decreases |slots|
      {
        slots := slots[..|slots| - 1];
      }
      edges := [];
      emptyIndices := [];
    }

    /** The root label, "null" for an empty array, or a `TypeError` when the root slot is empty. */
    function Root(): (r: Outcome<string>)
      reads this
      requires Valid()
      ensures |slots| == 0 ==> r == Ok("null")
      ensures r == TypeError <==> |slots| > 0 && slots[0].None?
      ensures r.Ok? && |slots| > 0 ==> Some(r.value) == slots[0] && !IsBlank(r.value)
    {
      if |slots| == 0 then Ok("null")
      else match slots[0]
        case None => TypeError
        case Some(text) => Ok(text)
    }

    /** The length of the slot array, empty slots included. */
    function Size(): (r: nat)
      reads this
      requires Valid()
      ensures r == Occupied(slots) + |emptyIndices|
    {
      assert multiset(emptyIndices) == Gaps(slots);
      |slots|
    }

    /**
     * The height walk over the slot array: the levels of a complete layout
     * with Size() slots, whether or not the slots are occupied.
     */
    function Height(): (r: nat)
      reads this
      ensures |slots| == 0 ==> r == 0
      ensures |slots| > 0 ==> r >= 1 && Pow2(r - 1) <= |slots| < Pow2(r)
    {
      HeightBounds(|slots|);
      HeightAt(|slots|, 0)
    }
  }
}
