/**
 * Index arithmetic of a binary tree laid out breadth-first in an array, as
 * the array binary tree and the max-heap use it: the children of slot i are
 * 2i+1 and 2i+2, and the parent of slot i > 0 is floor((i-1)/2).
 */
module IndexTree {
  import opened Common

  function Left(i: nat): nat { 2 * i + 1 }

  function Right(i: nat): nat { 2 * i + 2 }

  function Parent(i: nat): nat
    requires i > 0
  {
    (i - 1) / 2
  }

  /** Every slot i > 0 is the left or the right child of its parent, and lies below it. */
  lemma ParentChild(c: nat)
    requires c > 0
    ensures Parent(c) < c
    ensures c == Left(Parent(c)) || c == Right(Parent(c))
    ensures Parent(Left(c)) == c && Parent(Right(c)) == c
  {
  }

  /** Slot k lies in the subtree rooted at slot a: a is k or one of k's ancestors. */
  ghost predicate IsDescendant(k: nat, a: nat)
    decreases k
  {
    k == a || (k > a && IsDescendant(Parent(k), a))
  }

  lemma {:induction false} DescendantIsBelow(k: nat, a: nat)
    requires IsDescendant(k, a)
    ensures a <= k
  {
  }

  /** A descendant of a child of a is a descendant of a. */
  lemma {:induction false} ChildDescendant(k: nat, a: nat)
    requires IsDescendant(k, Left(a)) || IsDescendant(k, Right(a))
    ensures IsDescendant(k, a) && k != a
    decreases k
  {
    var c := if IsDescendant(k, Left(a)) then Left(a) else Right(a);
    if k != c {
      ChildDescendant(Parent(k), a);
    }
  }

  /** A proper descendant of a lies below exactly one child of a. */
  lemma {:induction false} DescendantViaChild(k: nat, a: nat)
    requires IsDescendant(k, a) && k != a
    ensures IsDescendant(k, Left(a)) || IsDescendant(k, Right(a))
    ensures !(IsDescendant(k, Left(a)) && IsDescendant(k, Right(a)))
    decreases k
  {
    var p := Parent(k);
    if p != a {
      DescendantViaChild(p, a);
    }
    if IsDescendant(k, Left(a)) && IsDescendant(k, Right(a)) {
      AncestorsComparable(k, Left(a), Right(a));
      NotDescendant(Right(a), Left(a));
      assert false;
    }
  }

  /** Two ancestors of the same slot lie on one path: the lower one descends from the upper one. */
  lemma {:induction false} AncestorsComparable(k: nat, x: nat, y: nat)
    requires IsDescendant(k, x) && IsDescendant(k, y) && x <= y
    ensures IsDescendant(y, x)
    decreases k
  {
    if k != y && k != x {
      AncestorsComparable(Parent(k), x, y);
    }
  }

  /** A left child does not lie below its right sibling, nor the other way round. */
  lemma NotDescendant(k: nat, b: nat)
    requires k > 0 && b > 0 && Parent(k) == Parent(b) && k != b
    ensures !IsDescendant(k, b)
  {
  }

  /** Preorder over the slots below n, starting at slot i, as the heap's preorder getter walks them. */
  function Preorder(n: nat, i: nat): seq<nat>
    decreases n - i
  {
    if i >= n then [] else [i] + Preorder(n, Left(i)) + Preorder(n, Right(i))
  }

  function Inorder(n: nat, i: nat): seq<nat>
    decreases n - i
  {
    if i >= n then [] else Inorder(n, Left(i)) + [i] + Inorder(n, Right(i))
  }

  function Postorder(n: nat, i: nat): seq<nat>
    decreases n - i
  {
    if i >= n then [] else Postorder(n, Left(i)) + Postorder(n, Right(i)) + [i]
  }

  /** Preorder lists exactly the slots below n in the subtree of i. */
  lemma {:induction false} PreorderMembers(n: nat, i: nat, k: nat)
    ensures k in Preorder(n, i) <==> k < n && IsDescendant(k, i)
    decreases n - i
  {
    if i < n {
      PreorderMembers(n, Left(i), k);
      PreorderMembers(n, Right(i), k);
      if IsDescendant(k, Left(i)) || IsDescendant(k, Right(i)) {
        ChildDescendant(k, i);
      }
      if k < n && IsDescendant(k, i) && k != i {
        DescendantViaChild(k, i);
      }
    } else if IsDescendant(k, i) {
      DescendantIsBelow(k, i);
    }
  }

  /** Preorder visits each slot of the subtree of i at most once. */
  lemma {:induction false} PreorderNoDuplicates(n: nat, i: nat)
    ensures NoDuplicates(Preorder(n, i))
    decreases n - i
  {
    if i < n {
      var l, r := Preorder(n, Left(i)), Preorder(n, Right(i));
      PreorderNoDuplicates(n, Left(i));
      PreorderNoDuplicates(n, Right(i));
      forall k | k in l
        ensures IsDescendant(k, Left(i))
      {
        PreorderMembers(n, Left(i), k);
      }
      forall k | k in r
        ensures IsDescendant(k, Right(i))
      {
        PreorderMembers(n, Right(i), k);
      }
      JoinSubtrees(i, l, r);
    }
  }

  /** Slot i followed by duplicate-free listings of its two subtrees lists no slot twice. */
  lemma JoinSubtrees(i: nat, l: seq<nat>, r: seq<nat>)
    requires NoDuplicates(l) && NoDuplicates(r)
    requires forall k :: k in l ==> IsDescendant(k, Left(i))
    requires forall k :: k in r ==> IsDescendant(k, Right(i))
    ensures NoDuplicates([i] + l + r)
  {
    forall k | k in l
      ensures k !in r && k != i
    {
      ChildDescendant(k, i);
      DescendantViaChild(k, i);
    }
    NoDuplicatesAppend(l, r);
    forall k | k in l + r
      ensures k != i
    {
      ChildDescendant(k, i);
    }
    NoDuplicatesAppend([i], l + r);
    assert [i] + l + r == [i] + (l + r);
  }

  /** Inorder and postorder visit the same slots as preorder, each as often. */
  lemma {:induction false} TraversalsSameSlots(n: nat, i: nat)
    ensures multiset(Inorder(n, i)) == multiset(Preorder(n, i))
    ensures multiset(Postorder(n, i)) == multiset(Preorder(n, i))
    decreases n - i
  {
    if i < n {
      TraversalsSameSlots(n, Left(i));
      TraversalsSameSlots(n, Right(i));
    }
  }

  /** Every slot below n is visited exactly once by each of the three depth-first traversals from the root. */
  lemma TraversalsVisitEachSlotOnce(n: nat, k: nat)
    ensures multiset(Preorder(n, 0))[k] == (if k < n then 1 else 0)
    ensures multiset(Inorder(n, 0))[k] == (if k < n then 1 else 0)
    ensures multiset(Postorder(n, 0))[k] == (if k < n then 1 else 0)
  {
    PreorderMembers(n, 0, k);
    PreorderNoDuplicates(n, 0);
    TraversalsSameSlots(n, 0);
    if k < n {
      RootIsAncestor(k);
      NoDuplicatesCountOne(Preorder(n, 0), k);
    }
  }

  lemma {:induction false} RootIsAncestor(k: nat)
    ensures IsDescendant(k, 0)
    decreases k
  {
    if k > 0 {
      RootIsAncestor(Parent(k));
    }
  }

  lemma {:induction false} NoDuplicatesCountOne<T>(s: seq<T>, x: T)
    requires NoDuplicates(s) && x in s
    ensures multiset(s)[x] == 1
  {
    if s[0] == x {
      assert x !in s[1..];
      assert s == [s[0]] + s[1..];
    } else {
      assert s == [s[0]] + s[1..];
      NoDuplicatesCountOne(s[1..], x);
    }
  }

  /**
   * The number of levels of a layout with n slots below slot i, counted along
   * the leftmost path: (i+1)*2^d - 1 is the leftmost slot d levels below i.
   */
  function LeftDepth(n: nat, i: nat): nat
    decreases n - i
  {
    if i >= n then 0 else 1 + LeftDepth(n, Left(i))
  }

  function Pow2(d: nat): nat {
    if d == 0 then 1 else 2 * Pow2(d - 1)
  }

  /** A slot further right in the layout has no more levels beneath it. */
  lemma {:induction false} LeftDepthAntitone(n: nat, a: nat, b: nat)
    requires a <= b
    ensures LeftDepth(n, b) <= LeftDepth(n, a)
    decreases n - a
  {
    if b < n {
      LeftDepthAntitone(n, Left(a), Left(b));
    }
  }

  /** The leftmost path below slot i < n has d levels exactly when (i+1)*2^(d-1) <= n < (i+1)*2^d. */
  lemma {:induction false} LeftDepthBounds(n: nat, i: nat)
    requires i < n
    ensures LeftDepth(n, i) >= 1
    ensures (i + 1) * Pow2(LeftDepth(n, i) - 1) <= n < (i + 1) * Pow2(LeftDepth(n, i))
    decreases n - i
  {
    if Left(i) < n {
      LeftDepthBounds(n, Left(i));
      var d' := LeftDepth(n, Left(i));
      var p := Pow2(d' - 1);
      assert Pow2(d') == 2 * p;
      assert Pow2(d' + 1) == 2 * Pow2(d');
      ChildScale(i, p);
      ChildScale(i, Pow2(d'));
    }
  }

  /** A layout of n > 0 slots has d levels along its leftmost path exactly when 2^(d-1) <= n < 2^d. */
  lemma RootDepthBounds(n: nat)
    requires n > 0
    ensures LeftDepth(n, 0) >= 1 && Pow2(LeftDepth(n, 0) - 1) <= n < Pow2(LeftDepth(n, 0))
  {
    LeftDepthBounds(n, 0);
    var d := LeftDepth(n, 0);
    assert (0 + 1) * Pow2(d - 1) == Pow2(d - 1);
    assert (0 + 1) * Pow2(d) == Pow2(d);
  }

  /** Doubling below slot i is the same as scaling by its left child: (i+1)*2p = (2i+2)*p. */
  lemma ChildScale(i: nat, p: nat)
    ensures (i + 1) * (2 * p) == (Left(i) + 1) * p
  {
  }
}
