/**
 * The linked binary search tree the visualizer draws, as a value: a null
 * link, or a node with its identity, its number and its two subtrees. The
 * identity stands for the node object itself, so that the component's list
 * of node objects can be followed through insertions and removals. The
 * parent links of the nodes are implied by the shape.
 */
module BSTShape {
  import opened Common
  import IndexTree

  datatype Tree = Nil | Node(left: Tree, id: nat, value: int, right: Tree)

  /** A drawn edge, from a node to one of its children, by identity. */
  datatype Link = Link(from: nat, to: nat)

  function Size(t: Tree): nat {
    if t.Nil? then 0 else Size(t.left) + 1 + Size(t.right)
  }

  function Values(t: Tree): set<int> {
    if t.Nil? then {} else Values(t.left) + {t.value} + Values(t.right)
  }

  /** The identities of the node objects of t. */
  function Ids(t: Tree): set<nat> {
    if t.Nil? then {} else Ids(t.left) + {t.id} + Ids(t.right)
  }

  /** No node object occurs twice in the tree: each node was created once and linked once. */
  ghost predicate Distinct(t: Tree) {
    t.Node? ==>
      && Distinct(t.left) && Distinct(t.right)
      && t.id !in Ids(t.left) && t.id !in Ids(t.right) && Ids(t.left) !! Ids(t.right)
  }

  /** Every value in the left subtree of a node is smaller than the node's, every value in the right subtree larger. */
  ghost predicate Ordered(t: Tree) {
    t.Node? ==>
      && Ordered(t.left) && Ordered(t.right)
      && AllBelow(Values(t.left), t.value) && AllAbove(Values(t.right), t.value)
  }

  ghost predicate AllBelow(s: set<int>, x: int) {
    forall y :: y in s ==> y < x
  }

  ghost predicate AllAbove(s: set<int>, x: int) {
    forall y :: y in s ==> x < y
  }

  /**
   * insertBST: below a node, a smaller value goes left and any other value
   * right, and the new node is attached as a leaf where the link is null.
   */
  function InsertBST(t: Tree, id: nat, v: int): (r: Tree)
    requires t.Node?
    ensures r.Node? && r.id == t.id && r.value == t.value
    ensures Values(r) == Values(t) + {v}
    ensures Size(r) == Size(t) + 1
  {
    if v < t.value then
      if t.left.Node? then Node(InsertBST(t.left, id, v), t.id, t.value, t.right)
      else Node(Node(Nil, id, v, Nil), t.id, t.value, t.right)
    else
      if t.right.Node? then Node(t.left, t.id, t.value, InsertBST(t.right, id, v))
      else Node(t.left, t.id, t.value, Node(Nil, id, v, Nil))
  }

  /** Insertion adds exactly the new node object. */
  lemma {:induction false} InsertIds(t: Tree, id: nat, v: int)
    requires t.Node? && Distinct(t) && id !in Ids(t)
    ensures Ids(InsertBST(t, id, v)) == Ids(t) + {id}
    ensures Distinct(InsertBST(t, id, v))
  {
    var r := InsertBST(t, id, v);
    if v < t.value {
      if t.left.Node? {
        InsertIds(t.left, id, v);
      }
      assert Ids(r.left) == Ids(t.left) + {id} && Distinct(r.left);
      assert r == Node(r.left, t.id, t.value, t.right);
    } else {
      if t.right.Node? {
        InsertIds(t.right, id, v);
      }
      assert Ids(r.right) == Ids(t.right) + {id} && Distinct(r.right);
      assert r == Node(t.left, t.id, t.value, r.right);
    }
  }

  /** Inserting a value not yet in an ordered tree keeps it ordered. */
  lemma {:induction false} InsertKeepsOrder(t: Tree, id: nat, v: int)
    requires t.Node? && Ordered(t) && v !in Values(t)
    ensures Ordered(InsertBST(t, id, v))
  {
    var r := InsertBST(t, id, v);
    if v < t.value {
      if t.left.Node? {
        InsertKeepsOrder(t.left, id, v);
      }
      assert Ordered(r.left) && Values(r.left) == Values(t.left) + {v};
      assert AllBelow(Values(r.left), t.value);
      assert r == Node(r.left, t.id, t.value, t.right);
    } else {
      if t.right.Node? {
        InsertKeepsOrder(t.right, id, v);
      }
      assert v != t.value;
      assert Ordered(r.right) && Values(r.right) == Values(t.right) + {v};
      assert AllAbove(Values(r.right), t.value);
      assert r == Node(t.left, t.id, t.value, r.right);
    }
  }

  /**
   * findNode's descent: from the root, stop at the node holding v, go left
   * when v is smaller, right otherwise; a null link means not found (Nil).
   */
  function Lookup(t: Tree, v: int): (r: Tree)
    ensures r.Node? ==> r.value == v && v in Values(t)
  {
    if t.Nil? then Nil
    else if t.value == v then t
    else if v < t.value then Lookup(t.left, v)
    else Lookup(t.right, v)
  }

  /** In an ordered tree the descent finds a node exactly when the value is in the tree. */
  lemma {:induction false} LookupFinds(t: Tree, v: int)
    requires Ordered(t)
    ensures Lookup(t, v).Node? <==> v in Values(t)
  {
    if t.Node? && t.value != v {
      if v < t.value {
        LookupFinds(t.left, v);
      } else {
        LookupFinds(t.right, v);
      }
    }
  }

  /** A node inserted with a value not yet in the tree is a leaf, and the descent for its value reaches it. */
  lemma {:induction false} InsertedIsLeaf(t: Tree, id: nat, v: int)
    requires t.Node? && v !in Values(t)
    ensures Lookup(InsertBST(t, id, v), v) == Node(Nil, id, v, Nil)
  {
    if v < t.value && t.left.Node? {
      InsertedIsLeaf(t.left, id, v);
    } else if v >= t.value && t.right.Node? {
      InsertedIsLeaf(t.right, id, v);
    }
  }

  /** The identities of the nodes the search descent highlights, from the root down to the match or the last node tried. */
  function Descent(t: Tree, v: int): (r: seq<nat>)
    ensures |r| <= Height(t)
    ensures r == [] <==> t.Nil?
  {
    if t.Nil? then []
    else if t.value == v then [t.id]
    else if v < t.value then [t.id] + Descent(t.left, v)
    else [t.id] + Descent(t.right, v)
  }

  /** A descent that finds its value ends on the node found. */
  lemma {:induction false} DescentEndsAtMatch(t: Tree, v: int)
    requires Lookup(t, v).Node?
    ensures |Descent(t, v)| > 0 && Descent(t, v)[|Descent(t, v)| - 1] == Lookup(t, v).id
  {
    if t.value != v {
      if v < t.value {
        DescentEndsAtMatch(t.left, v);
      } else {
        DescentEndsAtMatch(t.right, v);
      }
    }
  }

  /** minNode: the node reached by following left links from t. */
  function Leftmost(t: Tree): (r: Tree)
    requires t.Node?
    ensures r.Node? && r.left.Nil? && r.value in Values(t)
  {
    if t.left.Nil? then t else Leftmost(t.left)
  }

  lemma {:induction false} LeftmostInTree(t: Tree)
    requires t.Node?
    ensures Leftmost(t).id in Ids(t)
  {
    if t.left.Node? {
      LeftmostInTree(t.left);
    }
  }

  /** The leftmost node of an ordered tree holds its smallest value. */
  lemma {:induction false} LeftmostIsMin(t: Tree)
    requires t.Node? && Ordered(t)
    ensures forall x :: x in Values(t) ==> Leftmost(t).value <= x
  {
    if t.left.Node? {
      LeftmostIsMin(t.left);
    }
  }

  /**
   * removeBSTNode on the node t: a leaf leaves a null link, a node with one
   * child is replaced by that child, and a node with two children takes the
   * value of the leftmost node of its right subtree, which is then removed
   * the same way.
   */
  function Unlink(t: Tree): (r: Tree)
    requires t.Node?
    ensures Size(r) == Size(t) - 1
    decreases t, 0
  {
    if t.left.Nil? && t.right.Nil? then Nil
    else if t.left.Node? && t.right.Nil? then t.left
    else if t.left.Nil? && t.right.Node? then t.right
    else Node(t.left, t.id, Leftmost(t.right).value, RemoveLeftmost(t.right))
  }

  /** The subtree t after its leftmost node is unlinked. */
  function RemoveLeftmost(t: Tree): (r: Tree)
    requires t.Node?
    ensures Size(r) == Size(t) - 1
    decreases t, 1
  {
    if t.left.Nil? then Unlink(t) else Node(RemoveLeftmost(t.left), t.id, t.value, t.right)
  }

  /** The node taken out of the tree when t is unlinked: the successor when t has two children, else t itself. */
  function DetachedId(t: Tree): (d: nat)
    requires t.Node?
    ensures d == t.id <==> t.left.Nil? || t.right.Nil? || Leftmost(t.right).id == t.id
  {
    if t.left.Node? && t.right.Node? then Leftmost(t.right).id else t.id
  }

  lemma DetachedInTree(t: Tree)
    requires t.Node?
    ensures DetachedId(t) in Ids(t)
  {
    if t.left.Node? && t.right.Node? {
      LeftmostInTree(t.right);
    }
  }

  /** The node the descent reaches, and every node below it, belong to the tree. */
  lemma {:induction false} LookupInTree(t: Tree, v: int)
    ensures Ids(Lookup(t, v)) <= Ids(t)
    ensures Distinct(t) ==> Distinct(Lookup(t, v))
  {
    if t.Node? && t.value != v {
      if v < t.value {
        LookupInTree(t.left, v);
      } else {
        LookupInTree(t.right, v);
      }
    }
  }

  /** The tree after removeBSTNode is applied to the node the descent for v reaches; unchanged when there is none. */
  function RemoveAt(t: Tree, v: int): (r: Tree)
    ensures Lookup(t, v).Nil? ==> r == t
    ensures Size(r) == Size(t) - (if Lookup(t, v).Node? then 1 else 0)
  {
    if t.Nil? then Nil
    else if t.value == v then Unlink(t)
    else if v < t.value then Node(RemoveAt(t.left, v), t.id, t.value, t.right)
    else Node(t.left, t.id, t.value, RemoveAt(t.right, v))
  }

  /** Unlinking the leftmost node of an ordered tree takes out exactly its value and keeps the order. */
  lemma {:induction false} RemoveLeftmostKeepsOrder(t: Tree)
    requires t.Node? && Ordered(t)
    ensures Values(RemoveLeftmost(t)) == Values(t) - {Leftmost(t).value}
    ensures Ordered(RemoveLeftmost(t))
  {
    if t.left.Nil? {
      assert RemoveLeftmost(t) == t.right;
      assert t.value !in Values(t.right);
      assert Values(t) == {t.value} + Values(t.right);
    } else {
      RemoveLeftmostKeepsOrder(t.left);
      var m, nl := Leftmost(t.left).value, RemoveLeftmost(t.left);
      assert RemoveLeftmost(t) == Node(nl, t.id, t.value, t.right);
      assert Values(nl) == Values(t.left) - {m};
      assert AllBelow(Values(nl), t.value);
      assert m != t.value && m !in Values(t.right);
      assert Values(RemoveLeftmost(t)) == Values(t) - {m};
    }
  }

  /** Unlinking the root of an ordered tree takes out exactly its value and keeps the order. */
  lemma UnlinkKeepsOrder(t: Tree)
    requires t.Node? && Ordered(t)
    ensures Values(Unlink(t)) == Values(t) - {t.value}
    ensures Ordered(Unlink(t))
  {
    var x := t.value;
    assert x !in Values(t.left) && x !in Values(t.right);
    if t.left.Node? && t.right.Node? {
      PromoteSuccessor(t);
    } else if t.left.Node? {
      assert Unlink(t) == t.left;
      assert Values(t) == Values(t.left) + {x};
    } else if t.right.Node? {
      assert Unlink(t) == t.right;
      assert Values(t) == {x} + Values(t.right);
    } else {
      assert Values(t) == {x};
    }
  }

  /** A node with two children that takes its successor's value, the successor unlinked, stays ordered and loses only its old value. */
  lemma PromoteSuccessor(t: Tree)
    requires t.Node? && t.left.Node? && t.right.Node? && Ordered(t)
    ensures Values(Unlink(t)) == Values(t) - {t.value}
    ensures Ordered(Unlink(t))
  {
    var x, s, nr := t.value, Leftmost(t.right).value, RemoveLeftmost(t.right);
    RemoveLeftmostKeepsOrder(t.right);
    LeftmostIsMin(t.right);
    assert Unlink(t) == Node(t.left, t.id, s, nr);
    assert x < s;
    assert AllBelow(Values(t.left), s);
    assert AllAbove(Values(nr), s) by {
      forall y | y in Values(nr)
        ensures s < y
      {
        assert y in Values(t.right) && y != s;
      }
    }
    assert Values(Unlink(t)) == Values(t) - {x} by {
      assert x !in Values(t.left) && x !in Values(t.right);
    }
  }

  /** Deleting v from an ordered tree leaves the other values, still ordered. */
  lemma {:induction false} RemoveAtKeepsOrder(t: Tree, v: int)
    requires Ordered(t)
    ensures Values(RemoveAt(t, v)) == Values(t) - {v}
    ensures Ordered(RemoveAt(t, v))
  {
    if t.Node? {
      if t.value == v {
        UnlinkKeepsOrder(t);
      } else if v < t.value {
        RemoveAtKeepsOrder(t.left, v);
      } else {
        RemoveAtKeepsOrder(t.right, v);
      }
    }
  }

  lemma {:induction false} RemoveLeftmostIds(t: Tree)
    requires t.Node? && Distinct(t)
    ensures Ids(RemoveLeftmost(t)) == Ids(t) - {Leftmost(t).id}
    ensures Distinct(RemoveLeftmost(t))
  {
    if t.left.Nil? {
      assert RemoveLeftmost(t) == t.right;
      assert Ids(t) == {t.id} + Ids(t.right);
    } else {
      RemoveLeftmostIds(t.left);
      LeftmostInTree(t.left);
      var m, nl := Leftmost(t.left).id, RemoveLeftmost(t.left);
      assert RemoveLeftmost(t) == Node(nl, t.id, t.value, t.right);
      assert Ids(nl) == Ids(t.left) - {m};
      assert m != t.id && m !in Ids(t.right);
      assert Ids(RemoveLeftmost(t)) == Ids(t) - {m};
    }
  }

  /** Unlinking a node takes exactly one node object out of the tree: the detached one. */
  lemma UnlinkIds(t: Tree)
    requires t.Node? && Distinct(t)
    ensures Ids(Unlink(t)) == Ids(t) - {DetachedId(t)}
    ensures Distinct(Unlink(t))
  {
    if t.left.Node? && t.right.Node? {
      var m, nr := Leftmost(t.right).id, RemoveLeftmost(t.right);
      RemoveLeftmostIds(t.right);
      LeftmostInTree(t.right);
      assert Unlink(t) == Node(t.left, t.id, Leftmost(t.right).value, nr);
      assert m != t.id && m !in Ids(t.left);
    } else if t.left.Node? {
      assert Unlink(t) == t.left;
      assert Ids(t) == Ids(t.left) + {t.id};
    } else if t.right.Node? {
      assert Unlink(t) == t.right;
      assert Ids(t) == {t.id} + Ids(t.right);
    }
  }

  /** Deleting takes exactly one node object out of the tree: the one detached at the node the descent reaches. */
  lemma {:induction false} RemoveAtIds(t: Tree, v: int)
    requires Lookup(t, v).Node? && Distinct(t)
    ensures Ids(RemoveAt(t, v)) == Ids(t) - {DetachedId(Lookup(t, v))}
    ensures Distinct(RemoveAt(t, v))
  {
    if t.value == v {
      UnlinkIds(t);
    } else if v < t.value {
      RemoveAtIds(t.left, v);
      DetachedInTree(Lookup(t.left, v));
      LookupInTree(t.left, v);
      assert RemoveAt(t, v) == Node(RemoveAt(t.left, v), t.id, t.value, t.right);
    } else {
      RemoveAtIds(t.right, v);
      DetachedInTree(Lookup(t.right, v));
      LookupInTree(t.right, v);
      assert RemoveAt(t, v) == Node(t.left, t.id, t.value, RemoveAt(t.right, v));
    }
  }

  function Height(t: Tree): nat {
    if t.Nil? then 0
    else if Height(t.left) >= Height(t.right) then 1 + Height(t.left)
    else 1 + Height(t.right)
  }

  /** A tree of height h holds at least h and fewer than 2^h nodes. */
  lemma {:induction false} HeightBounds(t: Tree)
    ensures Height(t) <= Size(t) < IndexTree.Pow2(Height(t))
  {
    if t.Node? {
      HeightBounds(t.left);
      HeightBounds(t.right);
      var h := Height(t) - 1;
      PowMonotone(Height(t.left), h);
      PowMonotone(Height(t.right), h);
    }
  }

  lemma {:induction false} PowMonotone(a: nat, b: nat)
    requires a <= b
    ensures IndexTree.Pow2(a) <= IndexTree.Pow2(b)
    decreases b
  {
    if a < b {
      PowMonotone(a, b - 1);
    }
  }

  function Preorder(t: Tree): seq<int> {
    if t.Nil? then [] else [t.value] + Preorder(t.left) + Preorder(t.right)
  }

  function Inorder(t: Tree): seq<int> {
    if t.Nil? then [] else Inorder(t.left) + [t.value] + Inorder(t.right)
  }

  function Postorder(t: Tree): seq<int> {
    if t.Nil? then [] else Postorder(t.left) + Postorder(t.right) + [t.value]
  }

  /** The three walks list the same values, each as often. */
  lemma {:induction false} WalksSameValues(t: Tree)
    ensures multiset(Inorder(t)) == multiset(Preorder(t))
    ensures multiset(Postorder(t)) == multiset(Preorder(t))
  {
    if t.Node? {
      WalksSameValues(t.left);
      WalksSameValues(t.right);
    }
  }

  /** The inorder walk lists exactly the values of the tree. */
  lemma {:induction false} InorderMembers(t: Tree)
    ensures forall x :: x in Inorder(t) <==> x in Values(t)
    ensures |Inorder(t)| == Size(t)
  {
    if t.Node? {
      InorderMembers(t.left);
      InorderMembers(t.right);
    }
  }

  predicate Increasing(s: seq<int>) {
    forall i, j :: 0 <= i < j < |s| ==> s[i] < s[j]
  }

  /** A tree is ordered exactly when its inorder walk is strictly increasing. */
  lemma {:induction false} OrderedIffInorderIncreasing(t: Tree)
    ensures Ordered(t) <==> Increasing(Inorder(t))
  {
    if t.Node? {
      var l, r := Inorder(t.left), Inorder(t.right);
      OrderedIffInorderIncreasing(t.left);
      OrderedIffInorderIncreasing(t.right);
      InorderMembers(t.left);
      InorderMembers(t.right);
      if Ordered(t) {
        IncreasingJoin(l, t.value, r);
      }
      if Increasing(Inorder(t)) {
        IncreasingSplit(l, t.value, r);
      }
    }
  }

  lemma IncreasingJoin(l: seq<int>, x: int, r: seq<int>)
    requires Increasing(l) && Increasing(r)
    requires forall y :: y in l ==> y < x
    requires forall y :: y in r ==> x < y
    ensures Increasing(l + [x] + r)
  {
    var s := l + [x] + r;
    forall i, j | 0 <= i < j < |s|
      ensures s[i] < s[j]
    {
      if i < |l| {
        assert s[i] in l;
      }
      if j > |l| {
        assert s[j] == r[j - |l| - 1];
        assert s[j] in r;
      }
    }
  }

  lemma IncreasingSplit(l: seq<int>, x: int, r: seq<int>)
    requires Increasing(l + [x] + r)
    ensures Increasing(l) && Increasing(r)
    ensures forall y :: y in l ==> y < x
    ensures forall y :: y in r ==> x < y
  {
    var s := l + [x] + r;
    assert forall i :: 0 <= i < |l| ==> s[i] == l[i];
    assert forall i :: 0 <= i < |r| ==> s[|l| + 1 + i] == r[i];
    assert s[|l|] == x;
  }

  /** The children of a node that are not null links, left first. */
  function Children(t: Tree): (r: seq<Tree>)
    requires t.Node?
    ensures SizeAll(r) == Size(t) - 1
    ensures ValuesAll(r) == Values(t.left) + Values(t.right)
    ensures forall k :: 0 <= k < |r| ==> r[k].Node?
  {
    var a, b := (if t.left.Node? then [t.left] else []), (if t.right.Node? then [t.right] else []);
    assert SizeAll(a) == Size(t.left) && ValuesAll(a) == Values(t.left) by {
      if t.left.Node? {
        assert a[1..] == [];
      }
    }
    assert SizeAll(b) == Size(t.right) && ValuesAll(b) == Values(t.right) by {
      if t.right.Node? {
        assert b[1..] == [];
      }
    }
    SizeAllAppend(a, b);
    ValuesAllAppend(a, b);
    a + b
  }

  function SizeAll(q: seq<Tree>): nat {
    if q == [] then 0 else Size(q[0]) + SizeAll(q[1..])
  }

  lemma {:induction false} SizeAllAppend(a: seq<Tree>, b: seq<Tree>)
    ensures SizeAll(a + b) == SizeAll(a) + SizeAll(b)
    decreases |a|
  {
    if a != [] {
      assert (a + b)[0] == a[0] && (a + b)[1..] == a[1..] + b;
      SizeAllAppend(a[1..], b);
    } else {
      assert a + b == b;
    }
  }

  /**
   * The level-order walk of a queue of subtrees: take the front node, list
   * its value and queue its children; null links are skipped.
   */
  function LevelWalk(q: seq<Tree>): seq<int>
    decreases SizeAll(q), |q|
  {
    if q == [] then []
    else if q[0].Nil? then LevelWalk(q[1..])
    else
      SizeAllAppend(q[1..], Children(q[0]));
      [q[0].value] + LevelWalk(q[1..] + Children(q[0]))
  }

  /** One round of the level-order loop: the front node's value is listed and its children queued. */
  lemma LevelWalkStep(q: seq<Tree>)
    requires q != [] && q[0].Node?
    ensures LevelWalk(q) == [q[0].value] + LevelWalk(q[1..] + Children(q[0]))
    ensures SizeAll(q[1..] + Children(q[0])) < SizeAll(q)
  {
    SizeAllAppend(q[1..], Children(q[0]));
  }

  /** The values of the subtrees in a queue. */
  function ValuesAll(q: seq<Tree>): set<int> {
    if q == [] then {} else Values(q[0]) + ValuesAll(q[1..])
  }

  lemma {:induction false} ValuesAllAppend(a: seq<Tree>, b: seq<Tree>)
    ensures ValuesAll(a + b) == ValuesAll(a) + ValuesAll(b)
    decreases |a|
  {
    if a != [] {
      assert (a + b)[0] == a[0] && (a + b)[1..] == a[1..] + b;
      ValuesAllAppend(a[1..], b);
    } else {
      assert a + b == b;
    }
  }

  /** The level-order walk of a queue lists the values of its subtrees, one entry per node. */
  lemma {:induction false} LevelWalkValues(q: seq<Tree>)
    ensures forall x :: x in LevelWalk(q) <==> x in ValuesAll(q)
    ensures |LevelWalk(q)| == SizeAll(q)
    decreases SizeAll(q), |q|
  {
    if q != [] {
      if q[0].Nil? {
        LevelWalkValues(q[1..]);
      } else {
        var t, kids := q[0], Children(q[0]);
        SizeAllAppend(q[1..], kids);
        LevelWalkValues(q[1..] + kids);
        ValuesAllAppend(q[1..], kids);
      }
    }
  }

  /** The level order of a tree lists exactly its values, one entry per node, the root's first. */
  lemma LevelorderLists(t: Tree)
    ensures forall x :: x in LevelWalk([t]) <==> x in Values(t)
    ensures |LevelWalk([t])| == Size(t)
    ensures t.Node? ==> LevelWalk([t])[0] == t.value
  {
    LevelWalkValues([t]);
    assert [t][1..] == [];
    assert ValuesAll([t]) == Values(t);
    assert SizeAll([t]) == Size(t);
  }

  /**
   * updateEdges: for each node, an edge to its left child and one to its
   * right child, then the edges of the left subtree and of the right subtree.
   */
  function TreeEdges(t: Tree): seq<Link> {
    if t.Nil? then []
    else
      (if t.left.Node? then [Link(t.id, t.left.id)] else [])
      + (if t.right.Node? then [Link(t.id, t.right.id)] else [])
      + TreeEdges(t.left) + TreeEdges(t.right)
  }

  function Targets(es: seq<Link>): (r: seq<nat>)
    ensures |r| == |es| && forall k :: 0 <= k < |es| ==> r[k] == es[k].to
  {
    seq(|es|, k requires 0 <= k < |es| => es[k].to)
  }

  /** A nonempty tree has one edge fewer than it has nodes. */
  lemma {:induction false} EdgeCount(t: Tree)
    requires t.Node?
    ensures |TreeEdges(t)| == Size(t) - 1
  {
    if t.left.Node? {
      EdgeCount(t.left);
    }
    if t.right.Node? {
      EdgeCount(t.right);
    }
  }

  /**
   * Every node but the root is the target of exactly one edge, as its parent
   * link makes it; every edge starts at a node of the tree.
   */
  lemma {:induction false} EdgesReachEachChildOnce(t: Tree)
    requires t.Node? && Distinct(t)
    ensures forall k :: k in Targets(TreeEdges(t)) <==> k in Ids(t) && k != t.id
    ensures NoDuplicates(Targets(TreeEdges(t)))
    ensures forall e :: e in TreeEdges(t) ==> e.from in Ids(t)
  {
    var l, r := t.left, t.right;
    var le := if l.Node? then [Link(t.id, l.id)] else [];
    var re := if r.Node? then [Link(t.id, r.id)] else [];
    var tl := if l.Node? then Targets(TreeEdges(l)) else [];
    var tr := if r.Node? then Targets(TreeEdges(r)) else [];
    assert TreeEdges(t) == le + re + TreeEdges(l) + TreeEdges(r);
    TargetsAppend(le + re + TreeEdges(l), TreeEdges(r));
    TargetsAppend(le + re, TreeEdges(l));
    TargetsAppend(le, re);
    if l.Node? {
      EdgesReachEachChildOnce(l);
    }
    if r.Node? {
      EdgesReachEachChildOnce(r);
    }
    var heads := Targets(le + re);
    ChildTargets(t);
    assert Targets(TreeEdges(t)) == heads + tl + tr;
    NoDuplicatesAppend(heads, tl);
    NoDuplicatesAppend(heads + tl, tr);
  }

  /** The edges out of a node reach its children, each once. */
  lemma ChildTargets(t: Tree)
    requires t.Node? && Distinct(t)
    ensures var le := if t.left.Node? then [Link(t.id, t.left.id)] else [];
      var re := if t.right.Node? then [Link(t.id, t.right.id)] else [];
      && (forall k :: k in Targets(le + re) <==> (t.left.Node? && k == t.left.id) || (t.right.Node? && k == t.right.id))
      && NoDuplicates(Targets(le + re))
  {
    var l, r := t.left, t.right;
    var le := if l.Node? then [Link(t.id, l.id)] else [];
    var re := if r.Node? then [Link(t.id, r.id)] else [];
    if l.Node? && r.Node? {
      assert l.id in Ids(l) && r.id in Ids(r);
      assert Targets(le + re) == [l.id, r.id];
    } else if l.Node? {
      assert Targets(le + re) == [l.id];
    } else if r.Node? {
      assert Targets(le + re) == [r.id];
    } else {
      assert Targets(le + re) == [];
    }
  }

  lemma TargetsAppend(a: seq<Link>, b: seq<Link>)
    ensures Targets(a + b) == Targets(a) + Targets(b)
  {
  }

  /** `filter(n => n !== x)`: the list without any occurrence of x, the rest in order. */
  function Without(s: seq<nat>, x: nat): (r: seq<nat>)
    ensures forall y :: y in r <==> y in s && y != x
    ensures x !in s ==> r == s
    ensures |r| <= |s|
    ensures NoDuplicates(s) ==> NoDuplicates(r) && (x in s ==> |r| == |s| - 1)
  {
    if s == [] then []
    else if s[0] == x then
      assert NoDuplicates(s) ==> x !in s[1..];
      Without(s[1..], x)
    else
      var rest := Without(s[1..], x);
      assert s[0] !in s[1..] ==> s[0] !in rest;
      assert s == [s[0]] + s[1..];
      assert NoDuplicates(s) ==> NoDuplicates(s[1..]) && s[0] !in s[1..];
      if NoDuplicates(s) then NoDuplicatesAppend([s[0]], rest); [s[0]] + rest else [s[0]] + rest
  }

  /**
   * The component's list of node objects tracks the tree: it holds each node
   * of the tree once and nothing else, so its length is the number of nodes.
   */
  ghost predicate Tracks(tracked: seq<nat>, t: Tree) {
    && NoDuplicates(tracked)
    && (forall k :: k in tracked <==> k in Ids(t))
    && |tracked| == Size(t)
  }

  /**
   * The list of node objects after removeBSTNode as written: the node is
   * filtered out before the cases are told apart, and in the two-children
   * case the recursive call on the successor filters the successor out too,
   * although the node itself stays in the tree with the successor's value.
   */
  function TrackedAfterRemovalAsWritten(tracked: seq<nat>, node: Tree): (r: seq<nat>)
    requires node.Node?
    ensures |r| <= |tracked| && node.id !in r
  {
    var once := Without(tracked, node.id);
    if node.left.Node? && node.right.Node? then Without(once, Leftmost(node.right).id) else once
  }

  /** The list of node objects after removeBSTNode as intended: only the node unlinked from the tree is filtered out. */
  function TrackedAfterRemoval(tracked: seq<nat>, node: Tree): (r: seq<nat>)
    requires node.Node?
    ensures |r| <= |tracked|
  {
    Without(tracked, DetachedId(node))
  }

  /** With the intended filtering, the list keeps tracking the tree through a deletion. */
  lemma RemovalKeepsTracking(tracked: seq<nat>, t: Tree, v: int)
    requires Tracks(tracked, t) && Distinct(t) && Lookup(t, v).Node?
    ensures Tracks(TrackedAfterRemoval(tracked, Lookup(t, v)), RemoveAt(t, v))
    ensures Distinct(RemoveAt(t, v))
  {
    var node := Lookup(t, v);
    RemoveAtIds(t, v);
    DetachedInTree(node);
    LookupInTree(t, v);
    assert DetachedId(node) in tracked;
  }

  /**
   * As written, deleting a node with two children loses track of one node
   * that is still in the tree: size() then reports one node fewer than the
   * tree holds.
   */
  lemma SizeUndercount(tracked: seq<nat>, t: Tree, v: int)
    requires Tracks(tracked, t) && Distinct(t)
    requires Lookup(t, v).Node? && Lookup(t, v).left.Node? && Lookup(t, v).right.Node?
    ensures |TrackedAfterRemovalAsWritten(tracked, Lookup(t, v))| == Size(RemoveAt(t, v)) - 1
    ensures Lookup(t, v).id in Ids(RemoveAt(t, v)) && Lookup(t, v).id !in TrackedAfterRemovalAsWritten(tracked, Lookup(t, v))
  {
    var node := Lookup(t, v);
    var succ := Leftmost(node.right).id;
    LookupInTree(t, v);
    LeftmostInTree(node.right);
    assert node.id in Ids(node) && succ in Ids(node);
    assert succ != node.id;
    var once := Without(tracked, node.id);
    assert |once| == |tracked| - 1 && succ in once;
    RemoveAtIds(t, v);
  }

  /**
   * The smallest case: root 2 with children 1 and 3, all three tracked.
   * Deleting 2 leaves the tree 3 over 1, two nodes, while the list as
   * written keeps only node 1.
   */
  lemma SizeUndercountExample()
    ensures var t := Node(Node(Nil, 1, 1, Nil), 0, 2, Node(Nil, 2, 3, Nil));
      && Tracks([0, 1, 2], t)
      && RemoveAt(t, 2) == Node(Node(Nil, 1, 1, Nil), 0, 3, Nil)
      && TrackedAfterRemovalAsWritten([0, 1, 2], Lookup(t, 2)) == [1]
      && TrackedAfterRemoval([0, 1, 2], Lookup(t, 2)) == [0, 1]
  {
    var t := Node(Node(Nil, 1, 1, Nil), 0, 2, Node(Nil, 2, 3, Nil));
    assert Ids(t) == {0, 1, 2};
    assert Without([0, 1, 2], 0) == [1, 2];
    assert Without([1, 2], 2) == [1];
    assert Without([0, 1, 2], 2) == [0, 1];
  }
}
