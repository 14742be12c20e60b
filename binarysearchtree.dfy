/**
 * The binary search tree visualizer: numbers typed into the input box are
 * inserted as leaves, deleted by splicing or by copying the in-order
 * successor, and searched for by descending from the root. Besides the tree
 * the component keeps the list of its node objects, whose length is the
 * size it reports, and the list of edges it draws.
 */
module BinarySearchTreeVisualizer {
  import opened Common
  import opened BSTShape
  import IndexTree

  class BinarySearchTree {
    /** rootNode, with the subtrees it links to. */
    var root: Tree
    /** bstNodes: the node objects, by identity, in the order they were created. */
    var bstNodes: seq<nat>
    var edges: seq<Link>
    /** The input box, as `Number(treeValue.trim())` reads it. */
    var treeValue: NumericInput
    var lastInserted: Option<int>
    var lastDeleted: Option<int>
    /** The identities given to new node objects: each creation takes the next one. */
    var nextId: nat

    /** The tree and the list of node objects agree; the drawn edges may be stale. */
    ghost predicate Linked()
      reads this`root, this`bstNodes, this`nextId
    {
      && Ordered(root) && Distinct(root)
      && Tracks(bstNodes, root)
      && (forall k :: k in Ids(root) ==> k < nextId)
    }

    ghost predicate Valid()
      reads this
    {
      Linked() && edges == TreeEdges(root)
    }

    constructor ()
      ensures Valid() && root == Nil && bstNodes == [] && treeValue == Blank
      ensures lastInserted == None && lastDeleted == None
    {
      root := Nil;
      bstNodes := [];
      edges := [];
      treeValue := Blank;
      lastInserted := None;
      lastDeleted := None;
      nextId := 0;
    }

    /** The descent from the root to the node holding value; Nil when a null link is reached first. */
    method FindNode(value: int) returns (r: Tree)
      ensures r == Lookup(root, value)
    {
      var curr := root;
      while curr.Node?
        invariant Lookup(curr, value) == Lookup(root, value)
        decreases curr
      {
        if curr.value == value {
          return curr;
        }
        curr := if value < curr.value then curr.left else curr.right;
      }
      return Nil;
    }

    /** The node reached by following left links from node. */
    static method MinNode(node: Tree) returns (r: Tree)
      requires node.Node?
      ensures r == Leftmost(node)
    {
      var curr := node;
      while curr.left.Node?
        invariant curr.Node? && Leftmost(curr) == Leftmost(node)
        decreases curr
      {
        curr := curr.left;
      }
      return curr;
    }

    /**
     * Inserts the typed number as a new leaf and redraws the edges. A blank
     * box, text that is not a number, or a number already in the tree
     * changes nothing, the box included.
     */
    method InsertNode()
      requires Valid()
      modifies this`root, this`bstNodes, this`edges, this`nextId, this`lastInserted, this`treeValue
      ensures Valid()
      ensures !old(treeValue).Number? || old(treeValue).value in old(Values(root)) ==> unchanged(this)
      ensures old(treeValue).Number? && old(treeValue).value !in old(Values(root)) ==>
        && Values(root) == old(Values(root)) + {old(treeValue).value}
        && Size() == old(Size()) + 1
        && root == (if old(root).Nil? then Node(Nil, old(nextId), old(treeValue).value, Nil)
                    else InsertBST(old(root), old(nextId), old(treeValue).value))
        && bstNodes == old(bstNodes) + [old(nextId)]
        && Lookup(root, old(treeValue).value) == Node(Nil, old(nextId), old(treeValue).value, Nil)
        && lastInserted == Some(old(treeValue).value) && treeValue == Blank
    {
      if !treeValue.Number? {
        return;
      }
      var value := treeValue.value;
      var found := FindNode(value);
      LookupFinds(root, value);
      if found.Node? {
        return;
      }
      var id := nextId;
      ghost var root0, nodes0 := root, bstNodes;
      nextId := nextId + 1;
      if root.Nil? {
        root := Node(Nil, id, value, Nil);
      } else {
        InsertKeepsOrder(root, id, value);
        InsertIds(root, id, value);
        InsertedIsLeaf(root, id, value);
        root := InsertBST(root, id, value);
      }
      NoDuplicatesAppend(bstNodes, [id]);
      bstNodes := bstNodes + [id];
      assert Linked();
      assert root == (if root0.Nil? then Node(Nil, id, value, Nil) else InsertBST(root0, id, value));
      assert bstNodes == nodes0 + [id];
      UpdateEdges();
      assert Valid();
      lastInserted := Some(value);
      treeValue := Blank;
    }

    /**
     * Deletes the node holding the typed number and redraws the edges. A
     * blank box, text that is not a number, or a number not in the tree
     * changes nothing, the box included.
     */
    method DeleteNode()
      requires Valid()
      modifies this`root, this`bstNodes, this`edges, this`lastDeleted, this`treeValue
      ensures Valid()
      ensures !old(treeValue).Number? || old(treeValue).value !in old(Values(root)) ==> unchanged(this)
      ensures old(treeValue).Number? && old(treeValue).value in old(Values(root)) ==>
        && root == RemoveAt(old(root), old(treeValue).value)
        && Lookup(old(root), old(treeValue).value).Node?
        && bstNodes == TrackedAfterRemoval(old(bstNodes), Lookup(old(root), old(treeValue).value))
        && Values(root) == old(Values(root)) - {old(treeValue).value}
        && Size() == old(Size()) - 1
        && lastDeleted == Some(old(treeValue).value) && treeValue == Blank
    {
      if !treeValue.Number? {
        return;
      }
      var value := treeValue.value;
      var node := FindNode(value);
      LookupFinds(root, value);
      if node.Nil? {
        return;
      }
      RemoveBSTNode(node);
      assert Linked();
      lastDeleted := Some(value);
      treeValue := Blank;
      assert Linked();
      UpdateEdges();
    }

    /**
     * removeBSTNode, with the list of node objects filtered as intended: a
     * node with at most one child is replaced by that child (or by a null
     * link); a node with two children takes the value of the leftmost node
     * of its right subtree, and that node is removed in its place.
     */
    method RemoveBSTNode(node: Tree)
      requires Linked() && node.Node? && node == Lookup(root, node.value)
      modifies this`root, this`bstNodes
      ensures Linked()
      ensures root == RemoveAt(old(root), node.value)
      ensures Values(root) == old(Values(root)) - {node.value}
      ensures bstNodes == TrackedAfterRemoval(old(bstNodes), node)
      ensures |bstNodes| == |old(bstNodes)| - 1
    {
      var detached := node.id;
      if node.left.Node? && node.right.Node? {
        var succ := MinNode(node.right);
        detached := succ.id;
      }
      RemovalKeepsTracking(bstNodes, root, node.value);
      RemoveAtKeepsOrder(root, node.value);
      bstNodes := Without(bstNodes, detached);
      root := RemoveAt(root, node.value);
    }

    /** Rebuilds the edge list by walking the tree from the root. */
    method UpdateEdges()
      modifies this`edges
      ensures edges == TreeEdges(root)
    {
      edges := [];
      Traverse(root);
    }

    /** Adds the edges to node's children, then walks the left and the right subtree. */
    method Traverse(node: Tree)
      modifies this`edges
      ensures edges == old(edges) + TreeEdges(node)
      decreases node
    {
      if node.Nil? {
        return;
      }
      if node.left.Node? {
        edges := edges + [Link(node.id, node.left.id)];
      }
      if node.right.Node? {
        edges := edges + [Link(node.id, node.right.id)];
      }
      Traverse(node.left);
      Traverse(node.right);
    }

    /**
     * The search: a blank box only prompts, and text that is not a number
     * stops it; otherwise the nodes of the descent are highlighted from the
     * root down, and the search stops on the node holding the number.
     */
    method SearchNode() returns (r: Scan)
      ensures !treeValue.Number? ==> r == Scan([], None)
      ensures treeValue.Number? ==> r.visited == Descent(root, treeValue.value)
      ensures treeValue.Number? ==> r.found == (if Lookup(root, treeValue.value).Node? then Some(Lookup(root, treeValue.value).id) else None)
      ensures treeValue.Number? && Valid() ==> (r.found.Some? <==> treeValue.value in Values(root))
    {
      if !treeValue.Number? {
        return Scan([], None);
      }
      var value := treeValue.value;
      var curr := root;
      var path: seq<nat> := [];
      while curr.Node?
        invariant path + Descent(curr, value) == Descent(root, value)
        invariant Lookup(curr, value) == Lookup(root, value)
        decreases curr
      {
        path := path + [curr.id];
        if curr.value == value {
          assert Descent(curr, value) == [curr.id];
          r := Scan(path, Some(curr.id));
          break;
        }
        assert Descent(curr, value) == [curr.id] + Descent(if value < curr.value then curr.left else curr.right, value);
        curr := if value < curr.value then curr.left else curr.right;
      }
      if curr.Nil? {
        r := Scan(path, None);
      }
      if Valid() {
        LookupFinds(root, value);
      }
    }

    /** Forgets every node and edge. */
    method Clear()
      modifies this`root, this`bstNodes, this`edges
      ensures Valid() && root == Nil && bstNodes == [] && edges == []
    {
      edges := [];
      root := Nil;
      bstNodes := [];
    }

    /** The root's value, or none for an empty tree (shown as 'null'). */
    function Root(): (r: Option<int>)
      reads this
      ensures r.None? <==> BSTShape.Size(root) == 0
      ensures r.Some? ==> r.value in Values(root) && r.value == Preorder()[0]
    {
      if root.Nil? then None else Some(root.value)
    }

    /** size(): the length of the list of node objects, which is the number of nodes in the tree. */
    function Size(): (n: nat)
      reads this
      requires Valid()
      ensures n == BSTShape.Size(root)
    {
      |bstNodes|
    }

    /** height(): the number of levels, 0 for an empty tree. */
    function Height(): (h: nat)
      reads this
      ensures h <= BSTShape.Size(root) < IndexTree.Pow2(h)
    {
      HeightBounds(root);
      BSTShape.Height(root)
    }

    /** The preorder getter: the root's value first, then the same values as inorder. */
    function Preorder(): (r: seq<int>)
      reads this
      ensures multiset(r) == multiset(BSTShape.Inorder(root))
      ensures root.Node? ==> |r| > 0 && r[0] == root.value
    {
      WalksSameValues(root);
      BSTShape.Preorder(root)
    }

    /** The inorder getter: every value of the tree once, in increasing order. */
    function Inorder(): (r: seq<int>)
      reads this
      requires Valid()
      ensures Increasing(r) && |r| == BSTShape.Size(root)
      ensures forall x :: x in r <==> x in Values(root)
    {
      OrderedIffInorderIncreasing(root);
      InorderMembers(root);
      BSTShape.Inorder(root)
    }

    /** The postorder getter: the same values as inorder, the root's value last. */
    function Postorder(): (r: seq<int>)
      reads this
      ensures multiset(r) == multiset(BSTShape.Inorder(root))
      ensures root.Node? ==> |r| > 0 && r[|r| - 1] == root.value
    {
      WalksSameValues(root);
      BSTShape.Postorder(root)
    }

    /** The level-order getter: a queue from the root, each node's value listed as it leaves the queue and its children queued. */
    method Levelorder() returns (r: seq<int>)
      ensures r == LevelWalk([root])
      ensures forall x :: x in r <==> x in Values(root)
      ensures |r| == BSTShape.Size(root)
    {
      r := [];
      var queue: seq<Tree> := [];
      if root.Node? {
        queue := [root];
      } else {
        assert LevelWalk([root]) == LevelWalk([]);
      }
      while |queue| > 0
        invariant forall k :: 0 <= k < |queue| ==> queue[k].Node?
        invariant r + LevelWalk(queue) == LevelWalk([root])
        decreases SizeAll(queue), |queue|
      {
        var node := queue[0];
        ghost var q := queue;
        r := r + [node.value];
        // The children that are not null links, left first.
        queue := queue[1..] + Children(node);
        LevelWalkStep(q);
      }
      LevelorderLists(root);
    }
  }
}
