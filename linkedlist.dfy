/**
 * The singly linked list visualizer: a row of labelled nodes, head first.
 * Labels are inserted at the front or at the back from the input box,
 * deleted by value (first match) and searched for from the head.
 */
module LinkedListVisualizer {
  import opened Common

  /** `s` without its first occurrence of `x`; `s` itself when `x` does not occur. */
  function RemoveFirst<T(==)>(s: seq<T>, x: T): (r: seq<T>)
    ensures x !in s ==> r == s
    ensures x in s ==> |r| == |s| - 1
  {
    match FirstIndex(s, x)
    case None => s
    case Some(i) => s[..i] + s[i + 1..]
  }

  /** Removing the first occurrence takes exactly one copy of `x` out of the list and keeps the rest. */
  lemma RemoveFirstMultiset<T>(s: seq<T>, x: T)
    requires x in s
    ensures multiset(RemoveFirst(s, x)) == multiset(s) - multiset{x}
  {
    var i := FirstIndex(s, x).value;
    assert s == s[..i] + [s[i]] + s[i + 1..];
  }

  /** Elements before the first occurrence keep their positions; the ones after it move one to the left. */
  lemma RemoveFirstPositions<T>(s: seq<T>, x: T, i: nat)
    requires i < |s| && s[i] == x && x !in s[..i]
    ensures forall k :: 0 <= k < i ==> RemoveFirst(s, x)[k] == s[k]
    ensures forall k :: i <= k < |s| - 1 ==> RemoveFirst(s, x)[k] == s[k + 1]
  {
    assert FirstIndex(s, x) == Some(i);
  }

  /** Deleting a label right after inserting it at the front restores the list. */
  lemma RemoveFirstAfterPrepend<T>(x: T, s: seq<T>)
    ensures RemoveFirst([x] + s, x) == s
  {
    assert FirstIndex([x] + s, x) == Some(0);
  }

  /** Deleting a label right after appending it restores the list when it was not already there. */
  lemma {:induction false} RemoveFirstAfterAppend<T>(s: seq<T>, x: T)
    requires x !in s
    ensures RemoveFirst(s + [x], x) == s
  {
    assert (s + [x])[|s|] == x;
    assert (s + [x])[..|s|] == s;
    RemoveFirstPositions(s + [x], x, |s|);
  }

  class LinkedList {
    /** The labels of the node boxes, from the head to the tail. */
    var nodeBodies: seq<string>
    var listValue: string
    var lastInserted: Option<string>
    var lastDeleted: Option<string>

    /** Every node carries a label that is not blank. */
    ghost predicate Valid()
      reads this
    {
      forall k :: 0 <= k < |nodeBodies| ==> !IsBlank(nodeBodies[k])
    }

    constructor ()
      ensures Valid() && nodeBodies == [] && listValue == ""
      ensures lastInserted == None && lastDeleted == None
    {
      nodeBodies := [];
      listValue := "";
      lastInserted := None;
      lastDeleted := None;
    }

    /** Adds the typed label as the new head unless it is blank; the input box is cleared after an insertion. */
    method InsertAtFront()
      requires Valid()
      modifies this`nodeBodies, this`lastInserted, this`listValue
      ensures Valid()
      ensures IsBlank(old(listValue)) ==> unchanged(this)
      ensures !IsBlank(old(listValue)) ==>
        && nodeBodies == [old(listValue)] + old(nodeBodies)
        && lastInserted == Some(old(listValue)) && listValue == ""
    {
      if IsBlank(listValue) {
        return;
      }
      nodeBodies := [listValue] + nodeBodies;
      lastInserted := Some(listValue);
      listValue := "";
    }

    /** Adds the typed label as the new tail unless it is blank; the input box is cleared after an insertion. */
    method InsertNode()
      requires Valid()
      modifies this`nodeBodies, this`lastInserted, this`listValue
      ensures Valid()
      ensures IsBlank(old(listValue)) ==> unchanged(this)
      ensures !IsBlank(old(listValue)) ==>
        && nodeBodies == old(nodeBodies) + [old(listValue)]
        && lastInserted == Some(old(listValue)) && listValue == ""
    {
      if IsBlank(listValue) {
        return;
      }
      nodeBodies := nodeBodies + [listValue];
      lastInserted := Some(listValue);
      listValue := "";
    }

    /** Inserting at the last position is the plain insertion. */
    method InsertAtLast()
      requires Valid()
      modifies this`nodeBodies, this`lastInserted, this`listValue
      ensures Valid()
      ensures IsBlank(old(listValue)) ==> unchanged(this)
      ensures !IsBlank(old(listValue)) ==>
        && nodeBodies == old(nodeBodies) + [old(listValue)]
        && lastInserted == Some(old(listValue)) && listValue == ""
    {
      InsertNode();
    }

    /**
     * Deletes the first node whose label equals the typed text exactly (the
     * text is only trimmed for the blank check). Without a match nothing
     * changes, the input box included.
     */
    method DeleteNode()
      requires Valid()
      modifies this`nodeBodies, this`lastDeleted, this`listValue
      ensures Valid()
      ensures IsBlank(old(listValue)) || old(listValue) !in old(nodeBodies) ==> unchanged(this)
      ensures !IsBlank(old(listValue)) && old(listValue) in old(nodeBodies) ==>
        && nodeBodies == RemoveFirst(old(nodeBodies), old(listValue))
        && lastDeleted == Some(old(listValue)) && listValue == ""
    {
      if IsBlank(listValue) {
        return;
      }
      var idx := FirstIndex(nodeBodies, listValue);
      if idx.None? {
        return;
      }
      var i := idx.value;
      lastDeleted := Some(nodeBodies[i]);
      nodeBodies := nodeBodies[..i] + nodeBodies[i + 1..];
      listValue := "";
    }

    /** Removes the nodes one by one from the tail until the list is empty. */
    method Clear()
      modifies this`nodeBodies
      ensures Valid() && nodeBodies == []
    {
      while |nodeBodies| > 0
        invariant nodeBodies == old(nodeBodies)[..|nodeBodies|]
        decreases |nodeBodies|
      {
        nodeBodies := nodeBodies[..|nodeBodies| - 1];
      }
    }

    /**
     * The search: for a blank input only a prompt is shown; otherwise the nodes
     * are highlighted from the head, one per step, until the first whose label
     * equals the input (reported as position index + 1), or until the tail.
     */
    method SearchNode() returns (r: Scan)
      ensures IsBlank(listValue) ==> r == Scan([], None)
      ensures !IsBlank(listValue) ==> r == LinearSearch(nodeBodies, listValue)
    {
      if IsBlank(listValue) {
        return Scan([], None);
      }
      var visited: seq<nat> := [];
      var i := 0;
      while i < |nodeBodies|
        invariant 0 <= i <= |nodeBodies|
        invariant visited == Range(0, i)
        invariant listValue !in nodeBodies[..i]
      {
        visited := visited + [i];
        if nodeBodies[i] == listValue {
          LinearSearchFinds(nodeBodies, listValue, i);
          return Scan(visited, Some(i));
        }
        assert nodeBodies[..i + 1] == nodeBodies[..i] + [nodeBodies[i]];
        i := i + 1;
      }
      assert nodeBodies[..i] == nodeBodies;
      LinearSearchMisses(nodeBodies, listValue);
      r := Scan(visited, None);
    }

    function IsEmpty(): (r: bool)
      reads this
      ensures r <==> Size() == 0
    {
      |nodeBodies| == 0
    }

    function Size(): (r: nat)
      reads this
      ensures r == |nodeBodies|
    {
      |nodeBodies|
    }

    /** The label of the head node, or the text "null" for an empty list. */
    function Head(): (r: string)
      reads this
      requires Valid()
      ensures nodeBodies == [] ==> r == "null"
      ensures nodeBodies != [] ==> r == nodeBodies[0] && !IsBlank(r)
    {
      if |nodeBodies| == 0 then "null" else nodeBodies[0]
    }

    /** The label of the tail node, or the text "null" for an empty list. */
    function Tail(): (r: string)
      reads this
      requires Valid()
      ensures nodeBodies == [] ==> r == "null"
      ensures nodeBodies != [] ==> r == nodeBodies[|nodeBodies| - 1] && !IsBlank(r)
    {
      if |nodeBodies| == 0 then "null" else nodeBodies[|nodeBodies| - 1]
    }
  }
}
