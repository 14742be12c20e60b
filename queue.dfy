/**
 * The queue visualizer: a row of labelled boxes, enqueued at the back from
 * the input box and dequeued from the front (index 0). The front box is the
 * only one drawn in the "front" colour once the highlight has been refreshed.
 */
module QueueVisualizer {
  import opened Common

  /**
   * The fill of a box: cyan (#02D4E3) as created, purple (#CC6CE7) for the
   * front, blue (#2196f3) for every other box.
   */
  datatype Fill = NewFill | FrontFill | BackFill


  /** Exactly the box at index 0 carries the front colour; the others the back colour. */
  predicate FrontHighlighted(boxes: seq<Box<Fill>>) {
    forall k :: 0 <= k < |boxes| ==> boxes[k].fill == if k == 0 then FrontFill else BackFill
  }

  class Queue {
    var queueBodies: seq<Box<Fill>>
    var queueValue: string
    var lastEnqueued: Option<string>
    var lastDequeued: Option<string>

    /** Every box in the queue carries a label that is not blank. */
    ghost predicate Valid()
      reads this
    {
      forall k :: 0 <= k < |queueBodies| ==> !IsBlank(queueBodies[k].text)
    }

    constructor ()
      ensures Valid() && queueBodies == [] && queueValue == ""
      ensures lastEnqueued == None && lastDequeued == None
    {
      queueBodies := [];
      queueValue := "";
      lastEnqueued := None;
      lastDequeued := None;
    }

    /** The labels from the front of the queue to its back. */
    function Contents(): seq<string>
      reads this
    {
      Labels(queueBodies)
    }

    function IsEmpty(): (r: bool)
      reads this
      ensures r <==> Size() == 0
    {
      |queueBodies| == 0
    }

    function Size(): (r: nat)
      reads this
      ensures r == |Contents()|
    {
      |queueBodies|
    }

    /** The label at the front, or the text "null" for an empty queue. */
    function Front(): (r: string)
      reads this
      requires Valid()
      ensures Contents() == [] ==> r == "null"
      ensures Contents() != [] ==> r == Contents()[0] && !IsBlank(r)
    {
      if |queueBodies| == 0 then "null" else queueBodies[0].text
    }

    /** Appends the typed label at the back unless it is blank; the input box is cleared in every case. */
    method Enqueue()
      requires Valid()
      modifies this
      ensures Valid() && queueValue == "" && lastDequeued == old(lastDequeued)
      ensures IsBlank(old(queueValue)) ==> queueBodies == old(queueBodies) && lastEnqueued == old(lastEnqueued)
      ensures !IsBlank(old(queueValue)) ==>
        && Contents() == old(Contents()) + [old(queueValue)]
        && FrontHighlighted(queueBodies)
        && lastEnqueued == Some(old(queueValue))
    {
      if !IsBlank(queueValue) {
        queueBodies := queueBodies + [Box(queueValue, NewFill)];
        lastEnqueued := Some(queueValue);
        UpdateFrontHighlight();
      }
      queueValue := "";
    }

    /**
     * Removes the front box and records its label; does nothing on an empty queue.
     * The recolouring that follows the dequeue animation is not part of this step.
     */
    method Dequeue()
      requires Valid()
      modifies this`queueBodies, this`lastDequeued
      ensures Valid()
      ensures old(queueBodies) == [] ==> queueBodies == [] && lastDequeued == old(lastDequeued)
      ensures old(queueBodies) != [] ==>
        && queueBodies == old(queueBodies[1..])
        && lastDequeued == Some(old(Contents()[0]))
    {
      if |queueBodies| > 0 {
        var box := queueBodies[0];
        queueBodies := queueBodies[1..];
        lastDequeued := Some(box.text);
      }
    }

    /** Removes the boxes one by one from the back until the queue is empty. */
    method Clear()
      requires Valid()
      modifies this`queueBodies
      ensures Valid() && queueBodies == []
    {
      while |queueBodies| > 0
        invariant queueBodies == old(queueBodies)[..|queueBodies|]
        decreases |queueBodies|
      {
        queueBodies := queueBodies[..|queueBodies| - 1];
      }
      UpdateFrontHighlight();
    }

    /** Recolours every box: index 0 as the front, all others as the back; nothing on an empty queue. */
    method UpdateFrontHighlight()
      modifies this`queueBodies
      ensures Contents() == old(Contents())
      ensures FrontHighlighted(queueBodies)
      ensures old(queueBodies) == [] ==> queueBodies == []
    {
      if |queueBodies| > 0 {
        var n := |queueBodies|;
        var i := 0;
        while i < n
          invariant 0 <= i <= n == |queueBodies|
          invariant Contents() == old(Contents())
          invariant forall k :: 0 <= k < i ==> queueBodies[k].fill == if k == 0 then FrontFill else BackFill
        {
          queueBodies := queueBodies[i := queueBodies[i].(fill := if i == 0 then FrontFill else BackFill)];
          i := i + 1;
        }
      }
    }

    /**
     * The search: for a blank input only a prompt is shown; otherwise the boxes
     * are highlighted from the front, one per step, until the first whose label
     * equals the input (reported as position index + 1), or until the back.
     */
    method SearchQueue() returns (r: Scan)
      ensures IsBlank(queueValue) ==> r == Scan([], None)
      ensures !IsBlank(queueValue) ==> r == LinearSearch(Contents(), queueValue)
    {
      if IsBlank(queueValue) {
        return Scan([], None);
      }
      ghost var labels := Contents();
      var visited: seq<nat> := [];
      var i := 0;
      while i < |queueBodies|
        invariant 0 <= i <= |queueBodies|
        invariant visited == Range(0, i)
        invariant queueValue !in labels[..i]
      {
        visited := visited + [i];
        if queueBodies[i].text == queueValue {
          LinearSearchFinds(labels, queueValue, i);
          return Scan(visited, Some(i));
        }
        assert labels[..i + 1] == labels[..i] + [labels[i]];
        i := i + 1;
      }
      assert labels[..i] == labels;
      LinearSearchMisses(labels, queueValue);
      r := Scan(visited, None);
    }
  }

  /** First in, first out: enqueue "a", "b", "c" and dequeue once; the front is then "b" and two remain. */
  method FifoExample() returns (front: string, size: nat)
    ensures front == "b" && size == 2
  {
    assert !IsBlank("a") && !IsBlank("b") && !IsBlank("c") by {
      assert !IsWhitespace("a"[0]) && !IsWhitespace("b"[0]) && !IsWhitespace("c"[0]);
    }
    var q := new Queue();
    q.queueValue := "a";
    q.Enqueue();
    q.queueValue := "b";
    q.Enqueue();
    q.queueValue := "c";
    q.Enqueue();
    q.Dequeue();
    assert q.Contents() == ["b", "c"];
    front := q.Front();
    size := q.Size();
  }
}
