/**
 * The stack visualizer: a column of labelled boxes, pushed from the input box
 * and popped from the top. The last box of `stackBodies` is the top of the
 * stack and is the only one drawn in the "top" colour.
 */
module StackVisualizer {
  import opened Common

  /** The fill of a box: green (#7ee787) for the top, blue (#2196f3) for the rest. */
  datatype Fill = TopFill | BelowFill


  /** Exactly the last box carries the top colour. */
  predicate TopHighlighted(boxes: seq<Box<Fill>>) {
    forall k :: 0 <= k < |boxes| ==> (boxes[k].fill == TopFill <==> k == |boxes| - 1)
  }

  class Stack {
    var stackBodies: seq<Box<Fill>>
    var pushValue: string

    constructor ()
      ensures stackBodies == [] && pushValue == ""
    {
      stackBodies := [];
      pushValue := "";
    }

    /** The labels from the bottom of the stack to its top. */
    function Contents(): seq<string>
      reads this
    {
      Labels(stackBodies)
    }

    /** Pushes the typed label unless it is blank; the input box is cleared in every case. */
    method ConfirmPush()
      modifies this
      ensures pushValue == ""
      ensures IsBlank(old(pushValue)) ==> stackBodies == old(stackBodies)
      ensures !IsBlank(old(pushValue)) ==>
        Contents() == old(Contents()) + [old(pushValue)] && TopHighlighted(stackBodies)
    {
      if !IsBlank(pushValue) {
        var isTop := |stackBodies| == 0;
        stackBodies := stackBodies + [Box(pushValue, if isTop then TopFill else BelowFill)];
        UpdateTopHighlight();
      }
      pushValue := "";
    }

    /** Recolours every box: the last one as the top, all others as below it. */
    method UpdateTopHighlight()
      modifies this`stackBodies
      ensures Contents() == old(Contents())
      ensures TopHighlighted(stackBodies)
      ensures old(stackBodies) == [] ==> stackBodies == []
    {
      if |stackBodies| > 0 {
        var n := |stackBodies|;
        var i := 0;
        while i < n
          invariant 0 <= i <= n == |stackBodies|
          invariant Contents() == old(Contents())
          invariant forall k :: 0 <= k < i ==> (stackBodies[k].fill == TopFill <==> k == n - 1)
        {
          stackBodies := stackBodies[i := stackBodies[i].(fill := if i == n - 1 then TopFill else BelowFill)];
          i := i + 1;
        }
      }
    }

    /**
     * Removes the most recently pushed box; does nothing on an empty stack.
     * The top recolouring that follows the pop animation is not part of this step.
     */
    method Pop()
      modifies this`stackBodies
      ensures old(stackBodies) == [] ==> stackBodies == []
      ensures old(stackBodies) != [] ==> stackBodies == old(stackBodies[..|stackBodies| - 1])
      ensures old(Contents()) != [] ==> Contents() == old(Contents()[..|Contents()| - 1])
    {
      if |stackBodies| > 0 {
        stackBodies := stackBodies[..|stackBodies| - 1];
      }
    }
  }

  /** Last in, first out: pushing a label and popping again restores the previous stack. */
  method PushThenPop(s: Stack, v: string)
    requires !IsBlank(v)
    modifies s
    ensures s.Contents() == old(s.Contents())
  {
    s.pushValue := v;
    s.ConfirmPush();
    s.Pop();
  }
}
