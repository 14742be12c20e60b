/**
 * The bubble sort visualizer: a row of bars whose heights are the array's
 * values. The animated sort works on the array in place; the step mode first
 * records every comparison of the same sort, with a snapshot of the array
 * after it, and then replays the snapshots forwards and backwards.
 */
module BubbleSortVisualizer {
  import opened BubblePasses

  class BubbleSort {
    /** The numbers the bars show (the component's `array`). */
    var values: array<int>
    /** The bars, by their heights; they follow the numbers position by position. */
    var bars: array<int>
    var steps: seq<Step>
    var currentStep: nat
    var stepMode: bool
    var stepSorting: bool
    var sorting: bool
    const numBars: nat

    ghost predicate Valid()
      reads this, values, bars
    {
      values != bars && bars[..] == values[..]
    }

    constructor ()
      ensures Valid() && values.Length == 0 && steps == [] && currentStep == 0
      ensures !stepMode && !stepSorting && !sorting && numBars == 20
    {
      values := new int[0];
      bars := new int[0];
      steps := [];
      currentStep := 0;
      stepMode := false;
      stepSorting := false;
      sorting := false;
      numBars := 20;
    }

    /**
     * Fills the array with numBars fresh heights and redraws. Each height is
     * 40 plus a draw from the random source, a whole number below 400.
     */
    method ResetArray(draws: seq<nat>)
      requires |draws| == numBars && forall k :: 0 <= k < |draws| ==> draws[k] < 400
      modifies this`values, this`bars
      ensures Valid() && fresh(values)
      ensures values.Length == numBars && forall k :: 0 <= k < numBars ==> 40 <= values[k] < 440 && values[k] == draws[k] + 40
    {
      values := new int[numBars](k requires 0 <= k < numBars => draws[k] + 40);
      bars := new int[0];
      DrawHistogram();
    }

    /** Replaces the bars with one bar per number, in order. */
    method DrawHistogram()
      modifies this`bars
      ensures Valid() && fresh(bars)
    {
      var drawn := new int[values.Length];
      var i := 0;
      while i < values.Length
        invariant 0 <= i <= values.Length
        invariant forall k :: 0 <= k < i ==> drawn[k] == values[k]
      {
        drawn[i] := values[i];
        i := i + 1;
      }
      bars := drawn;
    }

    /** A fresh array holding the values of s: the copy `slice()` makes. */
    static method Copy(s: seq<int>) returns (a: array<int>)
      ensures fresh(a) && a[..] == s
    {
      a := new int[|s|](k requires 0 <= k < |s| => s[k]);
    }

    /**
     * Records the comparisons of a bubble sort of a copy of the array, each
     * with a snapshot, and enters step mode at the first step. The array
     * itself does not change.
     */
    method PrepareSteps()
      modifies this`steps, this`currentStep, this`stepMode, this`stepSorting
      ensures steps == Trace(values[..])
      ensures currentStep == 0 && stepMode && !stepSorting
    {
      steps := RecordSteps(values[..]);
      currentStep := 0;
      stepMode := true;
      stepSorting := false;
    }

    /** Bubble sorts a copy of `a`, recording every comparison with a snapshot of the copy after it. */
    static method RecordSteps(a: seq<int>) returns (recorded: seq<Step>)
      ensures recorded == Trace(a)
    {
      recorded := [];
      var arr := a;
      var n := |arr|;
      var i := 0;
      while i < n - 1
        invariant i == 0 || i < n
        invariant recorded == Passes(a, i) && arr == AfterPasses(a, i)
        invariant |arr| == n
      {
        PassesNext(a, i);
        arr, recorded := RecordPass(arr, n - i - 1, recorded);
        i := i + 1;
      }
    }

    /** One pass of the recording: compares each pair of neighbours among the first m+1 positions of arr0 and records a step for each. */
    static method RecordPass(arr0: seq<int>, m: nat, steps0: seq<Step>)
      returns (arr: seq<int>, steps: seq<Step>)
      requires m < |arr0|
      ensures steps == steps0 + PassSteps(arr0, m) && arr == AfterPass(arr0, m)
    {
      arr, steps := arr0, steps0;
      var j := 0;
      while j < m
        invariant 0 <= j <= m
        invariant steps == steps0 + PassSteps(arr0, j) && arr == AfterPass(arr0, j)
      {
        ghost var next := Compare(arr, j);
        var swapped := false;
        if arr[j] > arr[j + 1] {
          arr := arr[j := arr[j + 1]][j + 1 := arr[j]];
          swapped := true;
        }
        assert Step(j, j + 1, swapped, arr) == next;
        steps := steps + [Step(j, j + 1, swapped, arr)];
        assert steps == steps0 + (PassSteps(arr0, j) + [next]);
        j := j + 1;
      }
    }

    /**
     * Shows the snapshot of the current step and moves the cursor on; after
     * the last step the step mode ends. Outside step mode, or past the last
     * step, nothing happens.
     */
    method NextStep()
      requires Valid()
      modifies this`values, this`bars, this`currentStep, this`stepMode, this`stepSorting
      ensures Valid()
      ensures !old(stepMode) || old(currentStep) >= |steps| ==> unchanged(this)
      ensures old(stepMode) && old(currentStep) < |steps| ==>
        && values[..] == steps[old(currentStep)].arr
        && currentStep == old(currentStep) + 1
        && (currentStep >= |steps| ==> !stepMode && !stepSorting)
        && (currentStep < |steps| ==> stepMode && stepSorting == old(stepSorting))
    {
      if !stepMode || currentStep >= |steps| {
        return;
      }
      var step := steps[currentStep];
      values := Copy(step.arr);
      DrawHistogram();
      currentStep := currentStep + 1;
      if currentStep >= |steps| {
        stepSorting := false;
        stepMode := false;
      }
    }

    /** Steps back one snapshot: rewinds the cursor by two and shows the next step. */
    method PrevStep()
      requires Valid()
      modifies this`values, this`bars, this`currentStep, this`stepMode, this`stepSorting
      ensures Valid()
      ensures !old(stepMode) || old(currentStep) <= 1 ==> unchanged(this)
      ensures old(stepMode) && 1 < old(currentStep) <= |steps| + 1 ==>
        && values[..] == steps[old(currentStep) - 2].arr
        && currentStep == old(currentStep) - 1
        && (currentStep >= |steps| ==> !stepMode && !stepSorting)
        && (currentStep < |steps| ==> stepMode && stepSorting == old(stepSorting))
    {
      if !stepMode || currentStep <= 1 {
        return;
      }
      currentStep := currentStep - 2;
      NextStep();
    }

    /** Records the steps and shows the first snapshot. */
    method StartStepSort()
      requires Valid()
      modifies this`values, this`bars, this`steps, this`currentStep, this`stepMode, this`stepSorting
      ensures Valid()
      ensures steps == Trace(old(values[..]))
      ensures |steps| > 0 ==> values[..] == steps[0].arr && currentStep == 1
      ensures |steps| > 0 ==> stepMode == stepSorting == (|steps| > 1)
      ensures |steps| == 0 ==> values[..] == old(values[..]) && currentStep == 0 && stepMode && stepSorting
    {
      PrepareSteps();
      stepSorting := true;
      NextStep();
    }

    /** Exchanges the values at i and j, and their bars with them. */
    method Swap(i: nat, j: nat)
      requires Valid() && i < values.Length && j < values.Length
      modifies values, bars
      ensures Valid()
      ensures values[..] == old(values[..])[i := old(values[j])][j := old(values[i])]
    {
      values[i], values[j] := values[j], values[i];
      bars[i], bars[j] := bars[j], bars[i];
    }

    /**
     * The animated sort, in place: the same passes and comparisons as the
     * recorded steps, so it ends with the array of the last step. Nothing
     * happens while a sort is already running.
     */
    method BubbleSort()
      requires Valid()
      modifies values, bars, this`sorting
      ensures Valid()
      ensures old(sorting) ==> unchanged(values) && sorting
      ensures !old(sorting) ==> values[..] == BubbleSorted(old(values[..])) && !sorting
      ensures Sorted(values[..]) || old(sorting)
      ensures multiset(values[..]) == multiset(old(values[..]))
    {
      if sorting {
        return;
      }
      sorting := true;
      ghost var a := values[..];
      SortAllPasses();
      BubbleSortedSorts(a);
      sorting := false;
    }

    /** Every pass of the animated sort, one after the other. */
    method SortAllPasses()
      requires Valid()
      modifies values, bars
      ensures Valid() && values[..] == BubbleSorted(old(values[..]))
    {
      ghost var a := values[..];
      var n := values.Length;
      var i := 0;
      while i < n - 1
        invariant i == 0 || i < n
        invariant Valid() && values.Length == n == |a|
        invariant values[..] == AfterPasses(a, i)
      {
        PassesNext(a, i);
        SortPass(n - i - 1);
        i := i + 1;
      }
    }

    /** One pass of the animated sort: swaps each out-of-order pair of neighbours among the first m+1 positions, bars included. */
    method SortPass(m: nat)
      requires Valid() && m < values.Length
      modifies values, bars
      ensures Valid() && values[..] == AfterPass(old(values[..]), m)
    {
      ghost var b := values[..];
      var j := 0;
      while j < m
        invariant 0 <= j <= m
        invariant Valid()
        invariant values[..] == AfterPass(b, j)
      {
        ghost var next := CompareAt(values[..], j);
        if values[j] > values[j + 1] {
          Swap(j, j + 1);
        }
        assert values[..] == next;
        j := j + 1;
      }
    }
  }
}
