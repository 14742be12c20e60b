/**
 * The bubble sort the visualizer performs, on sequences: its comparisons,
 * its passes, the steps the step mode records, and what the sort achieves.
 */
module BubblePasses {

  /** One recorded comparison: the two positions compared, whether they were swapped, and the array after it. */
  datatype Step = Step(i: nat, j: nat, swapped: bool, arr: seq<int>)

  predicate Sorted(s: seq<int>) {
    forall k, l :: 0 <= k < l < |s| ==> s[k] <= s[l]
  }

  /** The array after comparing positions j and j+1 and swapping them when the left value is larger. */
  function CompareAt(arr: seq<int>, j: nat): (c: seq<int>)
    requires j + 1 < |arr|
    ensures |c| == |arr|
  {
    if arr[j] > arr[j + 1] then
      seq(|arr|, k requires 0 <= k < |arr| => if k == j then arr[j + 1] else if k == j + 1 then arr[j] else arr[k])
    else arr
  }

  /** The step recorded for that comparison. */
  function Compare(arr: seq<int>, j: nat): (s: Step)
    requires j + 1 < |arr|
    ensures s.i == j && s.j == j + 1 && s.arr == CompareAt(arr, j)
    ensures s.swapped <==> arr[j] > arr[j + 1]
  {
    Step(j, j + 1, arr[j] > arr[j + 1], CompareAt(arr, j))
  }

  /** The array after the first j comparisons of a pass over arr. */
  function AfterPass(arr: seq<int>, j: nat): (c: seq<int>)
    requires j < |arr|
    ensures |c| == |arr|
    decreases j
  {
    if j == 0 then arr else CompareAt(AfterPass(arr, j - 1), j - 1)
  }

  /** The number of passes over n values: one fewer than n, and none for an empty array. */
  function PassTotal(n: nat): (p: nat)
    ensures p == 0 || p < n
    ensures p + 1 >= n
  {
    if n == 0 then 0 else n - 1
  }

  /** The array after the first i passes over `a`; pass p compares the first |a| - p positions. */
  function AfterPasses(a: seq<int>, i: nat): (b: seq<int>)
    requires i == 0 || i < |a|
    ensures |b| == |a|
    decreases i
  {
    if i == 0 then a else AfterPass(AfterPasses(a, i - 1), |a| - i)
  }

  /** What the sort makes of `a`: the array after every pass. */
  function BubbleSorted(a: seq<int>): (b: seq<int>)
    ensures |b| == |a|
  {
    AfterPasses(a, PassTotal(|a|))
  }

  /** The steps recorded for the first j comparisons of a pass over arr. */
  function PassSteps(arr: seq<int>, j: nat): (r: seq<Step>)
    requires j < |arr|
    ensures |r| == j
    decreases j
  {
    if j == 0 then [] else PassSteps(arr, j - 1) + [Compare(AfterPass(arr, j - 1), j - 1)]
  }

  /** The steps recorded for the first i passes over `a`. */
  function Passes(a: seq<int>, i: nat): (r: seq<Step>)
    requires i == 0 || i < |a|
    decreases i
  {
    if i == 0 then [] else Passes(a, i - 1) + PassSteps(AfterPasses(a, i - 1), |a| - i)
  }

  /** Every comparison of the sort, pass after pass, as the step mode records them. */
  function Trace(a: seq<int>): (r: seq<Step>)
  {
    Passes(a, PassTotal(|a|))
  }

  /** Pass i+1 starts from the array the first i passes leave and records |a| - i - 1 comparisons. */
  lemma {:induction false} PassesNext(a: seq<int>, i: nat)
    requires i + 1 < |a|
    ensures Passes(a, i + 1) == Passes(a, i) + PassSteps(AfterPasses(a, i), |a| - i - 1)
    ensures AfterPasses(a, i + 1) == AfterPass(AfterPasses(a, i), |a| - i - 1)
  {
  }

  /** The array after the recorded steps, or `a` when none were recorded. */
  function Last(steps: seq<Step>, a: seq<int>): seq<int> {
    if |steps| == 0 then a else steps[|steps| - 1].arr
  }

  /** Step k of a pass is comparison k, made on the array the k comparisons before it left. */
  lemma {:induction false} PassStepsCompare(arr: seq<int>, j: nat, k: nat)
    requires k < j < |arr|
    ensures PassSteps(arr, j)[k] == Compare(AfterPass(arr, k), k)
    decreases j
  {
    if k < j - 1 {
      PassStepsCompare(arr, j - 1, k);
    }
  }

  /** The snapshot of the last step of a pass is the array the pass leaves. */
  lemma {:induction false} PassStepsLast(arr: seq<int>, j: nat)
    requires j < |arr|
    ensures Last(PassSteps(arr, j), arr) == AfterPass(arr, j)
  {
  }

  /** The snapshot of the last recorded step is the array the passes leave. */
  lemma {:induction false} PassesLast(a: seq<int>, i: nat)
    requires i == 0 || i < |a|
    ensures Last(Passes(a, i), a) == AfterPasses(a, i)
  {
    if i > 0 {
      var b := AfterPasses(a, i - 1);
      PassStepsLast(b, |a| - i);
      assert Passes(a, i) == Passes(a, i - 1) + PassSteps(b, |a| - i);
    }
  }

  /** Replaying every recorded step ends on the array the animated sort leaves. */
  lemma {:induction false} TraceEndsSorted(a: seq<int>)
    ensures Last(Trace(a), a) == BubbleSorted(a)
  {
    PassesLast(a, PassTotal(|a|));
  }

  /** A comparison leaves the larger of the two values on the right, keeps the values and touches nothing else. */
  lemma {:induction false} CompareFacts(arr: seq<int>, j: nat)
    requires j + 1 < |arr|
    ensures var c := CompareAt(arr, j);
      && c[j] <= c[j + 1] && arr[j] <= c[j + 1] && arr[j + 1] <= c[j + 1]
      && c[..j] == arr[..j] && c[j + 2..] == arr[j + 2..]
      && multiset(c[..j + 2]) == multiset(arr[..j + 2])
  {
    var c := CompareAt(arr, j);
    assert c[..j + 2] == arr[..j] + [c[j], c[j + 1]];
    assert arr[..j + 2] == arr[..j] + [arr[j], arr[j + 1]];
  }

  /** A comparison keeps the values. */
  lemma {:induction false} CompareKeepsValues(arr: seq<int>, j: nat)
    requires j + 1 < |arr|
    ensures multiset(CompareAt(arr, j)) == multiset(arr)
  {
    if arr[j] > arr[j + 1] {
      SwapShape(arr, j);
      SwapKeepsValues(arr[..j], arr[j], arr[j + 1], arr[j + 2..]);
    }
  }

  lemma {:induction false} SwapShape(arr: seq<int>, j: nat)
    requires j + 1 < |arr| && arr[j] > arr[j + 1]
    ensures arr == arr[..j] + [arr[j], arr[j + 1]] + arr[j + 2..]
    ensures CompareAt(arr, j) == arr[..j] + [arr[j + 1], arr[j]] + arr[j + 2..]
  {
  }

  lemma {:induction false} SwapKeepsValues(p: seq<int>, x: int, y: int, q: seq<int>)
    ensures multiset(p + [x, y] + q) == multiset(p + [y, x] + q)
  {
    assert p + [x, y] + q == p + ([x] + [y]) + q;
    assert p + [y, x] + q == p + ([y] + [x]) + q;
  }

  /** A pass, however far it got, keeps the values. */
  lemma {:induction false} AfterPassKeepsValues(arr: seq<int>, j: nat)
    requires j < |arr|
    ensures multiset(AfterPass(arr, j)) == multiset(arr)
  {
    var k := 0;
    while k < j
      invariant 0 <= k <= j
      invariant multiset(AfterPass(arr, k)) == multiset(arr)
    {
      CompareKeepsValues(AfterPass(arr, k), k);
      k := k + 1;
    }
  }

  /** Passes keep the values. */
  lemma {:induction false} AfterPassesKeepValues(a: seq<int>, i: nat)
    requires i == 0 || i < |a|
    ensures multiset(AfterPasses(a, i)) == multiset(a)
  {
    var k := 0;
    while k < i
      invariant 0 <= k <= i
      invariant multiset(AfterPasses(a, k)) == multiset(a)
    {
      AfterPassKeepsValues(AfterPasses(a, k), |a| - k - 1);
      k := k + 1;
    }
  }

  /**
   * One pass so far: the largest of the first j+1 values has moved to
   * position j, the first j+1 positions hold the values they held, and
   * nothing past j moved.
   */
  lemma {:induction false} AfterPassBubbles(arr: seq<int>, j: nat)
    requires j < |arr|
    ensures var c := AfterPass(arr, j);
      && c[j + 1..] == arr[j + 1..]
      && multiset(c[..j + 1]) == multiset(arr[..j + 1])
      && (forall k :: 0 <= k <= j ==> c[k] <= c[j])
  {
    var k := 0;
    while k < j
      invariant 0 <= k <= j
      invariant var c := AfterPass(arr, k);
        && c[k + 1..] == arr[k + 1..]
        && multiset(c[..k + 1]) == multiset(arr[..k + 1])
        && (forall l :: 0 <= l <= k ==> c[l] <= c[k])
    {
      BubbleStep(arr, AfterPass(arr, k), k + 1);
      k := k + 1;
    }
  }

  /** The step of the induction above: b is the array before comparison j-1. */
  lemma {:induction false} BubbleStep(arr: seq<int>, b: seq<int>, j: nat)
    requires 0 < j < |arr| == |b|
    requires b[j..] == arr[j..] && multiset(b[..j]) == multiset(arr[..j])
    requires forall k :: 0 <= k < j ==> b[k] <= b[j - 1]
    ensures var c := CompareAt(b, j - 1);
      && c[j + 1..] == arr[j + 1..] && multiset(c[..j + 1]) == multiset(arr[..j + 1])
      && (forall k :: 0 <= k <= j ==> c[k] <= c[j])
  {
    var c := CompareAt(b, j - 1);
    CompareFacts(b, j - 1);
    assert b[j + 1..] == b[j..][1..];
    assert arr[j + 1..] == arr[j..][1..];
    assert b[j] == b[j..][0];
    assert b[..j + 1] == b[..j] + [b[j]];
    assert arr[..j + 1] == arr[..j] + [arr[j]];
    forall k | 0 <= k <= j
      ensures c[k] <= c[j]
    {
      if k < j - 1 {
        assert c[k] == c[..j - 1][k] == b[..j - 1][k];
      }
    }
  }

  /** Every position from `from` on holds a value at least as large as every value before it. */
  predicate SortedFrom(b: seq<int>, from: int) {
    forall k, l :: 0 <= k < l < |b| && l >= from ==> b[k] <= b[l]
  }

  /**
   * After i passes the last i positions hold the i largest values in order:
   * every value is at most each value at a later position among them.
   */
  lemma {:induction false} AfterPassesSortSuffix(a: seq<int>, i: nat)
    requires i == 0 || i < |a|
    ensures SortedFrom(AfterPasses(a, i), |a| - i)
  {
    var k := 0;
    while k < i
      invariant 0 <= k <= i
      invariant SortedFrom(AfterPasses(a, k), |a| - k)
    {
      var b := AfterPasses(a, k);
      var m := |a| - k - 1;
      AfterPassBubbles(b, m);
      PassExtendsSortedSuffix(b, AfterPass(b, m), m);
      k := k + 1;
    }
  }

  /**
   * A pass over the first m+1 positions that moves their largest value to m
   * and leaves the rest alone extends a sorted suffix starting at m+1 by one.
   */
  lemma {:induction false} PassExtendsSortedSuffix(b: seq<int>, c: seq<int>, m: nat)
    requires |b| == |c| && m < |b|
    requires c[m + 1..] == b[m + 1..] && multiset(c[..m + 1]) == multiset(b[..m + 1])
    requires forall k :: 0 <= k <= m ==> c[k] <= c[m]
    requires SortedFrom(b, m + 1)
    ensures SortedFrom(c, m)
  {
    forall k, l | 0 <= k < l < |c| && l >= m
      ensures c[k] <= c[l]
    {
      if l > m {
        assert c[l] == c[m + 1..][l - m - 1] == b[l];
        if k <= m {
          assert c[k] == c[..m + 1][k];
          assert c[k] in multiset(b[..m + 1]);
          var k' :| 0 <= k' < m + 1 && b[..m + 1][k'] == c[k];
          assert b[k'] <= b[l];
        } else {
          assert c[k] == c[m + 1..][k - m - 1] == b[k];
        }
      }
    }
  }

  /** The sort leaves the array sorted, holding the same values. */
  lemma {:induction false} BubbleSortedSorts(a: seq<int>)
    ensures Sorted(BubbleSorted(a)) && multiset(BubbleSorted(a)) == multiset(a)
  {
    AfterPassesSortSuffix(a, PassTotal(|a|));
    AfterPassesKeepValues(a, PassTotal(|a|));
    SortedFromStart(BubbleSorted(a));
  }

  lemma {:induction false} SortedFromStart(b: seq<int>)
    requires SortedFrom(b, 1)
    ensures Sorted(b)
  {
  }

  /** Each step compares two neighbouring positions and its snapshot holds the values of `a`. */
  predicate StepsOk(r: seq<Step>, a: seq<int>) {
    forall k :: 0 <= k < |r| ==> r[k].j == r[k].i + 1 < |a| && multiset(r[k].arr) == multiset(a)
  }

  lemma {:induction false} StepsOkAppend(pre: seq<Step>, post: seq<Step>, a: seq<int>)
    requires StepsOk(pre, a) && StepsOk(post, a)
    ensures StepsOk(pre + post, a)
  {
    forall k | 0 <= k < |pre + post|
      ensures (pre + post)[k].j == (pre + post)[k].i + 1 < |a| && multiset((pre + post)[k].arr) == multiset(a)
    {
      if k >= |pre| {
        assert (pre + post)[k] == post[k - |pre|];
      }
    }
  }

  /** The steps of a pass over b, when b holds the values of `a`. */
  lemma {:induction false} PassStepsOk(a: seq<int>, b: seq<int>, m: nat)
    requires m < |b| == |a| && multiset(b) == multiset(a)
    ensures StepsOk(PassSteps(b, m), a)
  {
    var pass := PassSteps(b, m);
    forall k | 0 <= k < m
      ensures pass[k].j == pass[k].i + 1 < |a| && multiset(pass[k].arr) == multiset(a)
    {
      PassStepsCompare(b, m, k);
      AfterPassKeepsValues(b, k);
      CompareKeepsValues(AfterPass(b, k), k);
    }
  }

  lemma {:induction false} PassesSteps(a: seq<int>, i: nat)
    requires i == 0 || i < |a|
    ensures StepsOk(Passes(a, i), a)
  {
    var k := 0;
    while k < i
      invariant 0 <= k <= i
      invariant StepsOk(Passes(a, k), a)
    {
      var b := AfterPasses(a, k);
      PassesNext(a, k);
      AfterPassesKeepValues(a, k);
      PassStepsOk(a, b, |a| - k - 1);
      StepsOkAppend(Passes(a, k), PassSteps(b, |a| - k - 1), a);
      k := k + 1;
    }
  }

  /** Every recorded step compares two neighbouring positions, and every snapshot holds the values of the array. */
  lemma {:induction false} TraceSteps(a: seq<int>)
    ensures StepsOk(Trace(a), a)
  {
    PassesSteps(a, PassTotal(|a|));
  }

  /** The step mode records n(n-1)/2 comparisons for an array of n values. */
  lemma {:induction false} TraceLength(a: seq<int>)
    ensures 2 * |Trace(a)| == |a| * (|a| - 1)
  {
    if |a| > 0 {
      PassesLength(a, |a| - 1);
      PassCountAll(|Trace(a)|, |a|);
    }
  }

  /** (n-1) + (n-2) + ... + (n-i): the comparisons of the first i passes over n values. */
  function PassCount(n: int, i: nat): int
    decreases i
  {
    if i == 0 then 0 else PassCount(n, i - 1) + (n - i)
  }

  lemma {:induction false} PassesLength(a: seq<int>, i: nat)
    requires i == 0 || i < |a|
    ensures |Passes(a, i)| == PassCount(|a|, i)
  {
    var k := 0;
    while k < i
      invariant 0 <= k <= i
      invariant |Passes(a, k)| == PassCount(|a|, k)
    {
      k := k + 1;
    }
  }

  lemma {:induction false} PassCountClosed(n: int, i: nat)
    ensures 2 * PassCount(n, i) == i * (2 * n - i - 1)
    decreases i
  {
    if i > 0 {
      PassCountClosed(n, i - 1);
      var m := 2 * n - i;
      assert (i - 1) * m == i * m - m;
      assert i * (m - 1) == i * m - i;
    }
  }

  lemma {:induction false} PassCountAll(t: int, n: nat)
    requires n > 0 && t == PassCount(n, n - 1)
    ensures 2 * t == n * (n - 1)
  {
    PassCountClosed(n, n - 1);
    var i := n - 1;
    assert 2 * n - i - 1 == n;
  }
}
