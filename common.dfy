/**
 * Shared vocabulary of the visualizer components: optional values, the
 * classification of the text typed into a component's input box, and the
 * front-to-back scan that the list, queue, heap and array-tree searches animate.
 */
module Common {

  datatype Option<T> = None | Some(value: T)

  /** The result of a handler that either completes or stops on a JavaScript `TypeError`. */
  datatype Outcome<T> = Ok(value: T) | TypeError

  /**
   * What `Number(text.trim())` makes of an input box in the numeric components:
   * nothing but whitespace, text that is not a number, or an integer.
   */
  datatype NumericInput = Blank | NotANumber | Number(value: int)

  /** The characters that JavaScript's `String.prototype.trim` strips. */
  predicate IsWhitespace(c: char) {
    || c == '\t' || c == '\n' || c == '\U{000B}' || c == '\U{000C}' || c == '\r' || c == ' '
    || c == '\U{00A0}' || c == '\U{1680}' || ('\U{2000}' <= c <= '\U{200A}')
    || c == '\U{2028}' || c == '\U{2029}' || c == '\U{202F}' || c == '\U{205F}'
    || c == '\U{3000}' || c == '\U{FEFF}'
  }

  /** `!s.trim()`: the text is empty once surrounding whitespace is removed. */
  predicate IsBlank(s: string) {
    forall i :: 0 <= i < |s| ==> IsWhitespace(s[i])
  }

  /** No element occurs twice. */
  predicate NoDuplicates<T(==)>(s: seq<T>) {
    forall p, q :: 0 <= p < q < |s| ==> s[p] != s[q]
  }

  lemma NoDuplicatesAppend<T>(a: seq<T>, b: seq<T>)
    requires NoDuplicates(a) && NoDuplicates(b)
    requires forall x :: x in a ==> x !in b
    ensures NoDuplicates(a + b)
  {
    forall p, q | 0 <= p < q < |a + b|
      ensures (a + b)[p] != (a + b)[q]
    {
      if q >= |a| && p < |a| {
        assert (a + b)[p] in a;
        assert (a + b)[q] == b[q - |a|];
      }
    }
  }

  /** The indices lo, lo+1, ..., hi-1 in increasing order. */
  function Range(lo: nat, hi: nat): (r: seq<nat>)
    ensures |r| == if lo <= hi then hi - lo else 0
    ensures forall k :: 0 <= k < |r| ==> r[k] == lo + k
    decreases hi - lo
  {
    if lo < hi then [lo] + Range(lo + 1, hi) else []
  }

  /** The index of the first element equal to `x`, as `Array.prototype.findIndex` finds it. */
  function FirstIndex<T(==)>(s: seq<T>, x: T): (r: Option<nat>)
    ensures r.None? <==> x !in s
    ensures r.Some? ==> r.value < |s| && s[r.value] == x && x !in s[..r.value]
  {
    if |s| == 0 then None
    else if s[0] == x then Some(0)
    else
      match FirstIndex(s[1..], x)
      case None => None
      case Some(i) =>
        assert s[..i + 1] == [s[0]] + s[1..][..i];
        Some(i + 1)
  }

  /** An element met at i and nowhere before is what the first-match search returns. */
  lemma FirstIndexAt<T>(s: seq<T>, x: T, i: nat)
    requires i < |s| && s[i] == x && x !in s[..i]
    ensures FirstIndex(s, x) == Some(i)
  {
  }

  /** A drawn box: the label written on it and its fill, from a palette of the component's own. */
  datatype Box<F> = Box(text: string, fill: F)

  /** The labels written on the boxes, in the order of the component's list. */
  function Labels<F>(boxes: seq<Box<F>>): (r: seq<string>)
    ensures |r| == |boxes|
    ensures forall k :: 0 <= k < |boxes| ==> r[k] == boxes[k].text
  {
    if boxes == [] then [] else Labels(boxes[..|boxes| - 1]) + [boxes[|boxes| - 1].text]
  }

  /** The indices a search highlights, in order, and the index where it stopped on a match. */
  datatype Scan = Scan(visited: seq<nat>, found: Option<nat>)

  /**
   * A front-to-back search: it highlights index 0, 1, ... and stops at the
   * first element equal to `x`; if it runs off the end, nothing is found.
   */
  function LinearSearch<T(==)>(s: seq<T>, x: T): (r: Scan)
    ensures r.found.None? <==> x !in s
    ensures r.found.Some? ==> r.found.value < |s| && s[r.found.value] == x && x !in s[..r.found.value]
    ensures |r.visited| == if r.found.Some? then r.found.value + 1 else |s|
    ensures forall k :: 0 <= k < |r.visited| ==> r.visited[k] == k
  {
    var f := FirstIndex(s, x);
    Scan(Range(0, if f.Some? then f.value + 1 else |s|), f)
  }

  /** A scan that meets `x` first at index i highlights 0..i and reports i. */
  lemma LinearSearchFinds<T>(s: seq<T>, x: T, i: nat)
    requires i < |s| && s[i] == x && x !in s[..i]
    ensures LinearSearch(s, x) == Scan(Range(0, i + 1), Some(i))
  {
    FirstIndexAt(s, x, i);
  }

  /** A scan for an absent element highlights every index and reports nothing. */
  lemma LinearSearchMisses<T>(s: seq<T>, x: T)
    requires x !in s
    ensures LinearSearch(s, x) == Scan(Range(0, |s|), None)
  {
  }
}
