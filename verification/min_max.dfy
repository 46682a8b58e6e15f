/**
  Divide-and-conquer search for the minimum and the maximum of a range
  `elements[start..end]` (both ends inclusive), as in `min_max_eval`.
 */
module MinMax {

  datatype Extremes = Extremes(min: int, max: int)

  /** `e.min` and `e.max` bound every element of `a[start..end]` and both occur in it. */
  ghost predicate IsExtremesOf(e: Extremes, a: seq<int>, start: nat, end: nat)
    requires start <= end < |a|
  {
    && (forall k :: start <= k <= end ==> e.min <= a[k] <= e.max)
    && (exists k :: start <= k <= end && a[k] == e.min)
    && (exists k :: start <= k <= end && a[k] == e.max)
  }

  /**
    One element gives it as both extremes; two elements are ordered by one
    comparison; longer ranges are split at `(start + end) / 2`, and the
    combine step keeps the smaller minimum and the larger maximum.
    The elements are a value, so the search never writes them.
   */
  function MinMaxEval(a: seq<int>, start: nat, end: nat): (e: Extremes)
    requires start <= end < |a|
    ensures forall k :: start <= k <= end ==> e.min <= a[k] <= e.max
    ensures exists k :: start <= k <= end && a[k] == e.min
    ensures exists k :: start <= k <= end && a[k] == e.max
    decreases end - start
  {
    if start == end then
      Extremes(a[start], a[start])
    else if start == end - 1 then
      if a[start] > a[end] then Extremes(a[end], a[start])
      else Extremes(a[start], a[end])
    else
      var mid := (start + end) / 2;
      var left := MinMaxEval(a, start, mid);
      var right := MinMaxEval(a, mid + 1, end);
      Extremes(if left.min < right.min then left.min else right.min,
               if left.max > right.max then left.max else right.max)
  }

  /** The extremes are unique: any pair that bounds the range and occurs in it is the result. */
  lemma {:induction false} MinMaxEvalUnique(a: seq<int>, start: nat, end: nat, e: Extremes)
    requires start <= end < |a|
    requires IsExtremesOf(e, a, start, end)
    ensures MinMaxEval(a, start, end) == e
  {
    var r := MinMaxEval(a, start, end);
    var i :| start <= i <= end && a[i] == e.min;
    var j :| start <= j <= end && a[j] == r.min;
    assert r.min <= a[i] && e.min <= a[j];
    var p :| start <= p <= end && a[p] == e.max;
    var q :| start <= q <= end && a[q] == r.max;
    assert a[p] <= r.max && a[q] <= e.max;
  }

  /** A range of one element: that element is both the minimum and the maximum. */
  lemma SingleElement(a: seq<int>, start: nat)
    requires start < |a|
    ensures MinMaxEval(a, start, start) == Extremes(a[start], a[start])
  {
  }

  /** A range of two elements: the extremes are the ordered pair. */
  lemma TwoElements(a: seq<int>, start: nat)
    requires start + 1 < |a|
    ensures var e := MinMaxEval(a, start, start + 1);
            e.min <= e.max
            && {e.min, e.max} == {a[start], a[start + 1]}
  {
  }

  /** The combine step: the extremes of a range come from the extremes of its two halves. */
  lemma {:induction false} SplitCombine(a: seq<int>, start: nat, mid: nat, end: nat)
    requires start <= mid < end < |a|
    ensures var l := MinMaxEval(a, start, mid);
            var r := MinMaxEval(a, mid + 1, end);
            var e := MinMaxEval(a, start, end);
            e.min == (if l.min < r.min then l.min else r.min)
            && e.max == (if l.max > r.max then l.max else r.max)
  {
    var l := MinMaxEval(a, start, mid);
    var r := MinMaxEval(a, mid + 1, end);
    var c := Extremes(if l.min < r.min then l.min else r.min,
                      if l.max > r.max then l.max else r.max);
    assert IsExtremesOf(c, a, start, end) by {
      forall k | start <= k <= end
        ensures c.min <= a[k] <= c.max
      {
        if k <= mid {
          assert l.min <= a[k] <= l.max;
        } else {
          assert r.min <= a[k] <= r.max;
        }
      }
      if l.min < r.min {
        var i :| start <= i <= mid && a[i] == l.min;
      } else {
        var i :| mid + 1 <= i <= end && a[i] == r.min;
      }
      if l.max > r.max {
        var i :| start <= i <= mid && a[i] == l.max;
      } else {
        var i :| mid + 1 <= i <= end && a[i] == r.max;
      }
    }
    MinMaxEvalUnique(a, start, end, c);
  }

  /** The documented run: 2 6 4 7 8 gives minimum 2 and maximum 8. */
  lemma Sample()
    ensures MinMaxEval([2, 6, 4, 7, 8], 0, 4) == Extremes(2, 8)
  {
    var a := [2, 6, 4, 7, 8];
    assert a[0] == 2 && a[4] == 8;
    MinMaxEvalUnique(a, 0, 4, Extremes(2, 8));
  }
}
