/**
 * Pivot choice of the quicksort engine: the median of three samples, and
 * for long ranges (step of at least 8) the median of three recursively
 * chosen pseudo-medians, the scheme glidesort uses. The chosen element is
 * swapped to the front of the range.
 *
 * Positions are indices into the range.
 */
module Pivot {
  import opened Order
  import SortAux

  /** `v` lies between `p` and `q` in one of the two orders. */
  ghost predicate Between<T>(less: (T, T) -> bool, v: T, p: T, q: T) {
    (!less(v, p) && !less(q, v)) || (!less(v, q) && !less(p, v))
  }

  /** Position `m` is one of `a`, `b`, `c`, and its element lies between
      the elements at the other two. */
  ghost predicate MedianAt<T>(less: (T, T) -> bool, s: seq<T>, m: nat, a: nat, b: nat, c: nat)
    requires a < |s| && b < |s| && c < |s|
  {
    || (m == a && Between(less, s[a], s[b], s[c]))
    || (m == b && Between(less, s[b], s[a], s[c]))
    || (m == c && Between(less, s[c], s[a], s[b]))
  }

  /** `median_of_three`: with x = a < b and y = a < c, equal answers mean
      `a` is an extreme, and the median is the larger of b, c when both are
      at most a, the smaller when both exceed it (b < c toggled by x).
      Different answers make `a` the median. */
  function MedianOfThree<T>(less: (T, T) -> bool, s: seq<T>, a: nat, b: nat, c: nat): (m: nat)
    requires a < |s| && b < |s| && c < |s|
    ensures m == a || m == b || m == c
  {
    var x := less(s[a], s[b]);
    var y := less(s[a], s[c]);
    if x == y then
      var z := less(s[b], s[c]);
      if z != x then c else b
    else a
  }

  /** Under a strict weak order `median_of_three` returns a median. */
  lemma MedianOfThreeIsMedian<T(!new)>(less: (T, T) -> bool, s: seq<T>, a: nat, b: nat, c: nat)
    requires StrictWeakOrder(less)
    requires a < |s| && b < |s| && c < |s|
    ensures MedianAt(less, s, MedianOfThree(less, s, a, b, c), a, b, c)
  {
    LessLe(less, s[a], s[b], s[c]);
    LessLe(less, s[b], s[a], s[c]);
    LessLe(less, s[c], s[a], s[b]);
    LessLe(less, s[a], s[c], s[b]);
    LessLe(less, s[b], s[c], s[a]);
    LessLe(less, s[c], s[b], s[a]);
  }

  /** Position `m` lies in one of the windows of length `step` starting at
      `a`, `b` and `c`. */
  predicate InWindows(m: nat, a: nat, b: nat, c: nat, step: nat) {
    (a <= m < a + step) || (b <= m < b + step) || (c <= m < c + step)
  }

  /** `median_of_three_recursive`: while `8 * step` reaches the threshold,
      each of `a`, `b`, `c` is first replaced by the pseudo-median of the
      three samples at offsets 0, 4 and 7 steps of `step / 8`. Every position
      it samples, and so the result, lies within `step` of a, b or c. */
  function PseudoMedian<T>(less: (T, T) -> bool, s: seq<T>, a: nat, b: nat, c: nat, step: nat): (m: nat)
    requires step >= 1
    requires a + step <= |s| && b + step <= |s| && c + step <= |s|
    ensures InWindows(m, a, b, c, step)
    decreases step
  {
    if step * 8 >= SortAux.PSEUDO_MEDIAN_REC_THRESHOLD then
      var next := step / 8;
      var a' := PseudoMedian(less, s, a, a + 4 * next, a + 7 * next, next);
      var b' := PseudoMedian(less, s, b, b + 4 * next, b + 7 * next, next);
      var c' := PseudoMedian(less, s, c, c + 4 * next, c + 7 * next, next);
      MedianOfThree(less, s, a', b', c')
    else
      MedianOfThree(less, s, a, b, c)
  }

  /** The sample positions of `choose_pivot`: 0, 4 and 7 eighths in. */
  function Samples(len: nat): (r: (nat, nat, nat))
    ensures len > 0 ==> r.0 < len && r.1 < len && r.2 < len
  {
    var step := len / 8;
    (0, 4 * step, 7 * step)
  }

  /** `choose_pivot`: picks the position `m` of the pivot (the median of the
      three samples below 64 elements, their recursive pseudo-median from 64
      on) and swaps it to the front. */
  method ChoosePivot<T(!new)>(s: seq<T>, less: (T, T) -> bool) returns (r: seq<T>, m: nat)
    requires StrictWeakOrder(less)
    requires |s| > 0
    ensures m < |s| && r == s[0 := s[m]][m := s[0]]
    ensures multiset(r) == multiset(s)
    ensures var (a, b, c) := Samples(|s|);
      |s| < SortAux.PSEUDO_MEDIAN_REC_THRESHOLD ==> MedianAt(less, s, m, a, b, c)
    ensures var step := |s| / 8;
      |s| >= SortAux.PSEUDO_MEDIAN_REC_THRESHOLD ==> InWindows(m, 0, 4 * step, 7 * step, step)
  {
    var (a, b, c) := Samples(|s|);
    var step := |s| / 8;
    if |s| < SortAux.PSEUDO_MEDIAN_REC_THRESHOLD {
      m := MedianOfThree(less, s, a, b, c);
      MedianOfThreeIsMedian(less, s, a, b, c);
    } else {
      m := PseudoMedian(less, s, a, b, c, step);
    }
    r := s[0 := s[m]][m := s[0]];
  }
}
