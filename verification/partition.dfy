/**
 * The Hoare-style cyclic partition `hoare_branchy_cyclic`. The pivot is the
 * first element of the range. Elements strictly less than it end up before
 * it and all others after it. Instead of swapping pairs, misplaced elements
 * are moved around one hole, the slot whose value is held in `tmp`.
 */
module Partition {
  import opened Order

  /** Every element of r[lo..hi] is strictly less than the pivot. */
  ghost predicate AllLess<T>(less: (T, T) -> bool, r: seq<T>, lo: int, hi: int, pivot: T)
    requires 0 <= lo && hi <= |r|
  {
    forall i :: lo <= i < hi ==> less(r[i], pivot)
  }

  /** No element of r[lo..hi] is less than the pivot. */
  ghost predicate NoneLess<T>(less: (T, T) -> bool, r: seq<T>, lo: int, hi: int, pivot: T)
    requires 0 <= lo && hi <= |r|
  {
    forall i :: lo <= i < hi ==> !less(r[i], pivot)
  }

  /** The contract both partition schemes meet: `r` is a permutation of
      `s` with the pivot s[0] at `p`, everything before it strictly less
      and nothing after it less. */
  ghost predicate PartitionedAt<T>(less: (T, T) -> bool, s: seq<T>, r: seq<T>, p: nat)
    requires |s| > 0
  {
    && |r| == |s| && p < |r|
    && r[p] == s[0]
    && multiset(r) == multiset(s)
    && AllLess(less, r, 0, p, s[0])
    && NoneLess(less, r, p + 1, |r|, s[0])
  }

  /** The first scan: `first` stops at the first element from 1 on that is
      not less than the pivot, or at the end. */
  method ScanFirst<T>(r: seq<T>, pivot: T, less: (T, T) -> bool) returns (first: nat)
    requires |r| > 0
    ensures 1 <= first <= |r|
    ensures AllLess(less, r, 1, first, pivot)
    ensures first < |r| ==> !less(r[first], pivot)
  {
    first := 1;
    while first != |r| && less(r[first], pivot)
      invariant 1 <= first <= |r|
      invariant AllLess(less, r, 1, first, pivot)
    {
      first := first + 1;
    }
  }

  /** The second scan: `last` moves down from the end, never below
      `first`, and stops on an element less than the pivot. It cannot stop
      at `first` itself, whose element is not less than the pivot. */
  method ScanLast<T>(r: seq<T>, first: nat, pivot: T, less: (T, T) -> bool) returns (last: nat)
    requires first <= |r|
    requires first < |r| ==> !less(r[first], pivot)
    ensures first <= last <= |r|
    ensures last == first ==> NoneLess(less, r, last, |r|, pivot)
    ensures last > first ==> last < |r| && less(r[last], pivot) && NoneLess(less, r, last + 1, |r|, pivot)
  {
    last := |r|;
    while first != last
      invariant first <= last <= |r|
      invariant NoneLess(less, r, last, |r|, pivot)
    {
      last := last - 1;
      if less(r[last], pivot) {
        return;
      }
    }
  }

  /** The state at the top of the cyclic loop: the hole is at `first`,
      r[last] is less than the pivot and waits to fill it, [1, first) is
      less than the pivot, (last, n) is not, and the held-aside `tmp` is
      not. The pivot stays at 0 throughout. */
  ghost predicate CycleState<T>(less: (T, T) -> bool, s: seq<T>, r: seq<T>, first: nat, last: nat, tmp: T) {
    && |s| > 0 && |r| == |s|
    && r[0] == s[0]
    && 1 <= first < last < |r|
    && less(r[last], s[0])
    && AllLess(less, r, 1, first, s[0])
    && NoneLess(less, r, last + 1, |r|, s[0])
    && !less(tmp, s[0])
    && multiset(r[first := tmp]) == multiset(s)
  }

  /** The state when the loop ends: the hole at `first` is to get `tmp`,
      [1, first) is less than the pivot and [first + 1, n) is not. */
  ghost predicate CycleDone<T>(less: (T, T) -> bool, s: seq<T>, r: seq<T>, first: nat, tmp: T) {
    && |s| > 0 && |r| == |s|
    && r[0] == s[0]
    && 1 <= first < |r|
    && AllLess(less, r, 1, first, s[0])
    && NoneLess(less, r, first + 1, |r|, s[0])
    && !less(tmp, s[0])
    && multiset(r[first := tmp]) == multiset(s)
  }

  /** The bounded upward scan: `first` moves past elements less than the
      pivot but not beyond `last`, whose element is less than the pivot. */
  method ScanUp<T>(r: seq<T>, first: nat, last: nat, pivot: T, less: (T, T) -> bool) returns (f: nat)
    requires first < last < |r| && less(r[last], pivot)
    ensures first < f <= last
    ensures AllLess(less, r, first + 1, f, pivot)
    ensures f < last ==> !less(r[f], pivot)
  {
    f := first + 1;
    while less(r[f], pivot) && f < last
      invariant first < f <= last
      invariant AllLess(less, r, first + 1, f, pivot)
    {
      f := f + 1;
    }
  }

  /** The unguarded downward scan: `last` moves down past elements not less
      than the pivot. It needs no bound: r[first - 1] is less than the
      pivot and stops it at the latest. */
  method ScanDown<T>(r: seq<T>, first: nat, last: nat, pivot: T, less: (T, T) -> bool) returns (l: nat)
    requires 1 <= first <= last < |r| && less(r[first - 1], pivot)
    ensures first - 1 <= l < last
    ensures less(r[l], pivot)
    ensures NoneLess(less, r, l + 1, last, pivot)
  {
    l := last - 1;
    while !less(r[l], pivot)
      invariant first - 1 <= l < last
      invariant NoneLess(less, r, l + 1, last, pivot)
      decreases l
    {
      l := l - 1;
    }
  }

  /** One round of the cyclic loop: r[last] fills the hole, `first` scans up,
      the element it stops at fills the new hole at `last`, and `last` scans
      down. The round either leaves the loop state for the next round or
      ends the loop. */
  method CycleRound<T>(s: seq<T>, r: seq<T>, first: nat, last: nat, tmp: T, less: (T, T) -> bool)
    returns (r': seq<T>, first': nat, last': nat, done: bool)
    requires CycleState(less, s, r, first, last, tmp)
    ensures done ==> CycleDone(less, s, r', first', tmp)
    ensures !done ==> CycleState(less, s, r', first', last', tmp) && last' - first' < last - first
  {
    var pivot := s[0];
    MoveHole(r, first, last, tmp);
    r' := r[first := r[last]];
    first' := ScanUp(r', first, last, pivot, less);
    if !(first' < last) {
      done := true;
      last' := last;
      return;
    }
    MoveHole(r', last, first', tmp);
    r' := r'[last := r'[first']];
    last' := ScanDown(r', first', last, pivot, less);
    done := !(first' < last');
  }

  /** The cyclic loop, run while `first < last`. */
  method Cycle<T>(s: seq<T>, r: seq<T>, first: nat, last: nat, tmp: T, less: (T, T) -> bool)
    returns (r': seq<T>, first': nat)
    requires CycleState(less, s, r, first, last, tmp)
    ensures CycleDone(less, s, r', first', tmp)
  {
    r', first' := r, first;
    var l: nat := last;
    var done := false;
    while !done
      invariant !done ==> CycleState(less, s, r', first', l, tmp)
      invariant done ==> CycleDone(less, s, r', first', tmp)
      decreases if done then 0 else l - first' + 1
    {
      r', first', l, done := CycleRound(s, r', first', l, tmp, less);
    }
  }

  /** The final moves: the last element less than the pivot goes to the
      front, and the pivot into its place. */
  lemma PlacePivot<T>(less: (T, T) -> bool, s: seq<T>, r: seq<T>, p: nat)
    requires |s| > 0 && |r| == |s| && p < |r| && r[0] == s[0]
    requires multiset(r) == multiset(s)
    requires AllLess(less, r, 1, p + 1, s[0])
    requires NoneLess(less, r, p + 1, |r|, s[0])
    ensures PartitionedAt(less, s, r[0 := r[p]][p := s[0]], p)
  {
    var r' := r[0 := r[p]][p := s[0]];
    if p > 0 {
      assert r' == r[0 := r[p]][p := r[0]];
      assert multiset(r') == multiset(r);
    } else {
      assert r' == r;
    }
  }

  /** `hoare_branchy_cyclic` on a non-empty range. */
  method HoarePartition<T>(s: seq<T>, less: (T, T) -> bool) returns (r: seq<T>, p: nat)
    requires |s| > 0
    ensures PartitionedAt(less, s, r, p)
  {
    var pivot := s[0];
    r := s;
    var first := ScanFirst(r, pivot, less);
    var last := ScanLast(r, first, pivot, less);
    if first < last {
      var tmp := r[first];
      assert r[first := tmp] == r;
      r, first := Cycle(s, r, first, last, tmp, less);
      r := r[first := tmp];
    }
    p := first - 1;
    PlacePivot(less, s, r, p);
    r := r[0 := r[p]][p := pivot];
  }
}
