/**
 * The two insertion routines of the small-sequence sorter: `insertion_sort`,
 * the last fallback for element types too large for the scratch budget, and
 * `insert_tail`, which grows a sorted run by one element.
 *
 * A range is a sequence value; a "move" copies a value, and the slot a value
 * was moved out of (the hole) keeps its stale value until it is overwritten.
 */
module Insertion {
  import opened Order

  /** `p` with `e` placed before index `h`. */
  function InsertAt<T>(p: seq<T>, h: nat, e: T): (r: seq<T>)
    requires h <= |p|
    ensures |r| == |p| + 1 && r[h] == e
    ensures r[..h] == p[..h] && r[h + 1..] == p[h..]
  {
    p[..h] + [e] + p[h..]
  }

  /** `e` belongs before index `h` of `p`: nothing before it is greater and
      everything from `h` on is strictly greater. */
  ghost predicate Fits<T>(less: (T, T) -> bool, p: seq<T>, h: nat, e: T)
    requires h <= |p|
  {
    && (h > 0 ==> !less(e, p[h - 1]))
    && (forall k :: h <= k < |p| ==> less(e, p[k]))
  }

  /** Inserting `e` where it fits keeps a sorted block sorted and every
      equivalence class in order: `e` passes only strictly greater elements. */
  lemma InsertionStep<T(!new)>(less: (T, T) -> bool, p: seq<T>, h: nat, e: T)
    requires StrictWeakOrder(less)
    requires h <= |p| && Sorted(less, p) && Fits(less, p, h, e)
    ensures Sorted(less, InsertAt(p, h, e))
    ensures Stable(less, p + [e], InsertAt(p, h, e))
    ensures multiset(InsertAt(p, h, e)) == multiset(p + [e])
  {
    var u, w := p[..h], p[h..];
    assert p == u + w;
    forall k | 0 <= k < |w| ensures less(e, w[k]) {
      assert w[k] == p[h + k];
    }
    InsertBetween(less, u, e, w);
  }

  /** `InsertionStep` on the two blocks around the insertion point. */
  lemma InsertBetween<T(!new)>(less: (T, T) -> bool, u: seq<T>, e: T, w: seq<T>)
    requires StrictWeakOrder(less)
    requires Sorted(less, u + w)
    requires |u| > 0 ==> !less(e, u[|u| - 1])
    requires forall k :: 0 <= k < |w| ==> less(e, w[k])
    ensures Sorted(less, u + [e] + w)
    ensures Stable(less, u + w + [e], u + [e] + w)
    ensures multiset(u + [e] + w) == multiset(u + w + [e])
  {
    InsertBeforeGreater(less, u, e, w);
    SortedParts(less, u, w);
    forall k | 0 <= k < |u| ensures !less(e, u[k]) {
      LessLe(less, u[k], u[|u| - 1], e);
    }
    SortedConcat(less, u, [e]);
    forall k | 0 <= k < |w| ensures !less(w[k], e) {
      LessLe(less, e, w[k], w[k]);
    }
    AllBelowAppend(less, u, e, w);
    SortedConcat(less, u + [e], w);
  }

  /** The two halves of a sorted concatenation are sorted and in order. */
  lemma SortedParts<T>(less: (T, T) -> bool, u: seq<T>, w: seq<T>)
    requires Sorted(less, u + w)
    ensures Sorted(less, u) && Sorted(less, w) && AllBelow(less, u, w)
  {
    var s := u + w;
    assert forall i :: 0 <= i < |u| ==> s[i] == u[i];
    assert forall i :: 0 <= i < |w| ==> s[|u| + i] == w[i];
  }

  /** A block below `w` stays below it when an element below `w` joins. */
  lemma AllBelowAppend<T>(less: (T, T) -> bool, u: seq<T>, e: T, w: seq<T>)
    requires AllBelow(less, u, w)
    requires forall k :: 0 <= k < |w| ==> !less(w[k], e)
    ensures AllBelow(less, u + [e], w)
  {
  }

  /** `std::move_backward(first, last, dLast)`: the block [first, last) lands
      in the block ending at dLast, and everything else is kept. The target
      lies at or to the right of the source, the only way it is used here. */
  function MoveBackward<T>(s: seq<T>, first: nat, last: nat, dLast: nat): (r: seq<T>)
    requires first <= last <= dLast <= |s|
    ensures |r| == |s|
    ensures r[dLast - (last - first)..dLast] == s[first..last]
    ensures r[..dLast - (last - first)] == s[..dLast - (last - first)] && r[dLast..] == s[dLast..]
  {
    s[..dLast - (last - first)] + s[first..last] + s[dLast..]
  }

  /** The first branch of the `insertion_sort` step: an element less than
      the first one shifts the whole sorted prefix [0, mid) up by one and
      goes to the front. */
  method InsertFront<T(!new)>(s: seq<T>, mid: nat, less: (T, T) -> bool) returns (r: seq<T>)
    requires StrictWeakOrder(less)
    requires 0 < mid < |s| && Sorted(less, s[..mid]) && less(s[mid], s[0])
    ensures |r| == |s| && r[mid + 1..] == s[mid + 1..]
    ensures Fits(less, s[..mid], 0, s[mid])
    ensures r[..mid + 1] == InsertAt(s[..mid], 0, s[mid])
  {
    var val := s[mid];
    r := MoveBackward(s, 0, mid, mid + 1);
    r := r[0 := val];
    ghost var p := s[..mid];
    forall k | 0 <= k < mid ensures less(val, p[k]) {
      LessLe(less, val, p[0], p[k]);
    }
    assert r[1..mid + 1] == p;
    assert r[..mid + 1] == [val] + r[1..mid + 1];
  }

  /** The unguarded inner loop of the `insertion_sort` step: moves every
      element of the sorted prefix [0, mid) that is strictly greater than
      s[mid] one slot up, stopping at index 0 at the latest (it is not
      greater), and writes s[mid] into the hole. */
  method UnguardedInsert<T>(s: seq<T>, mid: nat, less: (T, T) -> bool) returns (r: seq<T>, hole: nat)
    requires 0 < mid < |s|
    requires !less(s[mid], s[0])
    ensures hole <= mid && |r| == |s| && r[mid + 1..] == s[mid + 1..]
    ensures Fits(less, s[..mid], hole, s[mid])
    ensures r[..mid + 1] == InsertAt(s[..mid], hole, s[mid])
  {
    var val := s[mid];
    r := s;
    hole := mid;
    var sift := hole - 1;
    while less(val, r[sift])
      invariant 0 <= sift < hole <= mid && sift == hole - 1 && |r| == |s|
      invariant r[..hole] == s[..hole] && r[mid + 1..] == s[mid + 1..]
      invariant r[hole + 1..mid + 1] == s[hole..mid]
      invariant forall k :: hole <= k < mid ==> less(val, s[k])
      decreases hole
    {
      r := r[hole := r[sift]];
      hole := sift;
      sift := hole - 1;
    }
    r := r[hole := val];
    ghost var p := s[..mid];
    assert r[..hole] == p[..hole] && r[hole + 1..mid + 1] == p[hole..];
    assert r[..mid + 1] == r[..hole] + [val] + r[hole + 1..mid + 1];
  }

  /** Invariant step of the outer loop of `insertion_sort`: inserting a[mid]
      into a sorted, stable permutation `p` of a[..mid] where it fits gives
      a sorted, stable permutation of a[..mid + 1]. */
  lemma PrefixInsertion<T(!new)>(less: (T, T) -> bool, a: seq<T>, mid: nat, p: seq<T>, h: nat)
    requires StrictWeakOrder(less)
    requires mid < |a| && h <= |p|
    requires Sorted(less, p) && Fits(less, p, h, a[mid])
    requires multiset(p) == multiset(a[..mid])
    requires Stable(less, a[..mid], p)
    ensures Sorted(less, InsertAt(p, h, a[mid]))
    ensures multiset(InsertAt(p, h, a[mid])) == multiset(a[..mid + 1])
    ensures Stable(less, a[..mid + 1], InsertAt(p, h, a[mid]))
  {
    assert a[..mid + 1] == a[..mid] + [a[mid]];
    InsertionStep(less, p, h, a[mid]);
    StableExtend(less, a[..mid], p, a[mid]);
    StableTrans(less, a[..mid + 1], p + [a[mid]], InsertAt(p, h, a[mid]));
  }

  /** `insertion_sort`: a sorted, stable permutation. Each element is moved
      down past strictly greater elements only, so equivalent elements keep
      their order. */
  method InsertionSort<T(!new)>(a: seq<T>, less: (T, T) -> bool) returns (r: seq<T>)
    requires StrictWeakOrder(less)
    ensures |r| == |a|
    ensures Sorted(less, r)
    ensures multiset(r) == multiset(a)
    ensures Stable(less, a, r)
  {
    r := a;
    if |a| == 0 {
      return;
    }
    var mid := 1;
    while mid < |a|
      invariant 1 <= mid <= |a| && |r| == |a|
      invariant Sorted(less, r[..mid])
      invariant multiset(r[..mid]) == multiset(a[..mid])
      invariant Stable(less, a[..mid], r[..mid])
      invariant r[mid..] == a[mid..]
    {
      ghost var p := r[..mid];
      assert r[mid] == a[mid];
      var hole := 0;
      if less(r[mid], r[0]) {
        r := InsertFront(r, mid, less);
      } else {
        r, hole := UnguardedInsert(r, mid, less);
      }
      PrefixInsertion(less, a, mid, p, hole);
      assert r[mid + 1..] == a[mid + 1..];
      mid := mid + 1;
    }
    assert r[..mid] == r && a[..mid] == a;
  }

  /** The guarded inner loop of `insert_tail`: moves the elements of
      [first, tail) strictly greater than s[tail] one slot up, stopping at
      `first`, and writes s[tail] into the hole. The hole is returned
      relative to `first`. */
  method GuardedInsert<T>(s: seq<T>, first: nat, tail: nat, less: (T, T) -> bool) returns (r: seq<T>, h: nat)
    requires first < tail < |s|
    requires less(s[tail], s[tail - 1])
    ensures |r| == |s| && r[..first] == s[..first] && r[tail + 1..] == s[tail + 1..]
    ensures h <= tail - first && Fits(less, s[first..tail], h, s[tail])
    ensures r[first..tail + 1] == InsertAt(s[first..tail], h, s[tail])
  {
    var tmp := s[tail];
    var sift := tail - 1;
    r := s[tail := s[sift]];
    var hole := sift;
    while sift != first && less(tmp, r[sift - 1])
      invariant first <= sift == hole < tail && |r| == |s|
      invariant r[..hole] == s[..hole] && r[tail + 1..] == s[tail + 1..]
      invariant r[hole + 1..tail + 1] == s[hole..tail]
      invariant forall k :: hole <= k < tail ==> less(tmp, s[k])
      decreases hole
    {
      sift := sift - 1;
      r := r[hole := r[sift]];
      hole := sift;
    }
    r := r[hole := tmp];
    h := hole - first;
    ghost var p := s[first..tail];
    assert r[first..hole] == p[..h] && r[hole + 1..tail + 1] == p[h..];
    assert r[first..tail + 1] == r[first..hole] + [tmp] + r[hole + 1..tail + 1];
    assert forall k :: h <= k < |p| ==> p[k] == s[first + k];
  }

  /** `insert_tail`: with [first, tail) sorted, inserts the element at `tail`
      into it. The result on [first, tail] is a sorted, stable permutation,
      nothing outside moves, and when the tail is not less than its
      predecessor nothing is written at all. */
  method InsertTail<T(!new)>(a: seq<T>, first: nat, tail: nat, less: (T, T) -> bool) returns (r: seq<T>)
    requires StrictWeakOrder(less)
    requires first < tail < |a|
    requires Sorted(less, a[first..tail])
    ensures |r| == |a|
    ensures r[..first] == a[..first] && r[tail + 1..] == a[tail + 1..]
    ensures Sorted(less, r[first..tail + 1])
    ensures multiset(r[first..tail + 1]) == multiset(a[first..tail + 1])
    ensures Stable(less, a[first..tail + 1], r[first..tail + 1])
    ensures !less(a[tail], a[tail - 1]) ==> r == a
  {
    ghost var p := a[first..tail];
    assert a[first..tail + 1] == p + [a[tail]];
    if !less(a[tail], a[tail - 1]) {
      assert p[tail - 1 - first] == a[tail - 1];
      InsertionStep(less, p, tail - first, a[tail]);
      assert InsertAt(p, tail - first, a[tail]) == a[first..tail + 1];
      return a;
    }
    var h;
    r, h := GuardedInsert(a, first, tail, less);
    InsertionStep(less, p, h, a[tail]);
  }
}
