/**
 * The sorting engine: the `small_sort` dispatch, the partition dispatch,
 * the `quick_sort` loop with its depth budget and its handling of runs of
 * elements equal to an ancestor pivot, and the `qsort` driver, which first
 * looks for an existing sorted or strictly descending run at the front.
 *
 * Ranges are values: every routine takes the range and returns what it
 * leaves there.
 */
module QuickSort {
  import opened Order
  import opened SortAux
  import Heap
  import Pivot
  import Partition
  import BitsetPartition
  import Bitonic
  import StableSmall
  import Insertion

  datatype Option<T> = None | Some(value: T)

  // ---------------------------------------------------------------------
  // Dispatch
  // ---------------------------------------------------------------------

  /** `small_sort`: ranges of at most 32 elements go to the sorting
      networks, the stable merging sorter or insertion sort, as the element
      type allows. The two non-network paths are stable. */
  method SmallSort<T(!new)>(s: seq<T>, less: (T, T) -> bool, caps: Capabilities) returns (r: seq<T>)
    requires StrictWeakOrder(less)
    requires |s| <= SSORT_MAX
    ensures |r| == |s| && Sorted(less, r) && multiset(r) == multiset(s)
    ensures ChooseSmallSort(caps) != SortingNetwork ==> Stable(less, s, r)
  {
    match ChooseSmallSort(caps)
    case SortingNetwork =>
      r := Bitonic.SmallSortNetwork(s, less);
    case StableMerge =>
      ScratchConstantsCoverBuffers();
      r := StableSmall.SmallSortGeneral(s, less, caps.elementSize);
    case InsertionFallback =>
      r := Insertion.InsertionSort(s, less);
  }

  /** `partition_by_choosed_pivot`: the bitmask scheme for branchless
      types, the Hoare scheme otherwise. Either way the first element ends
      up at `p` with the smaller elements before it and the rest after. */
  method PartitionByChosenPivot<T>(s: seq<T>, less: (T, T) -> bool, caps: Capabilities) returns (r: seq<T>, p: nat)
    requires |s| > 0
    ensures Partition.PartitionedAt(less, s, r, p)
  {
    if ChoosePartition(caps) == BlockBitmask {
      r, p := BitsetPartition.BlockPartition(s, less);
    } else {
      r, p := Partition.HoarePartition(s, less);
    }
  }

  /** `reverse_predicate`: x comes before y when y is not less than x. */
  function ReversePredicate<T>(less: (T, T) -> bool): (T, T) -> bool {
    (x, y) => !less(y, x)
  }

  /** Partitioning by the reversed predicate puts the elements not greater
      than the pivot before it and the greater ones after it. */
  lemma ReversedPartition<T>(less: (T, T) -> bool, s: seq<T>, r: seq<T>, p: nat)
    requires |s| > 0
    requires Partition.PartitionedAt(ReversePredicate(less), s, r, p)
    ensures |r| == |s| && p < |r| && r[p] == s[0] && multiset(r) == multiset(s)
    ensures forall i :: 0 <= i < p ==> !less(s[0], r[i])
    ensures forall i :: p < i < |r| ==> less(s[0], r[i])
  {
  }

  // ---------------------------------------------------------------------
  // quick_sort
  // ---------------------------------------------------------------------

  /** The state of the `quick_sort` loop: `done` is the sorted part already
      in its final place, `rest` is the range still to sort, no element of
      `done` is greater than one of `rest`, and an ancestor pivot, if any,
      is not greater than any element of `rest`. */
  ghost predicate QuickState<T>(less: (T, T) -> bool, s: seq<T>, done: seq<T>, rest: seq<T>, ancestor: Option<T>) {
    && |done| + |rest| == |s|
    && multiset(done + rest) == multiset(s)
    && Sorted(less, done)
    && AllBelow(less, done, rest)
    && (ancestor.Some? ==> AllAtLeast(less, rest, ancestor.value))
  }

  /** The sorted tail closes the loop. */
  lemma Finish<T>(less: (T, T) -> bool, s: seq<T>, done: seq<T>, rest: seq<T>, anc: Option<T>, t: seq<T>)
    requires QuickState(less, s, done, rest, anc)
    requires Sorted(less, t) && multiset(t) == multiset(rest) && |t| == |rest|
    ensures |done + t| == |s| && Sorted(less, done + t) && multiset(done + t) == multiset(s)
  {
    PermutationKeepsBelow(less, done, rest, done, t);
    SortedConcat(less, done, t);
  }

  /** When the pivot is not greater than the ancestor pivot, which is not
      greater than anything in the range, every element the reversed
      partition puts at or before the pivot is equivalent to it. */
  lemma AncestorLeftEquivalent<T(!new)>(less: (T, T) -> bool, rest: seq<T>, a: T, q: seq<T>, p: nat)
    requires StrictWeakOrder(less)
    requires |rest| > 0 && AllAtLeast(less, rest, a) && !less(a, rest[0])
    requires Partition.PartitionedAt(ReversePredicate(less), rest, q, p)
    ensures forall i :: 0 <= i <= p ==> Equiv(less, q[i], rest[0])
  {
    ReversedPartition(less, rest, q, p);
    PermutationKeepsAll(rest, q, x => !less(x, a));
    forall i | 0 <= i <= p ensures Equiv(less, q[i], rest[0]) {
      LessLe(less, rest[0], a, q[i]);
    }
  }

  /** The ancestor branch: the block of elements equivalent to the pivot
      is final, and the loop goes on with the greater ones and no
      ancestor. */
  lemma AncestorStep<T(!new)>(less: (T, T) -> bool, s: seq<T>, done: seq<T>, rest: seq<T>, a: T, q: seq<T>, p: nat)
    requires StrictWeakOrder(less)
    requires QuickState(less, s, done, rest, Some(a))
    requires |rest| > 0 && !less(a, rest[0])
    requires Partition.PartitionedAt(ReversePredicate(less), rest, q, p)
    ensures QuickState(less, s, done + q[..p + 1], q[p + 1..], None)
  {
    var pivot := rest[0];
    ReversedPartition(less, rest, q, p);
    AncestorLeftEquivalent(less, rest, a, q, p);
    var eq, gt := q[..p + 1], q[p + 1..];
    assert q == eq + gt;
    forall i, j | 0 <= i < j < |eq| ensures !less(eq[j], eq[i]) {
      LessLe(less, eq[i], pivot, eq[j]);
    }
    forall i, j | 0 <= i < |eq| && 0 <= j < |gt| ensures !less(gt[j], eq[i]) {
      assert less(pivot, q[p + 1 + j]);
      LessLe(less, pivot, gt[j], eq[i]);
      LessLe(less, eq[i], gt[j], pivot);
    }
    PermutationKeepsBelow(less, done, rest, done, q);
    assert AllBelow(less, done, eq + gt);
    assert AllBelow(less, done, eq);
    assert AllBelow(less, done, gt) by {
      forall i, j | 0 <= i < |done| && 0 <= j < |gt| ensures !less(gt[j], done[i]) {
        assert gt[j] == (eq + gt)[|eq| + j];
      }
    }
    SortedConcat(less, done, eq);
    assert AllBelow(less, done + eq, gt) by {
      forall i, j | 0 <= i < |done + eq| && 0 <= j < |gt| ensures !less(gt[j], (done + eq)[i]) {
        if i >= |done| {
          assert (done + eq)[i] == eq[i - |done|];
        }
      }
    }
    assert done + eq + gt == done + q;
  }

  /** The range before the pivot is handed to the recursive call with the
      same ancestor, which stays below everything in it. */
  lemma LeftKeepsAncestor<T>(less: (T, T) -> bool, rest: seq<T>, q: seq<T>, p: nat, anc: Option<T>)
    requires |rest| > 0 && Partition.PartitionedAt(less, rest, q, p)
    requires anc.Some? ==> AllAtLeast(less, rest, anc.value)
    ensures anc.Some? ==> AllAtLeast(less, q[..p], anc.value)
  {
    if anc.Some? {
      PermutationKeepsAll(rest, q, x => !less(x, anc.value));
    }
  }

  /** The sorted left part lies below the pivot and below everything
      after it. */
  lemma LeftOfPivot<T(!new)>(less: (T, T) -> bool, lo: seq<T>, left: seq<T>, pivot: T, gt: seq<T>)
    requires StrictWeakOrder(less)
    requires forall i :: 0 <= i < |lo| ==> less(lo[i], pivot)
    requires forall j :: 0 <= j < |gt| ==> !less(gt[j], pivot)
    requires multiset(left) == multiset(lo)
    ensures AllBelow(less, left, [pivot]) && AllBelow(less, left, gt)
  {
    PermutationKeepsAll(lo, left, x => less(x, pivot));
    forall i | 0 <= i < |left| ensures !less(pivot, left[i]) {
      LessLe(less, left[i], pivot, pivot);
    }
    forall i, j | 0 <= i < |left| && 0 <= j < |gt| ensures !less(gt[j], left[i]) {
      LessLe(less, left[i], pivot, gt[j]);
    }
  }

  /** The pivot lies below everything after it. */
  lemma PivotBelowRight<T>(less: (T, T) -> bool, pivot: T, gt: seq<T>)
    requires forall j :: 0 <= j < |gt| ==> !less(gt[j], pivot)
    ensures AllBelow(less, [pivot], gt)
  {
  }

  /** The ordinary branch: the sorted left part and the pivot are final,
      and the pivot becomes the ancestor of the right part. */
  lemma PivotStep<T(!new)>(less: (T, T) -> bool, s: seq<T>, done: seq<T>, rest: seq<T>, anc: Option<T>,
                           q: seq<T>, p: nat, left: seq<T>)
    requires StrictWeakOrder(less)
    requires QuickState(less, s, done, rest, anc)
    requires |rest| > 0 && Partition.PartitionedAt(less, rest, q, p)
    requires |left| == p && Sorted(less, left) && multiset(left) == multiset(q[..p])
    ensures QuickState(less, s, done + left + [q[p]], q[p + 1..], Some(q[p]))
  {
    var pivot := q[p];
    var lo, gt := q[..p], q[p + 1..];
    assert q == lo + ([pivot] + gt);
    assert forall i :: 0 <= i < |lo| ==> less(lo[i], pivot);
    assert forall j :: 0 <= j < |gt| ==> !less(gt[j], pivot);
    PermutationKeepsBelow(less, done, rest, done, q);
    AllBelowSplit(less, done, lo, [pivot] + gt);
    AllBelowSplit(less, done, [pivot], gt);
    PermutationKeepsBelow(less, done, lo, done, left);
    SortedConcat(less, done, left);
    LeftOfPivot(less, lo, left, pivot, gt);
    AllBelowJoin(less, done, left, [pivot]);
    SortedConcat(less, done + left, [pivot]);
    AllBelowJoin(less, done, left, gt);
    PivotBelowRight(less, pivot, gt);
    AllBelowJoin(less, done + left, [pivot], gt);
    assert multiset(done + left + [pivot] + gt) == multiset(done + q);
  }

  /** `quick_sort`: ranges of at most 32 elements go to `small_sort`; once
      the depth budget is used up the range goes to `heap_sort`; otherwise
      a pivot is chosen and swapped to the front. When an ancestor pivot
      exists and the pivot is not greater than it, the range is partitioned
      by the reversed predicate, the block equal to the pivot is final, and
      the loop continues on the greater elements without an ancestor.
      Otherwise the range is partitioned, the left part is sorted by a
      recursive call, and the loop continues on the right part with the
      pivot as its ancestor. The result is a sorted permutation. */
  method QuickSortLoop<T(!new)>(s: seq<T>, less: (T, T) -> bool, caps: Capabilities, depthLimit: nat, ancestor: Option<T>)
    returns (r: seq<T>)
    requires StrictWeakOrder(less)
    requires ancestor.Some? ==> AllAtLeast(less, s, ancestor.value)
    ensures |r| == |s| && Sorted(less, r) && multiset(r) == multiset(s)
    decreases |s|
  {
    var done: seq<T> := [];
    var rest := s;
    var depth := depthLimit;
    var anc := ancestor;
    assert done + rest == s;
    while true
      invariant QuickState(less, s, done, rest, anc)
      decreases |rest|
    {
      if |rest| <= SSORT_MAX {
        var t := SmallSort(rest, less, caps);
        Finish(less, s, done, rest, anc, t);
        return done + t;
      }
      if depth == 0 {
        var t := Heap.HeapSort(rest, less);
        Finish(less, s, done, rest, anc, t);
        return done + t;
      }
      depth := depth - 1;
      var chosen, m := Pivot.ChoosePivot(rest, less);
      assert QuickState(less, s, done, chosen, anc) by {
        PermutationKeepsBelow(less, done, rest, done, chosen);
        if anc.Some? {
          PermutationKeepsAll(rest, chosen, x => !less(x, anc.value));
        }
      }
      if anc.Some? && !less(anc.value, chosen[0]) {
        var q, p := PartitionByChosenPivot(chosen, ReversePredicate(less), caps.(simpleComparator := false));
        AncestorStep(less, s, done, chosen, anc.value, q, p);
        done, rest, anc := done + q[..p + 1], q[p + 1..], None;
      } else {
        var q, p := PartitionByChosenPivot(chosen, less, caps);
        LeftKeepsAncestor(less, chosen, q, p, anc);
        var left := QuickSortLoop(q[..p], less, caps, depth, anc);
        PivotStep(less, s, done, chosen, anc, q, p, left);
        done, rest, anc := done + left + [q[p]], q[p + 1..], Some(q[p]);
      }
    }
  }

  // ---------------------------------------------------------------------
  // Run detection and the driver
  // ---------------------------------------------------------------------

  /** `find_existing_run`: below two elements the whole range counts as a
      run. Otherwise the first two elements decide the direction, and the
      run extends while each element is strictly less than its predecessor
      (descending) or not less than it (ascending). */
  method FindExistingRun<T>(s: seq<T>, less: (T, T) -> bool) returns (mid: nat, descending: bool)
    ensures |s| < 2 ==> mid == |s| && !descending
    ensures |s| >= 2 ==> 2 <= mid <= |s| && descending == less(s[1], s[0])
    ensures descending ==> StrictlyDescending(less, s[..mid])
    ensures !descending ==> AdjacentSorted(less, s[..mid])
    ensures mid < |s| ==> mid > 0 && (descending == !less(s[mid], s[mid - 1]))
  {
    if |s| < 2 {
      return |s|, false;
    }
    descending := less(s[1], s[0]);
    mid := 2;
    if descending {
      while mid != |s| && less(s[mid], s[mid - 1])
        invariant 2 <= mid <= |s|
        invariant StrictlyDescending(less, s[..mid])
      {
        mid := mid + 1;
      }
    } else {
      while mid != |s| && !less(s[mid], s[mid - 1])
        invariant 2 <= mid <= |s|
        invariant AdjacentSorted(less, s[..mid])
      {
        mid := mid + 1;
      }
    }
  }

  /** `log2i`: one less than the bit width, that is the floor of the
      base-2 logarithm. The builtin it rests on is undefined at 0. */
  function Log2i(v: nat): (r: nat)
    requires v > 0
    ensures Pow2(r) <= v < Pow2(r + 1)
  {
    BitWidthBounds(v);
    BitWidth(v) - 1
  }

  /** The depth budget of `qsort`: twice the floor of log2 of the length. */
  function DepthLimit(n: nat): (d: nat)
    requires n > 0
    ensures d % 2 == 0 && Pow2(d / 2) <= n < Pow2(d / 2 + 1)
  {
    Log2i(n) * 2
  }

  /** A sorted range meets the run scan as one ascending run. */
  lemma SortedIsOneRun<T>(less: (T, T) -> bool, s: seq<T>, mid: nat, descending: bool)
    requires Sorted(less, s)
    requires |s| >= 2 ==> 2 <= mid <= |s| && descending == less(s[1], s[0])
    requires |s| < 2 ==> mid == |s| && !descending
    requires mid < |s| ==> mid > 0 && (descending == !less(s[mid], s[mid - 1]))
    ensures !descending && mid == |s|
  {
  }

  /** A strictly descending range meets the run scan as one descending
      run (or, below two elements, as a run that needs no reversal). */
  lemma DescendingIsOneRun<T(!new)>(less: (T, T) -> bool, s: seq<T>, mid: nat, descending: bool)
    requires StrictlyDescending(less, s)
    requires |s| >= 2 ==> 2 <= mid <= |s| && descending == less(s[1], s[0])
    requires |s| < 2 ==> mid == |s| && !descending
    requires mid < |s| ==> mid > 0 && (descending == !less(s[mid], s[mid - 1]))
    ensures mid == |s| && (descending || Reverse(s) == s)
  {
    if |s| < 2 {
      assert Reverse(s) == s;
    }
  }

  /** `qsort`: a sorted permutation of the range. An already sorted range
      is left as it is, so sorting is idempotent, and a strictly descending
      one is exactly reversed. When a leading run covers at least half of
      the range, only the rest is quicksorted and the two are merged
      stably (`std::inplace_merge`). */
  method QSort<T(!new)>(s: seq<T>, less: (T, T) -> bool, caps: Capabilities) returns (r: seq<T>)
    requires StrictWeakOrder(less)
    ensures |r| == |s| && Sorted(less, r) && multiset(r) == multiset(s)
    ensures Sorted(less, s) ==> r == s
    ensures StrictlyDescending(less, s) ==> r == Reverse(s)
  {
    var mid, descending := FindExistingRun(s, less);
    if Sorted(less, s) {
      SortedIsOneRun(less, s, mid, descending);
    }
    if StrictlyDescending(less, s) {
      DescendingIsOneRun(less, s, mid, descending);
    }
    if mid == |s| {
      assert s[..mid] == s;
      if descending {
        StrictlyDescendingReversed(less, s);
        r := Reverse(s);
      } else {
        AdjacentIsSorted(less, s);
        r := s;
      }
    } else if mid >= |s| - mid {
      var run := s[..mid];
      if descending {
        StrictlyDescendingReversed(less, run);
        run := Reverse(run);
      } else {
        AdjacentIsSorted(less, run);
      }
      var tail := QuickSortLoop(s[mid..], less, caps, DepthLimit(|s| - mid), None);
      StableSmall.MergeSpec(less, run, tail);
      r := StableSmall.Merge(less, run, tail);
      assert s == s[..mid] + s[mid..];
    } else {
      r := QuickSortLoop(s, less, caps, DepthLimit(|s|), None);
    }
  }
}
