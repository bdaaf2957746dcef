/**
 * The stable small-sequence sorter `small_sort_general`, for element types
 * whose 48-slot scratch buffer fits the stack budget: both halves are
 * presorted by the stable 4- and 8-element networks, grown by `insert_tail`
 * and merged back by `merge_move`, which takes ties from the left run.
 *
 * Every step is stable, so, unlike the network sorter, the whole path keeps
 * equivalent elements in their input order.
 */
module StableSmall {
  import opened Order
  import Insertion

  /** The stable merge of two runs: the smaller head goes first, and on a
      tie the head of the left run. */
  function Merge<T>(less: (T, T) -> bool, u: seq<T>, v: seq<T>): (r: seq<T>)
    ensures |r| == |u| + |v|
    decreases |u| + |v|
  {
    if u == [] then v
    else if v == [] then u
    else if less(v[0], u[0]) then [v[0]] + Merge(less, u, v[1..])
    else [u[0]] + Merge(less, u[1..], v)
  }

  /** A merge holds exactly the elements of both runs. */
  lemma {:induction false} MergePermutes<T>(less: (T, T) -> bool, u: seq<T>, v: seq<T>)
    ensures multiset(Merge(less, u, v)) == multiset(u) + multiset(v)
    decreases |u| + |v|
  {
    if u != [] && v != [] {
      if less(v[0], u[0]) {
        MergePermutes(less, u, v[1..]);
        assert v == [v[0]] + v[1..];
      } else {
        MergePermutes(less, u[1..], v);
        assert u == [u[0]] + u[1..];
      }
    }
  }

  /** A lower bound of both runs bounds their merge. */
  lemma {:induction false} MergeAtLeast<T>(less: (T, T) -> bool, u: seq<T>, v: seq<T>, x: T)
    requires AllAtLeast(less, u, x) && AllAtLeast(less, v, x)
    ensures AllAtLeast(less, Merge(less, u, v), x)
    decreases |u| + |v|
  {
    if u != [] && v != [] {
      if less(v[0], u[0]) {
        MergeAtLeast(less, u, v[1..], x);
      } else {
        MergeAtLeast(less, u[1..], v, x);
      }
    }
  }

  /** An element at most every element of a sorted sequence can lead it. */
  lemma ConsSorted<T>(less: (T, T) -> bool, x: T, s: seq<T>)
    requires Sorted(less, s) && AllAtLeast(less, s, x)
    ensures Sorted(less, [x] + s)
  {
    SortedConcat(less, [x], s);
  }

  /** The merge of two sorted runs is sorted. */
  lemma {:induction false} MergeSorted<T(!new)>(less: (T, T) -> bool, u: seq<T>, v: seq<T>)
    requires StrictWeakOrder(less)
    requires Sorted(less, u) && Sorted(less, v)
    ensures Sorted(less, Merge(less, u, v))
    decreases |u| + |v|
  {
    if u != [] && v != [] {
      if less(v[0], u[0]) {
        MergeSorted(less, u, v[1..]);
        forall i | 0 <= i < |u| ensures !less(u[i], v[0]) {
          LessLe(less, v[0], u[0], u[i]);
        }
        MergeAtLeast(less, u, v[1..], v[0]);
        ConsSorted(less, v[0], Merge(less, u, v[1..]));
      } else {
        MergeSorted(less, u[1..], v);
        forall i | 0 <= i < |v| ensures !less(v[i], u[0]) {
          LessLe(less, u[0], v[0], v[i]);
        }
        MergeAtLeast(less, u[1..], v, u[0]);
        ConsSorted(less, u[0], Merge(less, u[1..], v));
      }
    }
  }

  /** The filter of a one-element sequence. */
  lemma FilterSingle<T>(less: (T, T) -> bool, y: T, x: T)
    ensures Filter(less, [y], x) == if Equiv(less, y, x) then [y] else []
  {
    FilterAppend(less, [], y, x);
  }

  /** Each equivalence class of a merge is the class from the left run
      followed by the class from the right run: the merge never lets a
      right-run element overtake an equivalent left-run one. */
  lemma {:induction false} MergeFilter<T(!new)>(less: (T, T) -> bool, u: seq<T>, v: seq<T>, x: T)
    requires StrictWeakOrder(less)
    requires Sorted(less, u)
    ensures Filter(less, Merge(less, u, v), x) == Filter(less, u, x) + Filter(less, v, x)
    decreases |u| + |v|
  {
    if u == [] {
      assert Filter(less, u, x) == [];
    } else if v == [] {
      assert Filter(less, v, x) == [];
    } else if less(v[0], u[0]) {
      MergeFilter(less, u, v[1..], x);
      MergeFilterRightStep(less, u, v, x);
    } else {
      MergeFilter(less, u[1..], v, x);
      MergeFilterLeftStep(less, u, v, x);
    }
  }

  /** The step of `MergeFilter` that takes the head of the right run: that
      head is strictly below the whole left run, so if it belongs to the
      class, the left run contributes nothing to it. */
  lemma MergeFilterRightStep<T(!new)>(less: (T, T) -> bool, u: seq<T>, v: seq<T>, x: T)
    requires StrictWeakOrder(less)
    requires Sorted(less, u) && u != [] && v != [] && less(v[0], u[0])
    requires Filter(less, Merge(less, u, v[1..]), x) == Filter(less, u, x) + Filter(less, v[1..], x)
    ensures Filter(less, Merge(less, u, v), x) == Filter(less, u, x) + Filter(less, v, x)
  {
    assert Merge(less, u, v) == [v[0]] + Merge(less, u, v[1..]);
    assert v == [v[0]] + v[1..];
    if Equiv(less, v[0], x) {
      forall i | 0 <= i < |u| ensures less(x, u[i]) {
        LessLe(less, v[0], u[0], u[i]);
        LessLe(less, x, v[0], u[i]);
      }
      FilterAllAbove(less, u, x);
    }
    ConsPassesBlock(less, v[0], Merge(less, u, v[1..]), u, v[1..], x);
  }

  /** Filter algebra of the right step: `y` may go in front of `w` when `w`
      has nothing in the class or `y` is not in it. */
  lemma ConsPassesBlock<T>(less: (T, T) -> bool, y: T, m: seq<T>, w: seq<T>, v: seq<T>, x: T)
    requires Filter(less, m, x) == Filter(less, w, x) + Filter(less, v, x)
    requires Equiv(less, y, x) ==> Filter(less, w, x) == []
    ensures Filter(less, [y] + m, x) == Filter(less, w, x) + Filter(less, [y] + v, x)
  {
    FilterConcat(less, [y], m, x);
    FilterConcat(less, [y], v, x);
    FilterSingle(less, y, x);
  }

  /** The step of `MergeFilter` that takes the head of the left run. */
  lemma MergeFilterLeftStep<T(!new)>(less: (T, T) -> bool, u: seq<T>, v: seq<T>, x: T)
    requires u != [] && v != [] && !less(v[0], u[0])
    requires Filter(less, Merge(less, u[1..], v), x) == Filter(less, u[1..], x) + Filter(less, v, x)
    ensures Filter(less, Merge(less, u, v), x) == Filter(less, u, x) + Filter(less, v, x)
  {
    assert Merge(less, u, v) == [u[0]] + Merge(less, u[1..], v);
    assert u == [u[0]] + u[1..];
    ConsKeepsBlock(less, u[0], Merge(less, u[1..], v), u[1..], v, x);
  }

  /** Filter algebra of the left step. */
  lemma ConsKeepsBlock<T>(less: (T, T) -> bool, y: T, m: seq<T>, w: seq<T>, v: seq<T>, x: T)
    requires Filter(less, m, x) == Filter(less, w, x) + Filter(less, v, x)
    ensures Filter(less, [y] + m, x) == Filter(less, [y] + w, x) + Filter(less, v, x)
  {
    FilterConcat(less, [y], m, x);
    FilterConcat(less, [y], w, x);
    ConcatAssoc(Filter(less, [y], x), Filter(less, w, x), Filter(less, v, x));
  }

  lemma ConcatAssoc<T>(a: seq<T>, b: seq<T>, c: seq<T>)
    ensures a + (b + c) == (a + b) + c
  {
  }

  /** Merging two sorted runs gives a sorted, stable permutation of their
      concatenation. */
  lemma MergeSpec<T(!new)>(less: (T, T) -> bool, u: seq<T>, v: seq<T>)
    requires StrictWeakOrder(less)
    requires Sorted(less, u) && Sorted(less, v)
    ensures Sorted(less, Merge(less, u, v))
    ensures multiset(Merge(less, u, v)) == multiset(u + v)
    ensures Stable(less, u + v, Merge(less, u, v))
  {
    MergeSorted(less, u, v);
    MergePermutes(less, u, v);
    forall x ensures Filter(less, Merge(less, u, v), x) == Filter(less, u + v, x) {
      MergeFilter(less, u, v, x);
      FilterConcat(less, u, v, x);
    }
  }

  /** The loop of `merge_move` from the state where `i` and `j` point into
      the runs [i, mid) and [j, last) of `s`: each round moves the smaller
      head, the left one on a tie, and once a run is used up the rest of
      the other is moved as a block. */
  function MergeAt<T>(less: (T, T) -> bool, s: seq<T>, i: nat, mid: nat, j: nat, last: nat): seq<T>
    requires i <= mid <= j <= last <= |s|
    decreases (mid - i) + (last - j)
  {
    if i == mid then s[j..last]
    else if j == last then s[i..mid]
    else if less(s[j], s[i]) then [s[j]] + MergeAt(less, s, i, mid, j + 1, last)
    else [s[i]] + MergeAt(less, s, i + 1, mid, j, last)
  }

  /** The index form computes the merge of the two slices. */
  lemma {:induction false} MergeAtIsMerge<T>(less: (T, T) -> bool, s: seq<T>, i: nat, mid: nat, j: nat, last: nat)
    requires i <= mid <= j <= last <= |s|
    ensures MergeAt(less, s, i, mid, j, last) == Merge(less, s[i..mid], s[j..last])
    decreases (mid - i) + (last - j)
  {
    if i < mid && j < last {
      assert s[i..mid][0] == s[i] && s[j..last][0] == s[j];
      if less(s[j], s[i]) {
        MergeAtIsMerge(less, s, i, mid, j + 1, last);
        assert s[j..last][1..] == s[j + 1..last];
      } else {
        MergeAtIsMerge(less, s, i + 1, mid, j, last);
        assert s[i..mid][1..] == s[i + 1..mid];
      }
    }
  }

  /** `merge_move`: merges the non-empty runs [first, mid) and [mid, last)
      of `s` into the block it writes to `dest`; the block ends where the
      returned iterator points, `last - first` slots on. */
  function MergeMove<T>(less: (T, T) -> bool, s: seq<T>, first: nat, mid: nat, last: nat): (out: seq<T>)
    requires first < mid < last <= |s|
    ensures out == Merge(less, s[first..mid], s[mid..last])
    ensures |out| == last - first
  {
    MergeAtIsMerge(less, s, first, mid, mid, last);
    MergeAt(less, s, first, mid, mid, last)
  }

  /** The first step of `sort4_stable`: a pair in order, swapped only when
      the second element is strictly less. */
  function SortPair<T>(less: (T, T) -> bool, x: T, y: T): (r: seq<T>)
    ensures multiset(r) == multiset([x, y])
  {
    if less(y, x) then [y, x] else [x, y]
  }

  /** A pair sorted this way is a sorted, stable permutation. */
  lemma SortPairSpec<T(!new)>(less: (T, T) -> bool, x: T, y: T)
    requires StrictWeakOrder(less)
    ensures Sorted(less, SortPair(less, x, y))
    ensures Stable(less, [x, y], SortPair(less, x, y))
  {
    if less(y, x) {
      LessLe(less, y, x, x);
      forall z ensures Filter(less, [y, x], z) == Filter(less, [x, y], z) {
        FilterAppend(less, [x], y, z);
        FilterAppend(less, [y], x, z);
        FilterSingle(less, x, z);
        FilterSingle(less, y, z);
        LessLe(less, y, x, z);
        LessLe(less, y, z, x);
      }
    }
  }

  /** The selection step of `sort4_stable`: given sorted pairs [p0, p1] and
      [q0, q1], two comparisons find the minimum and maximum and leave two
      unknown elements whose run order is known; a fifth comparison orders
      them, ties keeping the left one first. */
  function SelectFour<T>(less: (T, T) -> bool, p0: T, p1: T, q0: T, q1: T): seq<T> {
    var c3 := less(q0, p0);
    var c4 := less(q1, p1);
    var mn := if c3 then q0 else p0;
    var mx := if c4 then p1 else q1;
    var unknownLeft := if c3 then p0 else if c4 then q0 else p1;
    var unknownRight := if c4 then q1 else if c3 then p1 else q0;
    var c5 := less(unknownRight, unknownLeft);
    var lo := if c5 then unknownRight else unknownLeft;
    var hi := if c5 then unknownLeft else unknownRight;
    [mn, lo, hi, mx]
  }

  /** On sorted pairs, the selection is exactly the stable merge. */
  lemma SelectFourIsMerge<T(!new)>(less: (T, T) -> bool, p0: T, p1: T, q0: T, q1: T)
    requires StrictWeakOrder(less)
    requires !less(p1, p0) && !less(q1, q0)
    ensures SelectFour(less, p0, p1, q0, q1) == Merge(less, [p0, p1], [q0, q1])
  {
    var p, q := [p0, p1], [q0, q1];
    assert p[1..] == [p1] && q[1..] == [q1];
    assert Merge(less, [p1], [q1]) == if less(q1, p1) then [q1, p1] else [p1, q1];
    if less(q0, p0) {
      LessLe(less, p0, p1, q1);
      assert Merge(less, p, q) == [q0] + Merge(less, p, [q1]);
      assert Merge(less, p, [q1]) == if less(q1, p0) then [q1, p0, p1] else [p0] + Merge(less, [p1], [q1]);
    } else {
      LessLe(less, q0, q1, p1);
      assert Merge(less, p, q) == [p0] + Merge(less, [p1], q);
      assert Merge(less, [p1], q) == if less(q0, p1) then [q0] + Merge(less, [p1], [q1]) else [p1, q0, q1];
    }
  }

  /** `sort4_stable`: the indices a, b, c, d order the pairs [0, 1] and
      [2, 3]; the four elements are then selected into place. The result
      is a sorted, stable permutation of the four inputs. */
  method Sort4Stable<T(!new)>(s: seq<T>, less: (T, T) -> bool) returns (r: seq<T>)
    requires StrictWeakOrder(less)
    requires |s| == 4
    ensures |r| == 4
    ensures Sorted(less, r)
    ensures multiset(r) == multiset(s)
    ensures Stable(less, s, r)
  {
    var c1 := less(s[1], s[0]);
    var c2 := less(s[3], s[2]);
    var a := if c1 then 1 else 0;
    var b := if c1 then 0 else 1;
    var c := if c2 then 3 else 2;
    var d := if c2 then 2 else 3;
    r := SelectFour(less, s[a], s[b], s[c], s[d]);
    Sort4Merges(less, s, r);
  }

  /** The pairs of `sort4_stable` are sorted and their selection is their
      merge, so it is sorted and stable. */
  lemma Sort4Merges<T(!new)>(less: (T, T) -> bool, s: seq<T>, r: seq<T>)
    requires StrictWeakOrder(less)
    requires |s| == 4
    requires var x, y := SortPair(less, s[0], s[1]), SortPair(less, s[2], s[3]);
      r == SelectFour(less, x[0], x[1], y[0], y[1])
    ensures |r| == 4
    ensures Sorted(less, r)
    ensures multiset(r) == multiset(s)
    ensures Stable(less, s, r)
  {
    assert s == [s[0], s[1]] + [s[2], s[3]];
    var x := SortPair(less, s[0], s[1]);
    var y := SortPair(less, s[2], s[3]);
    SortPairSpec(less, s[0], s[1]);
    SortPairSpec(less, s[2], s[3]);
    SelectFourIsMerge(less, x[0], x[1], y[0], y[1]);
    assert x == [x[0], x[1]] && y == [y[0], y[1]];
    MergeSpec(less, x, y);
    StableConcat(less, [s[0], s[1]], [s[2], s[3]], x, y);
    StableTrans(less, s, x + y, r);
  }

  /** `sort8_stable`: two stable 4-sorts into scratch, merged by `merge_move`. */
  method Sort8Stable<T(!new)>(s: seq<T>, less: (T, T) -> bool) returns (r: seq<T>)
    requires StrictWeakOrder(less)
    requires |s| == 8
    ensures |r| == 8
    ensures Sorted(less, r)
    ensures multiset(r) == multiset(s)
    ensures Stable(less, s, r)
  {
    var u := Sort4Stable(s[..4], less);
    var v := Sort4Stable(s[4..], less);
    var scratch := u + v;
    assert scratch[..4] == u && scratch[4..8] == v;
    r := MergeMove(less, scratch, 0, 4, 8);
    MergeSpec(less, u, v);
    assert s == s[..4] + s[4..];
    StableConcat(less, s[..4], s[4..], u, v);
    StableTrans(less, s, u + v, r);
  }

  /** The inner loop of `small_sort_general` on one half: starting from a
      sorted, stable permutation of the first `presorted` elements of `src`,
      each further element is appended and moved into place by
      `insert_tail`. */
  method ExtendSorted<T(!new)>(src: seq<T>, pre: seq<T>, presorted: nat, less: (T, T) -> bool) returns (r: seq<T>)
    requires StrictWeakOrder(less)
    requires 1 <= presorted <= |src| && |pre| == presorted
    requires Sorted(less, pre) && multiset(pre) == multiset(src[..presorted])
    requires Stable(less, src[..presorted], pre)
    ensures |r| == |src|
    ensures Sorted(less, r)
    ensures multiset(r) == multiset(src)
    ensures Stable(less, src, r)
  {
    r := pre;
    var i := presorted;
    while i < |src|
      invariant presorted <= i <= |src| && |r| == i
      invariant Sorted(less, r) && multiset(r) == multiset(src[..i])
      invariant Stable(less, src[..i], r)
    {
      var buf := r + [src[i]];
      assert buf[0..i] == r;
      var next := Insertion.InsertTail(buf, 0, i, less);
      assert src[..i + 1] == src[..i] + [src[i]];
      assert next[0..i + 1] == next && buf[0..i + 1] == buf;
      StableExtend(less, src[..i], r, src[i]);
      StableTrans(less, src[..i + 1], buf, next);
      r := next;
      i := i + 1;
    }
    assert src[..i] == src;
  }

  /** The presorting step of `small_sort_general`: the first `presorted`
      elements of each half, starting at 0 and at `half`, as sorted, stable
      permutations. Eight elements each when the element type has at most
      16 bytes and the range has at least 16 elements, four when it has at
      least 8, otherwise the single first element of each half. */
  method Presort<T(!new)>(a: seq<T>, half: nat, less: (T, T) -> bool, elementSize: nat)
    returns (lower: seq<T>, upper: seq<T>, presorted: nat)
    requires StrictWeakOrder(less)
    requires 2 <= |a| && half == |a| / 2
    ensures 1 <= presorted <= half && |lower| == |upper| == presorted
    ensures presorted == (if elementSize <= 16 && |a| >= 16 then 8 else if |a| >= 8 then 4 else 1)
    ensures Sorted(less, lower) && multiset(lower) == multiset(a[..presorted])
    ensures Stable(less, a[..presorted], lower)
    ensures Sorted(less, upper) && multiset(upper) == multiset(a[half..half + presorted])
    ensures Stable(less, a[half..half + presorted], upper)
  {
    if elementSize <= 16 && |a| >= 16 {
      lower := Sort8Stable(a[..8], less);
      upper := Sort8Stable(a[half..half + 8], less);
      presorted := 8;
    } else if |a| >= 8 {
      lower := Sort4Stable(a[..4], less);
      upper := Sort4Stable(a[half..half + 4], less);
      presorted := 4;
    } else {
      lower := [a[0]];
      upper := [a[half]];
      presorted := 1;
      assert a[..1] == lower && a[half..half + 1] == upper;
    }
  }

  /** Merging the two sorted halves finishes `small_sort_general`. */
  lemma CombineHalves<T(!new)>(less: (T, T) -> bool, a: seq<T>, half: nat, lower: seq<T>, upper: seq<T>)
    requires StrictWeakOrder(less)
    requires half <= |a|
    requires Sorted(less, lower) && multiset(lower) == multiset(a[..half]) && Stable(less, a[..half], lower)
    requires Sorted(less, upper) && multiset(upper) == multiset(a[half..]) && Stable(less, a[half..], upper)
    ensures Sorted(less, Merge(less, lower, upper))
    ensures multiset(Merge(less, lower, upper)) == multiset(a)
    ensures Stable(less, a, Merge(less, lower, upper))
  {
    MergeSpec(less, lower, upper);
    assert a == a[..half] + a[half..];
    StableConcat(less, a[..half], a[half..], lower, upper);
    StableTrans(less, a, lower + upper, Merge(less, lower, upper));
  }

  /** `small_sort_general`: a sorted, stable permutation of up to 32
      elements (the 48-slot scratch holds the range plus 16 slots for the
      8-element presort). `elementSize` is `sizeof(value_type)`, which
      decides whether 8-element presorting is used. */
  method SmallSortGeneral<T(!new)>(a: seq<T>, less: (T, T) -> bool, elementSize: nat) returns (r: seq<T>)
    requires StrictWeakOrder(less)
    requires |a| + 16 <= 48
    ensures |r| == |a|
    ensures Sorted(less, r)
    ensures multiset(r) == multiset(a)
    ensures Stable(less, a, r)
    ensures |a| < 2 ==> r == a
  {
    if |a| < 2 {
      return a;
    }
    var len := |a|;
    var half := len / 2;
    var lower, upper, presorted := Presort(a, half, less, elementSize);
    var left, right := a[..half], a[half..];
    assert left[..presorted] == a[..presorted] && right[..presorted] == a[half..half + presorted];
    lower := ExtendSorted(left, lower, presorted, less);
    upper := ExtendSorted(right, upper, presorted, less);
    var scratch := lower + upper;
    assert scratch[0..half] == lower && scratch[half..len] == upper;
    r := MergeMove(less, scratch, 0, half, len);
    CombineHalves(less, a, half, lower, upper);
  }
}
