/**
 * The sorting-network path of the small-sequence sorter: `enforce_order`
 * sorts 8-element blocks alternately up and down so that every 16-element
 * window is bitonic (ascending, then descending), `forward_merge` and
 * `backward_merge` merge a bitonic range by repeatedly taking the smaller of
 * its two ends, and `small_sort_network` combines them for up to 32 elements.
 */
module Bitonic {
  import opened Order
  import opened Networks
  import SortAux

  /** Indices [f, m) of `s` are non-descending and [m, e) non-ascending. */
  ghost predicate AscDesc<T>(less: (T, T) -> bool, s: seq<T>, f: int, m: int, e: int) {
    && 0 <= f <= m <= e <= |s|
    && (forall i, j :: f <= i < j < m ==> !less(s[j], s[i]))
    && (forall i, j :: m <= i < j < e ==> !less(s[i], s[j]))
  }

  /** `s` rises and then falls (either part may be empty). */
  ghost predicate Bitonic<T>(less: (T, T) -> bool, s: seq<T>) {
    exists m :: AscDesc(less, s, 0, m, |s|)
  }

  // ---------------------------------------------------------------------
  // enforce_order
  // ---------------------------------------------------------------------

  /** End of the `b`-th 8-element block of a range of length `n`. */
  function BlockEnd(n: nat, b: nat): (e: nat)
    requires 8 * b <= n
    ensures 8 * b <= e <= n && e - 8 * b <= 8
    ensures e - 8 * b < 8 ==> e == n
  {
    if 8 * b + 8 <= n then 8 * b + 8 else n
  }

  /** Block `b` of `r` is a permutation of the same block of `a`, ascending
      when `b` is even and descending when `b` is odd. */
  ghost predicate BlockOrdered<T>(less: (T, T) -> bool, a: seq<T>, r: seq<T>, b: nat)
    requires |r| == |a| && 8 * b <= |a|
  {
    var lo, hi := 8 * b, BlockEnd(|a|, b);
    && multiset(r[lo..hi]) == multiset(a[lo..hi])
    && (b % 2 == 0 ==> Sorted(less, r[lo..hi]))
    && (b % 2 == 1 ==> SortedDesc(less, r[lo..hi]))
  }

  /** The direction `enforce_order` sorts block `b` in. */
  function BlockKind(b: nat): (k: SwapKind)
    ensures k == Ascending <==> b % 2 == 0
  {
    if b % 2 == 0 then Ascending else Descending
  }

  /** One network call of `enforce_order` on block `q` (`sort8_optimal` is
      `sort1to8` at length 8): the block is replaced by a sorted permutation
      of itself and every earlier block is kept. */
  method SortBlock<T(!new)>(a: seq<T>, r: seq<T>, q: nat, n: nat, less: (T, T) -> bool) returns (r': seq<T>)
    requires StrictWeakOrder(less)
    requires |r| == |a| && 8 * q + n <= |a| && n <= 8
    requires n == 8 || 8 * q + n == |a|
    requires r[8 * q..] == a[8 * q..]
    requires forall b :: 0 <= b < q ==> BlockOrdered(less, a, r, b)
    ensures |r'| == |a| && r'[8 * q + n..] == a[8 * q + n..]
    ensures forall b :: 0 <= b && 8 * b < 8 * q + n ==> BlockOrdered(less, a, r', b)
  {
    var lo := 8 * q;
    var kind := BlockKind(q);
    var block := SortUpTo8(r[lo..lo + n], less, kind);
    r' := r[..lo] + block + r[lo + n..];
    BlockReplaced(less, a, r, q, n, block, r');
  }

  /** Splicing a sorted permutation of block `q` into place extends the
      ordered prefix by that block. */
  lemma BlockReplaced<T>(less: (T, T) -> bool, a: seq<T>, r: seq<T>, q: nat, n: nat, block: seq<T>, r': seq<T>)
    requires |r| == |a| && 8 * q + n <= |a| && n <= 8
    requires n == 8 || 8 * q + n == |a|
    requires r[8 * q..] == a[8 * q..]
    requires forall b :: 0 <= b < q ==> BlockOrdered(less, a, r, b)
    requires |block| == n && multiset(block) == multiset(r[8 * q..8 * q + n])
    requires BlockKind(q) == Ascending ==> Sorted(less, block)
    requires BlockKind(q) == Descending ==> SortedDesc(less, block)
    requires r' == r[..8 * q] + block + r[8 * q + n..]
    ensures |r'| == |a| && r'[8 * q + n..] == a[8 * q + n..]
    ensures forall b :: 0 <= b && 8 * b < 8 * q + n ==> BlockOrdered(less, a, r', b)
  {
    var lo := 8 * q;
    assert r'[..lo] == r[..lo] && r'[lo..lo + n] == block && r'[lo + n..] == r[lo + n..];
    KeepEarlierBlocks(less, a, r, r', q);
    if n > 0 {
      assert r[lo..lo + n] == a[lo..lo + n];
      assert BlockEnd(|a|, q) == lo + n;
      assert BlockOrdered(less, a, r', q);
    }
    forall b | 0 <= b && 8 * b < 8 * q + n ensures BlockOrdered(less, a, r', b) {
      if b >= q {
        assert b == q;
      }
    }
  }

  /** Rewriting only from block `q` on keeps the blocks before it. */
  lemma KeepEarlierBlocks<T>(less: (T, T) -> bool, a: seq<T>, r: seq<T>, r': seq<T>, q: nat)
    requires |r| == |a| == |r'| && 8 * q <= |a|
    requires r'[..8 * q] == r[..8 * q]
    requires forall b :: 0 <= b < q ==> BlockOrdered(less, a, r, b)
    ensures forall b :: 0 <= b < q ==> BlockOrdered(less, a, r', b)
  {
    forall b | 0 <= b < q ensures BlockOrdered(less, a, r', b) {
      var lo, hi := 8 * b, BlockEnd(|a|, b);
      assert hi <= 8 * q;
      assert r'[lo..hi] == r'[..8 * q][lo..hi] == r[..8 * q][lo..hi] == r[lo..hi];
      assert BlockOrdered(less, a, r, b);
    }
  }

  /** `enforce_order`: every 8-element block (the last one possibly shorter)
      becomes a sorted permutation of itself, ascending and descending
      alternately, so each 16-element window rises then falls. */
  method EnforceOrder<T(!new)>(a: seq<T>, less: (T, T) -> bool) returns (r: seq<T>)
    requires StrictWeakOrder(less)
    ensures |r| == |a|
    ensures forall b :: 0 <= b && 8 * b < |a| ==> BlockOrdered(less, a, r, b)
  {
    r := a;
    var iter, q := 0, 0;
    while |a| - iter >= SortAux.BITONIC_BATCH
      invariant iter == 8 * q && q % 2 == 0 && iter <= |a| && |r| == |a|
      invariant r[iter..] == a[iter..]
      invariant forall b :: 0 <= b < q ==> BlockOrdered(less, a, r, b)
    {
      r := SortBlock(a, r, q, SortAux.BATCH, less);
      iter, q := iter + SortAux.BATCH, q + 1;
      r := SortBlock(a, r, q, SortAux.BATCH, less);
      iter, q := iter + SortAux.BATCH, q + 1;
    }
    if |a| - iter >= SortAux.BATCH {
      r := SortBlock(a, r, q, SortAux.BATCH, less);
      iter, q := iter + SortAux.BATCH, q + 1;
      r := SortBlock(a, r, q, |a| - iter, less);
    } else {
      r := SortBlock(a, r, q, |a| - iter, less);
    }
  }

  /** Two adjacent blocks written by `enforce_order` form a bitonic run. */
  lemma BlocksBitonic<T>(less: (T, T) -> bool, a: seq<T>, r: seq<T>, b: nat)
    requires |r| == |a| && b % 2 == 0 && 8 * b < |a|
    requires forall c :: 0 <= c && 8 * c < |a| ==> BlockOrdered(less, a, r, c)
    ensures var lo := 8 * b;
      var hi := if lo + 16 <= |a| then lo + 16 else |a|;
      Bitonic(less, r[lo..hi])
      && multiset(r[lo..hi]) == multiset(a[lo..hi])
  {
    var lo := 8 * b;
    var mid := BlockEnd(|a|, b);
    var hi := if lo + 16 <= |a| then lo + 16 else |a|;
    var s := r[lo..hi];
    assert lo < mid <= hi <= |r|;
    assert BlockOrdered(less, a, r, b);
    assert r[lo..mid] == s[..mid - lo] by {
      forall i | 0 <= i < mid - lo ensures r[lo..mid][i] == s[..mid - lo][i] {
        assert r[lo..mid][i] == r[lo + i] == s[i];
      }
    }
    if mid < |a| {
      assert BlockOrdered(less, a, r, b + 1);
      assert BlockEnd(|a|, b + 1) == hi;
      assert r[mid..hi] == s[mid - lo..];
      assert s == r[lo..mid] + r[mid..hi];
      assert a[lo..hi] == a[lo..mid] + a[mid..hi];
    } else {
      assert s == r[lo..mid];
    }
    assert AscDesc(less, s, 0, mid - lo, |s|);
  }

  // ---------------------------------------------------------------------
  // forward_merge / backward_merge
  // ---------------------------------------------------------------------

  /** The smaller of the two ends of a bitonic run is its minimum; this is
      why taking ends yields the elements in non-descending order. */
  lemma EndIsMinimum<T(!new)>(less: (T, T) -> bool, s: seq<T>, f: nat, m: nat, e: nat)
    requires StrictWeakOrder(less)
    requires AscDesc(less, s, f, m, e) && f < e
    ensures less(s[f], s[e - 1]) ==> forall j :: f <= j < e ==> !less(s[j], s[f])
    ensures !less(s[f], s[e - 1]) ==> forall j :: f <= j < e ==> !less(s[j], s[e - 1])
  {
    if less(s[f], s[e - 1]) {
      forall j | f <= j < e ensures !less(s[j], s[f]) {
        LessLe(less, s[f], s[e - 1], s[j]);
        LessLe(less, s[f], s[j], s[j]);
      }
    } else {
      forall j | f <= j < e ensures !less(s[j], s[e - 1]) {
        if j < m {
          LessLe(less, s[e - 1], s[f], s[j]);
        }
      }
    }
  }

  /** Taking the minimum end keeps the rest of the run bitonic. */
  lemma TakeEnd<T(!new)>(less: (T, T) -> bool, s: seq<T>, f: nat, m: nat, e: nat)
    requires AscDesc(less, s, f, m, e) && f < e
    ensures AscDesc(less, s, f + 1, if m < f + 1 then f + 1 else m, e)
    ensures AscDesc(less, s, f, if m > e - 1 then e - 1 else m, e - 1)
  {
  }

  /** The state of either merge: [first, last] is what is left of the
      bitonic run (split at `m`), `out` holds the elements taken so far, and
      none of them is above an element still left. */
  ghost predicate Merging<T>(less: (T, T) -> bool, src: seq<T>, first: int, last: int, m: int, out: seq<T>) {
    && 0 <= first <= last < |src|
    && AscDesc(less, src, first, m, last + 1)
    && |out| == first + (|src| - 1 - last)
    && multiset(out) + multiset(src[first..last + 1]) == multiset(src)
    && (forall i, j :: 0 <= i < |out| && first <= j <= last ==> !less(src[j], out[i]))
  }

  /** The taken elements after `x` joins them: at the end, or in front
      when `front`. */
  function Taken<T>(out: seq<T>, x: T, front: bool): (r: seq<T>)
    ensures |r| == |out| + 1
    ensures multiset(r) == multiset(out) + multiset{x}
  {
    if front then [x] + out else out + [x]
  }

  /** One step of either merge: compares the two ends of the run
      [first, last] and takes the smaller one (the last on a tie). */
  method TakeSmallerEnd<T(!new)>(src: seq<T>, first: nat, last: nat, ghost m: int, ghost out: seq<T>, ghost front: bool, less: (T, T) -> bool)
    returns (x: T, first': nat, last': nat, ghost m': int)
    requires StrictWeakOrder(less)
    requires first < last && Merging(less, src, first, last, m, out)
    ensures last' - first' == last - first - 1
    ensures forall i :: 0 <= i < |out| ==> !less(x, out[i])
    ensures Merging(less, src, first', last', m', Taken(out, x, front))
  {
    if less(src[first], src[last]) {
      TakeFirst(less, src, first, last, m, out, front);
      x, first', last' := src[first], first + 1, last;
      m' := if m < first' then first' else m;
    } else {
      TakeLast(less, src, first, last, m, out, front);
      x, first', last' := src[last], first, last - 1;
      m' := if m > last' + 1 then last' + 1 else m;
    }
  }

  /** Taking the first element of the run when it is the smaller end (one
      step of either merge): it is not below any element taken before
      (appended to `out`, or put in front of it when `front`), and the merge
      state carries over to the shorter run. */
  lemma TakeFirst<T(!new)>(less: (T, T) -> bool, src: seq<T>, first: nat, last: nat, m: int, out: seq<T>, front: bool)
    requires StrictWeakOrder(less)
    requires first < last && Merging(less, src, first, last, m, out)
    requires less(src[first], src[last])
    ensures forall i :: 0 <= i < |out| ==> !less(src[first], out[i])
    ensures var x := src[first];
      Merging(less, src, first + 1, last, if m < first + 1 then first + 1 else m, Taken(out, x, front))
  {
    EndIsMinimum(less, src, first, m, last + 1);
    TakeEnd(less, src, first, m, last + 1);
    var x := src[first];
    var out' := Taken(out, x, front);
    assert src[first..last + 1] == [x] + src[first + 1..last + 1];
    MultisetMove(out, x, src[first..last + 1], src[first + 1..last + 1]);
    assert multiset(out') + multiset(src[first + 1..last + 1]) == multiset(src);
    StillBelowRest(less, src, out, x, out', first, last, first + 1, last);
  }

  /** Taking the last element of the run when the first is not smaller
      (ties take the last). */
  lemma TakeLast<T(!new)>(less: (T, T) -> bool, src: seq<T>, first: nat, last: nat, m: int, out: seq<T>, front: bool)
    requires StrictWeakOrder(less)
    requires first < last && Merging(less, src, first, last, m, out)
    requires !less(src[first], src[last])
    ensures forall i :: 0 <= i < |out| ==> !less(src[last], out[i])
    ensures var x := src[last];
      Merging(less, src, first, last - 1, if m > last then last else m, Taken(out, x, front))
  {
    EndIsMinimum(less, src, first, m, last + 1);
    TakeEnd(less, src, first, m, last + 1);
    var x := src[last];
    var out' := Taken(out, x, front);
    assert src[first..last + 1] == src[first..last] + [x];
    MultisetMove(out, x, src[first..last + 1], src[first..last]);
    assert multiset(out') + multiset(src[first..last]) == multiset(src);
    StillBelowRest(less, src, out, x, out', first, last, first, last - 1);
  }

  /** Moving the taken element from the run to the output keeps the
      combined multiset. */
  lemma MultisetMove<T>(out: seq<T>, x: T, rest: seq<T>, rest': seq<T>)
    requires rest == [x] + rest' || rest == rest' + [x]
    ensures multiset(out + [x]) + multiset(rest') == multiset(out) + multiset(rest)
    ensures multiset([x] + out) + multiset(rest') == multiset(out) + multiset(rest)
  {
  }

  /** The taken elements stay below what is left of the run once the
      minimum `x` joins them and the run shrinks to [f', l']. */
  lemma StillBelowRest<T>(less: (T, T) -> bool, src: seq<T>, out: seq<T>, x: T, out': seq<T>, f: nat, l: nat, f': nat, l': int)
    requires f <= f' && l' <= l < |src|
    requires out' == out + [x] || out' == [x] + out
    requires forall i, j :: 0 <= i < |out| && f <= j <= l ==> !less(src[j], out[i])
    requires forall j :: f <= j <= l ==> !less(src[j], x)
    ensures forall i, j :: 0 <= i < |out'| && f' <= j <= l' ==> !less(src[j], out'[i])
  {
    forall i, j | 0 <= i < |out'| && f' <= j <= l' ensures !less(src[j], out'[i]) {
      if out' == out + [x] {
        if i < |out| {
          assert out'[i] == out[i];
        }
      } else if i > 0 {
        assert out'[i] == out[i - 1];
      }
    }
  }

  /** `forward_merge`: merges the bitonic `src` smallest element first. The
      block it writes at `dest` is returned: a sorted permutation of `src`.
      `src` must be non-empty: the routine reads its last element
      unconditionally. */
  method ForwardMerge<T(!new)>(src: seq<T>, less: (T, T) -> bool) returns (r: seq<T>)
    requires StrictWeakOrder(less)
    requires 1 <= |src|
    requires Bitonic(less, src)
    ensures |r| == |src|
    ensures Sorted(less, r)
    ensures multiset(r) == multiset(src)
  {
    ghost var m :| AscDesc(less, src, 0, m, |src|);
    var first, last := 0, |src| - 1;
    var len := last - first;
    r := [];
    assert src[first..last + 1] == src;
    while len > 0
      invariant Merging(less, src, first, last, m, r) && len == last - first
      invariant Sorted(less, r)
    {
      var x;
      x, first, last, m := TakeSmallerEnd(src, first, last, m, r, false, less);
      AppendMinimum(less, r, x);
      r := r + [x];
      len := len - 1;
    }
    LastElement(less, src, first, last, m, r);
    AppendMinimum(less, r, src[first]);
    r := r + [src[first]];
  }

  /** When one element is left it is the last one to take. */
  lemma LastElement<T>(less: (T, T) -> bool, src: seq<T>, first: int, last: int, m: int, out: seq<T>)
    requires Merging(less, src, first, last, m, out) && first == last
    ensures |out| + 1 == |src|
    ensures multiset(out + [src[first]]) == multiset(src) && multiset([src[first]] + out) == multiset(src)
    ensures forall i :: 0 <= i < |out| ==> !less(src[first], out[i])
  {
    assert src[first..last + 1] == [src[first]];
  }


  /** A value not below any element extends a sorted sequence. */
  lemma AppendMinimum<T>(less: (T, T) -> bool, out: seq<T>, x: T)
    requires Sorted(less, out)
    requires forall i :: 0 <= i < |out| ==> !less(x, out[i])
    ensures Sorted(less, out + [x])
  {
  }


  /** A value not below any element extends a non-ascending sequence at its
      front. */
  lemma PrependMaximum<T>(less: (T, T) -> bool, out: seq<T>, x: T)
    requires SortedDesc(less, out)
    requires forall i :: 0 <= i < |out| ==> !less(x, out[i])
    ensures SortedDesc(less, [x] + out)
  {
  }

  /** `backward_merge`: merges the bitonic `src` smallest element first,
      writing from the right end of the destination block down. The block
      is returned: a non-ascending permutation of `src`. */
  method BackwardMerge<T(!new)>(src: seq<T>, less: (T, T) -> bool) returns (r: seq<T>)
    requires StrictWeakOrder(less)
    requires 1 <= |src|
    requires Bitonic(less, src)
    ensures |r| == |src|
    ensures SortedDesc(less, r)
    ensures multiset(r) == multiset(src)
  {
    ghost var m :| AscDesc(less, src, 0, m, |src|);
    var first, last := 0, |src| - 1;
    var len := last - first;
    r := [];
    assert src[first..last + 1] == src;
    while len > 0
      invariant Merging(less, src, first, last, m, r) && len == last - first
      invariant SortedDesc(less, r)
    {
      var x;
      x, first, last, m := TakeSmallerEnd(src, first, last, m, r, true, less);
      PrependMaximum(less, r, x);
      r := [x] + r;
      len := len - 1;
    }
    LastElement(less, src, first, last, m, r);
    PrependMaximum(less, r, src[first]);
    r := [src[first]] + r;
  }

  // ---------------------------------------------------------------------
  // small_sort_network
  // ---------------------------------------------------------------------

  /** A rising block followed by a falling block is bitonic. */
  lemma RiseThenFall<T>(less: (T, T) -> bool, u: seq<T>, v: seq<T>)
    requires Sorted(less, u) && SortedDesc(less, v)
    ensures Bitonic(less, u + v)
  {
    var s := u + v;
    assert s[..|u|] == u && s[|u|..] == v;
    assert AscDesc(less, s, 0, |u|, |s|);
  }

  /** What `enforce_order` leaves in a range of 9 to 32 elements: a
      permutation whose first window, and second window if any, is bitonic. */
  lemma EnforcedWindows<T>(less: (T, T) -> bool, a: seq<T>, e: seq<T>)
    requires |e| == |a| && 8 < |a| <= 32
    requires forall c :: 0 <= c && 8 * c < |a| ==> BlockOrdered(less, a, e, c)
    ensures multiset(e) == multiset(a)
    ensures |a| <= 16 ==> Bitonic(less, e)
    ensures |a| > 16 ==> Bitonic(less, e[..16]) && Bitonic(less, e[16..])
  {
    BlocksBitonic(less, a, e, 0);
    if |a| <= 16 {
      assert e[0..|a|] == e && a[0..|a|] == a;
    } else {
      BlocksBitonic(less, a, e, 2);
      assert e[..16] == e[0..16] && e[16..] == e[16..|a|] && a[16..|a|] == a[16..];
      assert e == e[0..16] + e[16..] && a == a[0..16] + a[16..];
    }
  }

  /** The merge phase of `small_sort_network` for two bitonic windows: the
      first is merged upwards into scratch[0, 16) and the second downwards
      into scratch[16, len), so the scratch block is bitonic as a whole and
      merges back into the range. */
  method MergeTwoWindows<T(!new)>(e: seq<T>, less: (T, T) -> bool) returns (r: seq<T>)
    requires StrictWeakOrder(less)
    requires SortAux.BITONIC_BATCH < |e| <= SortAux.SMALL_SORT_NETWORK_SCRATCH_LEN
    requires Bitonic(less, e[..16]) && Bitonic(less, e[16..])
    ensures |r| == |e| && Sorted(less, r) && multiset(r) == multiset(e)
  {
    var lower := ForwardMerge(e[..16], less);
    var upper := BackwardMerge(e[16..], less);
    RiseThenFall(less, lower, upper);
    assert e == e[..16] + e[16..];
    r := ForwardMerge(lower + upper, less);
  }

  /** `small_sort_network`: a sorted permutation of up to 32 elements. Up
      to 8 go through one network; otherwise the blocks left by
      `enforce_order` are merged through a 32-slot scratch buffer (the
      merged blocks are the values written there). */
  method SmallSortNetwork<T(!new)>(a: seq<T>, less: (T, T) -> bool) returns (r: seq<T>)
    requires StrictWeakOrder(less)
    requires |a| <= SortAux.SMALL_SORT_NETWORK_SCRATCH_LEN
    ensures |r| == |a|
    ensures Sorted(less, r)
    ensures multiset(r) == multiset(a)
  {
    if |a| <= SortAux.BATCH {
      r := SortUpTo8(a, less, Ascending);
      return;
    }
    var e := EnforceOrder(a, less);
    EnforcedWindows(less, a, e);
    if |a| <= SortAux.BITONIC_BATCH {
      r := ForwardMerge(e, less);
    } else {
      r := MergeTwoWindows(e, less);
    }
  }
}
