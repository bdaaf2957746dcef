/**
 * The heap-sort fallback of the quicksort engine: `sift_down` restores a
 * max-heap below one node, and `heap_sort` runs one loop that first builds
 * the heap bottom-up and then repeatedly swaps the root behind the heap.
 *
 * The heap is implicit: the children of node `p` are `2p + 1` and `2p + 2`.
 */
module Heap {
  import opened Order

  /** The parent of node `c > 0`. */
  function Parent(c: nat): (p: int)
    ensures c > 0 ==> 0 <= p < c && (c == 2 * p + 1 || c == 2 * p + 2)
  {
    (c - 1) / 2
  }

  /** Node `c` is not greater than its parent. */
  ghost predicate ParentOk<T>(less: (T, T) -> bool, s: seq<T>, c: nat)
    requires 0 < c < |s|
  {
    !less(s[Parent(c)], s[c])
  }

  /** The max-heap property for every parent at index `lo` or above. The
      whole sequence is a max-heap when `lo` is 0. */
  ghost predicate HeapFrom<T>(less: (T, T) -> bool, s: seq<T>, lo: nat) {
    forall c {:trigger ParentOk(less, s, c)} :: 0 < c < |s| && lo <= Parent(c) ==> ParentOk(less, s, c)
  }

  /** The root of a max-heap is not less than any node. */
  lemma {:induction false} RootIsMax<T(!new)>(less: (T, T) -> bool, s: seq<T>, i: nat)
    requires StrictWeakOrder(less)
    requires HeapFrom(less, s, 0) && i < |s|
    ensures !less(s[0], s[i])
    decreases i
  {
    if i == 0 {
      assert !less(s[0], s[0]);
    } else {
      var p := Parent(i);
      RootIsMax(less, s, p);
      assert ParentOk(less, s, i);
      LessLe(less, s[i], s[p], s[0]);
    }
  }

  /** The state of the `sift_down` loop: `tmp` is held aside and `node` is
      the hole. Every parent at `start` or above is in order except `start`
      itself while the hole is still there, and once the hole has moved
      down, `tmp` is strictly less than the hole's parent. */
  ghost predicate Sifting<T>(less: (T, T) -> bool, s: seq<T>, r: seq<T>, start: nat, node: nat, tmp: T) {
    && start <= node < |r| == |s|
    && r[..start] == s[..start]
    && multiset(r[node := tmp]) == multiset(s)
    && HeapFrom(less, r, if node == start then start + 1 else start)
    && (node != start ==> start <= Parent(node) && less(tmp, r[Parent(node)]))
  }

  /** One round of `sift_down`: the larger child moves up into the hole. */
  lemma SiftStep<T(!new)>(less: (T, T) -> bool, s: seq<T>, r: seq<T>, start: nat, node: nat, child: nat, tmp: T)
    requires StrictWeakOrder(less)
    requires Sifting(less, s, r, start, node, tmp)
    requires child == 2 * node + 1 || child == 2 * node + 2
    requires child < |r| && less(tmp, r[child])
    requires child == 2 * node + 2 ==> less(r[2 * node + 1], r[child])
    requires child == 2 * node + 1 && child + 1 < |r| ==> !less(r[child], r[child + 1])
    ensures Sifting(less, s, r[node := r[child]], start, child, tmp)
  {
    var r' := r[node := r[child]];
    assert Parent(child) == node;
    MoveHole(r, node, child, tmp);
    assert r'[..start] == r[..start];
    forall c | 0 < c < |r'| && start <= Parent(c) ensures ParentOk(less, r', c) {
      var p := Parent(c);
      if c == node {
        assert ParentOk(less, r, node) && ParentOk(less, r, child);
        LessLe(less, r[child], r[node], r[p]);
      } else if p == node {
        if c != child {
          LessLe(less, r[c], r[child], r[child]);
        }
      } else {
        assert ParentOk(less, r, c);
      }
    }
  }

  /** The hole is filled with `tmp` once no larger child remains. */
  lemma SiftFinish<T(!new)>(less: (T, T) -> bool, s: seq<T>, r: seq<T>, start: nat, node: nat, tmp: T)
    requires StrictWeakOrder(less)
    requires Sifting(less, s, r, start, node, tmp)
    requires 2 * node + 1 < |r| ==> !less(tmp, r[2 * node + 1])
    requires 2 * node + 2 < |r| ==> !less(tmp, r[2 * node + 2])
    ensures HeapFrom(less, r[node := tmp], start)
    ensures multiset(r[node := tmp]) == multiset(s)
    ensures r[node := tmp][..start] == s[..start]
  {
    var r' := r[node := tmp];
    forall c | 0 < c < |r'| && start <= Parent(c) ensures ParentOk(less, r', c) {
      var p := Parent(c);
      if c == node {
        LessLe(less, tmp, r[p], r[p]);
      } else if p != node {
        assert ParentOk(less, r, c);
      }
    }
  }

  /** `sift_down`: with every parent below `node` (at a higher index)
      already in order, moves the value at `node` down until it is not less
      than its larger child. The result is a permutation, in order from
      `node` on, and nothing before `node` changes. */
  method SiftDown<T(!new)>(s: seq<T>, node: nat, less: (T, T) -> bool) returns (r: seq<T>)
    requires StrictWeakOrder(less)
    requires node < |s| && HeapFrom(less, s, node + 1)
    ensures |r| == |s| && multiset(r) == multiset(s)
    ensures HeapFrom(less, r, node)
    ensures r[..node] == s[..node]
  {
    var start, hole := node, node;
    var tmp := s[hole];
    r := s;
    assert r[hole := tmp] == s;
    while true
      invariant Sifting(less, s, r, start, hole, tmp)
      decreases |r| - hole
    {
      var child := 2 * hole + 1;
      if child >= |r| {
        break;
      }
      if child + 1 < |r| && less(r[child], r[child + 1]) {
        child := child + 1;
      }
      if !less(tmp, r[child]) {
        if child == 2 * hole + 2 {
          LessLe(less, r[2 * hole + 1], r[child], tmp);
        } else if child + 1 < |r| {
          LessLe(less, r[child + 1], r[child], tmp);
        }
        break;
      }
      SiftStep(less, s, r, start, hole, child, tmp);
      r := r[hole := r[child]];
      hole := child;
    }
    SiftFinish(less, s, r, start, hole, tmp);
    r := r[hole := tmp];
  }

  /** The sorting phase of `heap_sort` for one `idx`: the root of the heap
      [0, idx] is its maximum, so swapping it to `idx` extends the sorted
      tail, and the new heap [0, idx) is in order except at its root. */
  lemma SwapRoot<T(!new)>(less: (T, T) -> bool, r: seq<T>, idx: nat)
    requires StrictWeakOrder(less)
    requires 0 < idx < |r|
    requires HeapFrom(less, r[..idx + 1], 0)
    requires Sorted(less, r[idx + 1..]) && AllBelow(less, r[..idx + 1], r[idx + 1..])
    ensures var w := r[0 := r[idx]][idx := r[0]];
      && multiset(w) == multiset(r)
      && HeapFrom(less, w[..idx], 1)
      && Sorted(less, w[idx..])
      && AllBelow(less, w[..idx], w[idx..])
  {
    var h := r[..idx + 1];
    var w := r[0 := r[idx]][idx := r[0]];
    forall c | 0 < c < |w[..idx]| && 1 <= Parent(c) ensures ParentOk(less, w[..idx], c) {
      assert ParentOk(less, h, c);
    }
    forall i | 0 <= i <= idx ensures !less(r[0], h[i]) {
      RootIsMax(less, h, i);
    }
    assert w[idx..] == [r[0]] + r[idx + 1..];
    var t := r[idx + 1..];
    forall j | 0 <= j < |t| ensures !less(t[j], r[0]) {
      assert h[0] == r[0];
    }
    assert AllBelow(less, [r[0]], t);
    SortedConcat(less, [r[0]], t);
    forall i, j | 0 <= i < idx && 0 <= j < |w[idx..]| ensures !less(w[idx..][j], w[..idx][i]) {
      var k := if i == 0 then idx else i;
      assert w[..idx][i] == h[k];
      if j > 0 {
        assert w[idx..][j] == t[j - 1];
      }
    }
  }

  /** The end of one sorting round: the sifted heap and the tail. */
  lemma SortRound<T>(less: (T, T) -> bool, w: seq<T>, h: seq<T>, idx: nat)
    requires idx <= |w| && |h| == idx
    requires multiset(h) == multiset(w[..idx])
    requires Sorted(less, w[idx..]) && AllBelow(less, w[..idx], w[idx..])
    ensures multiset(h + w[idx..]) == multiset(w)
    ensures (h + w[idx..])[..idx] == h && (h + w[idx..])[idx..] == w[idx..]
    ensures AllBelow(less, h, w[idx..])
  {
    assert w == w[..idx] + w[idx..];
    PermutationKeepsBelow(less, w[..idx], w[idx..], h, w[idx..]);
  }

  /** The invariant of the `heap_sort` loop before the round for `idx`:
      while `idx >= len` the heap is being built and every parent above
      `idx - len` is in order; afterwards [0, idx] is a max-heap, the rest is
      sorted, and no heap element exceeds a tail element. */
  ghost predicate HeapSortState<T>(less: (T, T) -> bool, a: seq<T>, r: seq<T>, idx: nat) {
    && |r| == |a| && multiset(r) == multiset(a)
    && (idx >= |r| ==> HeapFrom(less, r, idx - |r| + 1))
    && (idx < |r| ==>
          && HeapFrom(less, r[..idx + 1], 0)
          && Sorted(less, r[idx + 1..])
          && AllBelow(less, r[..idx + 1], r[idx + 1..]))
  }

  /** `heap_sort` (for at least two elements): a sorted permutation. One
      loop runs `idx` from `len + len / 2` down to 1; for `idx >= len` it
      sifts node `idx - len` of the whole range, and below that it swaps the
      root to `idx` and sifts the root of [0, idx). */
  method HeapSort<T(!new)>(a: seq<T>, less: (T, T) -> bool) returns (r: seq<T>)
    requires StrictWeakOrder(less)
    requires |a| >= 2
    ensures |r| == |a|
    ensures Sorted(less, r)
    ensures multiset(r) == multiset(a)
  {
    var len := |a|;
    r := a;
    var idx: nat := len + len / 2;
    while idx > 0
      invariant HeapSortState(less, a, r, idx)
      decreases idx
    {
      if idx >= len {
        r := SiftDown(r, idx - len, less);
        if idx == len {
          assert r[..idx] == r && r[idx..] == [];
        }
      } else {
        SwapRoot(less, r, idx);
        var w := r[0 := r[idx]][idx := r[0]];
        var h := SiftDown(w[..idx], 0, less);
        SortRound(less, w, h, idx);
        r := h + w[idx..];
      }
      idx := idx - 1;
    }
    assert r == r[..1] + r[1..];
    SortedConcat(less, r[..1], r[1..]);
  }
}
