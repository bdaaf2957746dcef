/**
 * Ordering vocabulary shared by every routine of the sorter: the strict weak
 * order a comparator must be, sortedness in both directions, strictly
 * descending runs, and a value-level notion of stability.
 *
 * The C++ routines take a comparator `comp(a, b)` meaning "a is strictly less
 * than b"; here it is the function parameter `less`.
 */
module Order {

  /** `less` is a strict weak order: irreflexive, transitive, and such that
      incomparability is transitive (stated as negative transitivity: whenever
      x < z, every y lies above x or below z). */
  ghost predicate StrictWeakOrder<T(!new)>(less: (T, T) -> bool) {
    && (forall x :: !less(x, x))
    && (forall x, y, z {:trigger Triple(x, y, z)} :: less(x, y) && less(y, z) ==> less(x, z))
    && (forall x, y, z {:trigger Triple(x, y, z)} :: less(x, z) ==> less(x, y) || less(y, z))
  }

  /** Names a triple of elements. The transitivity laws above fire only for
      triples named this way (through `LessLe`), which keeps the solver from
      chaining them over every comparison in sight. */
  ghost predicate Triple<T>(x: T, y: T, z: T) {
    true
  }

  /** Neither element is less than the other. */
  predicate Equiv<T>(less: (T, T) -> bool, x: T, y: T) {
    !less(x, y) && !less(y, x)
  }

  /** Non-descending order: no element is less than one before it. */
  ghost predicate Sorted<T>(less: (T, T) -> bool, s: seq<T>) {
    forall i, j :: 0 <= i < j < |s| ==> !less(s[j], s[i])
  }

  /** Non-ascending order: no element is less than one after it. */
  ghost predicate SortedDesc<T>(less: (T, T) -> bool, s: seq<T>) {
    forall i, j :: 0 <= i < j < |s| ==> !less(s[i], s[j])
  }

  /** Every element is strictly less than its predecessor. */
  ghost predicate StrictlyDescending<T>(less: (T, T) -> bool, s: seq<T>) {
    forall i :: 0 < i < |s| ==> less(s[i], s[i - 1])
  }

  /** Each adjacent pair is in order. */
  ghost predicate AdjacentSorted<T>(less: (T, T) -> bool, s: seq<T>) {
    forall i :: 0 < i < |s| ==> !less(s[i], s[i - 1])
  }

  /** Every element of `s` is at least `x`. */
  ghost predicate AllAtLeast<T>(less: (T, T) -> bool, s: seq<T>, x: T) {
    forall i :: 0 <= i < |s| ==> !less(s[i], x)
  }

  /** No element of `u` is greater than an element of `v`. */
  ghost predicate AllBelow<T>(less: (T, T) -> bool, u: seq<T>, v: seq<T>) {
    forall i, j :: 0 <= i < |u| && 0 <= j < |v| ==> !less(v[j], u[i])
  }

  /** The elements of `s` equivalent to `x`, in the order they have in `s`. */
  function Filter<T>(less: (T, T) -> bool, s: seq<T>, x: T): (r: seq<T>)
    ensures |r| <= |s|
  {
    if s == [] then []
    else Filter(less, s[..|s| - 1], x) + (if Equiv(less, s[|s| - 1], x) then [s[|s| - 1]] else [])
  }

  /** `output` keeps, for every equivalence class, the order that class has in
      `input`. Together with sortedness this is what a stable sort promises. */
  ghost predicate Stable<T(!new)>(less: (T, T) -> bool, input: seq<T>, output: seq<T>) {
    forall x :: Filter(less, output, x) == Filter(less, input, x)
  }

  /** Non-strict transitivity through a strict step. */
  lemma LessLe<T(!new)>(less: (T, T) -> bool, x: T, y: T, z: T)
    requires StrictWeakOrder(less)
    ensures less(x, y) && !less(z, y) ==> less(x, z)
    ensures !less(y, x) && less(y, z) ==> less(x, z)
    ensures !less(y, x) && !less(z, y) ==> !less(z, x)
    ensures less(x, y) ==> !less(y, x)
  {
    assert Triple(x, y, z) && Triple(z, y, x) && Triple(x, z, y) && Triple(y, x, z) && Triple(z, x, y) && Triple(y, z, x) && Triple(x, y, x);
  }

  /** Adjacent order is enough for sortedness under a strict weak order. */
  lemma {:induction false} AdjacentIsSorted<T(!new)>(less: (T, T) -> bool, s: seq<T>)
    requires StrictWeakOrder(less)
    requires AdjacentSorted(less, s)
    ensures Sorted(less, s)
  {
    if |s| > 1 {
      var p := s[..|s| - 1];
      assert AdjacentSorted(less, p);
      AdjacentIsSorted(less, p);
      forall i, j | 0 <= i < j < |s| ensures !less(s[j], s[i]) {
        if j < |s| - 1 {
          assert p[i] == s[i] && p[j] == s[j];
        } else if i < |s| - 2 {
          assert p[i] == s[i] && p[|s| - 2] == s[|s| - 2];
          LessLe(less, s[i], s[|s| - 2], s[j]);
        }
      }
    }
  }

  /** A strictly descending sequence read backwards is sorted. */
  lemma StrictlyDescendingReversed<T(!new)>(less: (T, T) -> bool, s: seq<T>)
    requires StrictWeakOrder(less)
    requires StrictlyDescending(less, s)
    ensures Sorted(less, Reverse(s))
  {
    var r := Reverse(s);
    forall i | 0 < i < |r| ensures !less(r[i], r[i - 1]) {
      assert r[i] == s[|s| - 1 - i] && r[i - 1] == s[|s| - i];
      LessLe(less, r[i - 1], r[i], r[i]);
    }
    AdjacentIsSorted(less, r);
  }

  /** The sequence read backwards (what `std::reverse` leaves in a range). */
  function Reverse<T>(s: seq<T>): (r: seq<T>)
    ensures |r| == |s|
    ensures forall i :: 0 <= i < |s| ==> r[i] == s[|s| - 1 - i]
    ensures multiset(r) == multiset(s)
  {
    if s == [] then []
    else
      assert s == [s[0]] + s[1..];
      Reverse(s[1..]) + [s[0]]
  }

  /** Sorted blocks whose elements are in order across the boundary form a
      sorted concatenation. */
  lemma SortedConcat<T>(less: (T, T) -> bool, u: seq<T>, v: seq<T>)
    requires Sorted(less, u) && Sorted(less, v) && AllBelow(less, u, v)
    ensures Sorted(less, u + v)
  {
    forall i, j | 0 <= i < j < |u + v| ensures !less((u + v)[j], (u + v)[i]) {
      if j < |u| {
      } else if i >= |u| {
        assert (u + v)[j] == v[j - |u|] && (u + v)[i] == v[i - |u|];
      } else {
        assert (u + v)[j] == v[j - |u|] && (u + v)[i] == u[i];
      }
    }
  }

  /** A property of every element survives any permutation. */
  lemma PermutationKeepsAll<T>(a: seq<T>, b: seq<T>, p: T -> bool)
    requires multiset(a) == multiset(b)
    requires forall i :: 0 <= i < |a| ==> p(a[i])
    ensures forall i :: 0 <= i < |b| ==> p(b[i])
  {
    forall i | 0 <= i < |b| ensures p(b[i]) {
      assert b[i] in multiset(b);
      assert b[i] in multiset(a);
      var k :| 0 <= k < |a| && a[k] == b[i];
    }
  }

  /** Permutations of two blocks keep every cross-block order fact. */
  lemma PermutationKeepsBelow<T>(less: (T, T) -> bool, u: seq<T>, v: seq<T>, u': seq<T>, v': seq<T>)
    requires multiset(u) == multiset(u') && multiset(v) == multiset(v')
    requires AllBelow(less, u, v)
    ensures AllBelow(less, u', v')
  {
    forall i, j | 0 <= i < |u'| && 0 <= j < |v'| ensures !less(v'[j], u'[i]) {
      assert u'[i] in multiset(u);
      assert v'[j] in multiset(v);
      var k :| 0 <= k < |u| && u[k] == u'[i];
      var l :| 0 <= l < |v| && v[l] == v'[j];
    }
  }

  /** Order facts against a concatenation are order facts against each
      part. */
  lemma AllBelowSplit<T>(less: (T, T) -> bool, u: seq<T>, v: seq<T>, w: seq<T>)
    requires AllBelow(less, u, v + w)
    ensures AllBelow(less, u, v) && AllBelow(less, u, w)
  {
    forall i, j | 0 <= i < |u| && 0 <= j < |v| ensures !less(v[j], u[i]) {
      assert v[j] == (v + w)[j];
    }
    forall i, j | 0 <= i < |u| && 0 <= j < |w| ensures !less(w[j], u[i]) {
      assert w[j] == (v + w)[|v| + j];
    }
  }

  /** Two blocks below a third form a concatenation below it. */
  lemma AllBelowJoin<T>(less: (T, T) -> bool, u: seq<T>, v: seq<T>, w: seq<T>)
    requires AllBelow(less, u, w) && AllBelow(less, v, w)
    ensures AllBelow(less, u + v, w)
  {
    forall i, j | 0 <= i < |u + v| && 0 <= j < |w| ensures !less(w[j], (u + v)[i]) {
      if i >= |u| {
        assert (u + v)[i] == v[i - |u|];
      }
    }
  }

  /** Appending one element extends the filter by at most that element. */
  lemma FilterAppend<T>(less: (T, T) -> bool, s: seq<T>, e: T, x: T)
    ensures Filter(less, s + [e], x) == Filter(less, s, x) + (if Equiv(less, e, x) then [e] else [])
  {
    assert (s + [e])[..|s + [e]| - 1] == s;
  }

  /** The filter of a concatenation is the concatenation of the filters. */
  lemma {:induction false} FilterConcat<T>(less: (T, T) -> bool, u: seq<T>, v: seq<T>, x: T)
    ensures Filter(less, u + v, x) == Filter(less, u, x) + Filter(less, v, x)
  {
    if v == [] {
      assert u + v == u;
    } else {
      var w := v[..|v| - 1];
      var e := v[|v| - 1];
      assert v == w + [e];
      assert u + v == (u + w) + [e];
      FilterConcat(less, u, w, x);
      FilterAppend(less, u + w, e, x);
      FilterAppend(less, w, e, x);
    }
  }

  /** A block whose elements are all strictly greater than `x` contributes
      nothing to the class of `x`. */
  lemma {:induction false} FilterAllAbove<T>(less: (T, T) -> bool, s: seq<T>, x: T)
    requires forall i :: 0 <= i < |s| ==> less(x, s[i])
    ensures Filter(less, s, x) == []
  {
    if s != [] {
      FilterAllAbove(less, s[..|s| - 1], x);
    }
  }

  /** Moving `e` in front of a block of strictly greater elements keeps every
      equivalence class in order; this is the step of every stable insertion. */
  lemma InsertBeforeGreater<T(!new)>(less: (T, T) -> bool, u: seq<T>, e: T, w: seq<T>)
    requires StrictWeakOrder(less)
    requires forall i :: 0 <= i < |w| ==> less(e, w[i])
    ensures Stable(less, u + w + [e], u + [e] + w)
  {
    forall x ensures Filter(less, u + [e] + w, x) == Filter(less, u + w + [e], x) {
      FilterConcat(less, u + [e], w, x);
      FilterAppend(less, u, e, x);
      FilterAppend(less, u + w, e, x);
      FilterConcat(less, u, w, x);
      if Equiv(less, e, x) {
        forall i | 0 <= i < |w| ensures less(x, w[i]) {
          LessLe(less, x, e, w[i]);
        }
        FilterAllAbove(less, w, x);
      }
    }
  }

  /** Appending one unmoved element to a stably sorted block. */
  lemma StableExtend<T(!new)>(less: (T, T) -> bool, a: seq<T>, b: seq<T>, e: T)
    requires Stable(less, a, b)
    ensures Stable(less, a + [e], b + [e])
  {
    forall x ensures Filter(less, b + [e], x) == Filter(less, a + [e], x) {
      FilterAppend(less, a, e, x);
      FilterAppend(less, b, e, x);
    }
  }

  /** Moving the value at `j` into the hole at `i` moves the hole to `j`:
      with the held-aside value put back in the hole, nothing changes. */
  lemma MoveHole<T>(r: seq<T>, i: nat, j: nat, tmp: T)
    requires i < |r| && j < |r| && i != j
    ensures multiset(r[i := r[j]][j := tmp]) == multiset(r[i := tmp])
  {
    var a, b := r[i := r[j]][j := tmp], r[i := tmp];
    assert a == b[i := r[j]][j := tmp];
    assert b[j] == r[j];
  }

  /** Stability composes. */
  lemma StableTrans<T(!new)>(less: (T, T) -> bool, a: seq<T>, b: seq<T>, c: seq<T>)
    requires Stable(less, a, b) && Stable(less, b, c)
    ensures Stable(less, a, c)
  {
  }

  /** Stability of two blocks gives stability of their concatenation. */
  lemma StableConcat<T(!new)>(less: (T, T) -> bool, u: seq<T>, v: seq<T>, u': seq<T>, v': seq<T>)
    requires Stable(less, u, u') && Stable(less, v, v')
    ensures Stable(less, u + v, u' + v')
  {
    forall x ensures Filter(less, u' + v', x) == Filter(less, u + v, x) {
      FilterConcat(less, u, v, x);
      FilterConcat(less, u', v', x);
    }
  }
}
