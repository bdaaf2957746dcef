/**
 * The compare-exchange primitives and the fixed sorting networks for 1 to 8
 * elements (`sort2_optimal` ... `sort8_optimal`, `sort1to8`).
 *
 * Correctness of the networks is proved by the 0-1 principle: mapping every
 * element x to the boolean `less(t, x)` commutes with compare-exchange for a
 * strict weak order, and on booleans the solver checks each network outright.
 */
module Networks {
  import opened Order

  /** `conditional_swap` puts the smaller element first; `reverse_conditional_swap`
      puts the greater element first. */
  datatype SwapKind = Ascending | Descending

  /** One compare-exchange on positions i < j, written like the branchless
      source: both slots are assigned, from a selection on one comparison.
      `conditional_swap` keeps the pair exactly when less(s[i], s[j]);
      `reverse_conditional_swap` exchanges it exactly when less(s[i], s[j]). */
  function CondSwap<T>(s: seq<T>, i: nat, j: nat, less: (T, T) -> bool, kind: SwapKind): (r: seq<T>)
    requires i < j < |s|
    ensures |r| == |s|
  {
    var keep := if kind == Ascending then less(s[i], s[j]) else !less(s[i], s[j]);
    s[i := if keep then s[i] else s[j]][j := if keep then s[j] else s[i]]
  }

  /** After a compare-exchange the pair holds the same two values, in order
      for its kind, and nothing else moved. */
  lemma CondSwapSpec<T(!new)>(s: seq<T>, i: nat, j: nat, less: (T, T) -> bool, kind: SwapKind)
    requires StrictWeakOrder(less)
    requires i < j < |s|
    ensures var r := CondSwap(s, i, j, less, kind);
      && multiset{r[i], r[j]} == multiset{s[i], s[j]}
      && (forall k :: 0 <= k < |s| && k != i && k != j ==> r[k] == s[k])
      && (kind == Ascending ==> !less(r[j], r[i]))
      && (kind == Descending ==> !less(r[i], r[j]))
      && multiset(r) == multiset(s)
  {
    CondSwapPermutes(s, i, j, less, kind);
    LessLe(less, s[i], s[j], s[j]);
    LessLe(less, s[j], s[i], s[i]);
  }

  lemma CondSwapPermutes<T>(s: seq<T>, i: nat, j: nat, less: (T, T) -> bool, kind: SwapKind)
    requires i < j < |s|
    ensures multiset(CondSwap(s, i, j, less, kind)) == multiset(s)
  {
    var keep := if kind == Ascending then less(s[i], s[j]) else !less(s[i], s[j]);
    if !keep {
      assert CondSwap(s, i, j, less, kind) == s[i := s[j]][j := s[i]];
    } else {
      assert CondSwap(s, i, j, less, kind) == s;
    }
  }

  lemma CondSwapPermutesAll<T>(less: (T, T) -> bool, kind: SwapKind)
    ensures forall s: seq<T>, i: nat, j: nat | i < j < |s| ::
      multiset(CondSwap(s, i, j, less, kind)) == multiset(s)
  {
    forall s: seq<T>, i: nat, j: nat | i < j < |s|
      ensures multiset(CondSwap(s, i, j, less, kind)) == multiset(s)
    {
      CondSwapPermutes(s, i, j, less, kind);
    }
  }

  // ---------------------------------------------------------------------
  // The networks, wired as in the source
  // ---------------------------------------------------------------------

  function Sort2<T>(s: seq<T>, less: (T, T) -> bool, kind: SwapKind): (r: seq<T>)
    requires |s| == 2
    ensures |r| == 2
  {
    CondSwap(s, 0, 1, less, kind)
  }

  function Sort3<T>(s: seq<T>, less: (T, T) -> bool, kind: SwapKind): (r: seq<T>)
    requires |s| == 3
    ensures |r| == 3
  {
    var s := CondSwap(s, 1, 2, less, kind);
    var s := CondSwap(s, 0, 2, less, kind);
    CondSwap(s, 0, 1, less, kind)
  }

  function Sort4<T>(s: seq<T>, less: (T, T) -> bool, kind: SwapKind): (r: seq<T>)
    requires |s| == 4
    ensures |r| == 4
  {
    var s := CondSwap(s, 0, 1, less, kind);
    var s := CondSwap(s, 2, 3, less, kind);
    var s := CondSwap(s, 0, 2, less, kind);
    var s := CondSwap(s, 1, 3, less, kind);
    CondSwap(s, 1, 2, less, kind)
  }

  function Sort5<T>(s: seq<T>, less: (T, T) -> bool, kind: SwapKind): (r: seq<T>)
    requires |s| == 5
    ensures |r| == 5
  {
    var s := CondSwap(s, 0, 1, less, kind);
    var s := CondSwap(s, 3, 4, less, kind);
    var s := CondSwap(s, 2, 4, less, kind);
    var s := CondSwap(s, 2, 3, less, kind);
    var s := CondSwap(s, 0, 3, less, kind);
    var s := CondSwap(s, 1, 4, less, kind);
    var s := CondSwap(s, 0, 2, less, kind);
    var s := CondSwap(s, 1, 3, less, kind);
    CondSwap(s, 1, 2, less, kind)
  }

  function Sort6<T>(s: seq<T>, less: (T, T) -> bool, kind: SwapKind): (r: seq<T>)
    requires |s| == 6
    ensures |r| == 6
  {
    var s := CondSwap(s, 1, 2, less, kind);
    var s := CondSwap(s, 4, 5, less, kind);
    var s := CondSwap(s, 0, 2, less, kind);
    var s := CondSwap(s, 3, 5, less, kind);
    var s := CondSwap(s, 0, 1, less, kind);
    var s := CondSwap(s, 3, 4, less, kind);
    var s := CondSwap(s, 0, 3, less, kind);
    var s := CondSwap(s, 1, 4, less, kind);
    var s := CondSwap(s, 2, 5, less, kind);
    var s := CondSwap(s, 2, 4, less, kind);
    var s := CondSwap(s, 1, 3, less, kind);
    CondSwap(s, 2, 3, less, kind)
  }

  function Sort7<T>(s: seq<T>, less: (T, T) -> bool, kind: SwapKind): (r: seq<T>)
    requires |s| == 7
    ensures |r| == 7
  {
    var s := CondSwap(s, 1, 2, less, kind);
    var s := CondSwap(s, 3, 4, less, kind);
    var s := CondSwap(s, 5, 6, less, kind);
    var s := CondSwap(s, 0, 2, less, kind);
    var s := CondSwap(s, 3, 5, less, kind);
    var s := CondSwap(s, 4, 6, less, kind);
    var s := CondSwap(s, 0, 1, less, kind);
    var s := CondSwap(s, 4, 5, less, kind);
    var s := CondSwap(s, 0, 4, less, kind);
    var s := CondSwap(s, 1, 5, less, kind);
    var s := CondSwap(s, 2, 6, less, kind);
    var s := CondSwap(s, 0, 3, less, kind);
    var s := CondSwap(s, 2, 5, less, kind);
    var s := CondSwap(s, 1, 3, less, kind);
    var s := CondSwap(s, 2, 4, less, kind);
    CondSwap(s, 2, 3, less, kind)
  }

  /** The first ten exchanges of `sort8_optimal`: each half of four is
      sorted on its own. */
  function Sort8Halves<T>(s: seq<T>, less: (T, T) -> bool, kind: SwapKind): (r: seq<T>)
    requires |s| == 8
    ensures |r| == 8
  {
    var s := CondSwap(s, 0, 1, less, kind);
    var s := CondSwap(s, 2, 3, less, kind);
    var s := CondSwap(s, 4, 5, less, kind);
    var s := CondSwap(s, 6, 7, less, kind);
    var s := CondSwap(s, 0, 2, less, kind);
    var s := CondSwap(s, 1, 3, less, kind);
    var s := CondSwap(s, 4, 6, less, kind);
    var s := CondSwap(s, 5, 7, less, kind);
    var s := CondSwap(s, 1, 2, less, kind);
    CondSwap(s, 5, 6, less, kind)
  }

  /** The last nine exchanges of `sort8_optimal`: they merge the two sorted
      halves. */
  function Sort8Merge<T>(s: seq<T>, less: (T, T) -> bool, kind: SwapKind): (r: seq<T>)
    requires |s| == 8
    ensures |r| == 8
  {
    var s := CondSwap(s, 0, 4, less, kind);
    var s := CondSwap(s, 1, 5, less, kind);
    var s := CondSwap(s, 2, 6, less, kind);
    var s := CondSwap(s, 3, 7, less, kind);
    var s := CondSwap(s, 1, 4, less, kind);
    var s := CondSwap(s, 3, 6, less, kind);
    var s := CondSwap(s, 2, 4, less, kind);
    var s := CondSwap(s, 3, 5, less, kind);
    CondSwap(s, 3, 4, less, kind)
  }

  function Sort8<T>(s: seq<T>, less: (T, T) -> bool, kind: SwapKind): (r: seq<T>)
    requires |s| == 8
    ensures |r| == 8
  {
    Sort8Merge(Sort8Halves(s, less, kind), less, kind)
  }

  /** `sort1to8`: the network for the length; 0 and 1 elements are left alone. */
  function Sort1To8<T>(s: seq<T>, less: (T, T) -> bool, kind: SwapKind): (r: seq<T>)
    requires |s| <= 8
    ensures |r| == |s|
  {
    match |s|
    case 0 => s
    case 1 => s
    case 2 => Sort2(s, less, kind)
    case 3 => Sort3(s, less, kind)
    case 4 => Sort4(s, less, kind)
    case 5 => Sort5(s, less, kind)
    case 6 => Sort6(s, less, kind)
    case 7 => Sort7(s, less, kind)
    case 8 => Sort8(s, less, kind)
  }

  // ---------------------------------------------------------------------
  // 0-1 principle
  // ---------------------------------------------------------------------

  /** The order on booleans: false < true. */
  predicate BoolLess(x: bool, y: bool) {
    !x && y
  }

  /** Each element mapped to "is it above t". */
  function Threshold<T>(s: seq<T>, less: (T, T) -> bool, t: T): (r: seq<bool>)
    ensures |r| == |s|
    ensures forall k :: 0 <= k < |s| ==> r[k] == less(t, s[k])
  {
    seq(|s|, k requires 0 <= k < |s| => less(t, s[k]))
  }

  /** The threshold map is monotone, so it commutes with compare-exchange. */
  lemma CondSwapThreshold<T(!new)>(s: seq<T>, i: nat, j: nat, less: (T, T) -> bool, kind: SwapKind, t: T)
    requires StrictWeakOrder(less)
    requires i < j < |s|
    ensures Threshold(CondSwap(s, i, j, less, kind), less, t)
         == CondSwap(Threshold(s, less, t), i, j, BoolLess, kind)
  {
    var a := Threshold(CondSwap(s, i, j, less, kind), less, t);
    var b := CondSwap(Threshold(s, less, t), i, j, BoolLess, kind);
    forall k | 0 <= k < |a| ensures a[k] == b[k] {
      LessLe(less, t, s[i], s[j]);
      LessLe(less, t, s[j], s[i]);
    }
  }

  lemma CondSwapThresholdAll<T(!new)>(less: (T, T) -> bool, kind: SwapKind, t: T)
    requires StrictWeakOrder(less)
    ensures forall s: seq<T>, i: nat, j: nat | i < j < |s| ::
      Threshold(CondSwap(s, i, j, less, kind), less, t)
      == CondSwap(Threshold(s, less, t), i, j, BoolLess, kind)
  {
    forall s: seq<T>, i: nat, j: nat | i < j < |s|
      ensures Threshold(CondSwap(s, i, j, less, kind), less, t)
           == CondSwap(Threshold(s, less, t), i, j, BoolLess, kind)
    {
      CondSwapThreshold(s, i, j, less, kind, t);
    }
  }

  /** Every network commutes with every threshold map. */
  lemma Sort2Threshold<T(!new)>(s: seq<T>, less: (T, T) -> bool, kind: SwapKind, t: T)
    requires StrictWeakOrder(less)
    requires |s| == 2
    ensures Threshold(Sort2(s, less, kind), less, t) == Sort2(Threshold(s, less, t), BoolLess, kind)
  {
    CondSwapThresholdAll(less, kind, t);
  }

  lemma Sort3Threshold<T(!new)>(s: seq<T>, less: (T, T) -> bool, kind: SwapKind, t: T)
    requires StrictWeakOrder(less)
    requires |s| == 3
    ensures Threshold(Sort3(s, less, kind), less, t) == Sort3(Threshold(s, less, t), BoolLess, kind)
  {
    CondSwapThresholdAll(less, kind, t);
  }

  lemma Sort4Threshold<T(!new)>(s: seq<T>, less: (T, T) -> bool, kind: SwapKind, t: T)
    requires StrictWeakOrder(less)
    requires |s| == 4
    ensures Threshold(Sort4(s, less, kind), less, t) == Sort4(Threshold(s, less, t), BoolLess, kind)
  {
    CondSwapThresholdAll(less, kind, t);
  }

  lemma Sort5Threshold<T(!new)>(s: seq<T>, less: (T, T) -> bool, kind: SwapKind, t: T)
    requires StrictWeakOrder(less)
    requires |s| == 5
    ensures Threshold(Sort5(s, less, kind), less, t) == Sort5(Threshold(s, less, t), BoolLess, kind)
  {
    CondSwapThresholdAll(less, kind, t);
  }

  lemma Sort6Threshold<T(!new)>(s: seq<T>, less: (T, T) -> bool, kind: SwapKind, t: T)
    requires StrictWeakOrder(less)
    requires |s| == 6
    ensures Threshold(Sort6(s, less, kind), less, t) == Sort6(Threshold(s, less, t), BoolLess, kind)
  {
    CondSwapThresholdAll(less, kind, t);
  }

  lemma Sort7Threshold<T(!new)>(s: seq<T>, less: (T, T) -> bool, kind: SwapKind, t: T)
    requires StrictWeakOrder(less)
    requires |s| == 7
    ensures Threshold(Sort7(s, less, kind), less, t) == Sort7(Threshold(s, less, t), BoolLess, kind)
  {
    CondSwapThresholdAll(less, kind, t);
  }

  lemma Sort8Threshold<T(!new)>(s: seq<T>, less: (T, T) -> bool, kind: SwapKind, t: T)
    requires StrictWeakOrder(less)
    requires |s| == 8
    ensures Threshold(Sort8(s, less, kind), less, t) == Sort8(Threshold(s, less, t), BoolLess, kind)
  {
    CondSwapThresholdAll(less, kind, t);
  }

  lemma Sort1To8Threshold<T(!new)>(s: seq<T>, less: (T, T) -> bool, kind: SwapKind, t: T)
    requires StrictWeakOrder(less)
    requires |s| <= 8
    ensures Threshold(Sort1To8(s, less, kind), less, t) == Sort1To8(Threshold(s, less, t), BoolLess, kind)
  {
    match |s|
    case 0 =>
    case 1 =>
    case 2 => Sort2Threshold(s, less, kind, t);
    case 3 => Sort3Threshold(s, less, kind, t);
    case 4 => Sort4Threshold(s, less, kind, t);
    case 5 => Sort5Threshold(s, less, kind, t);
    case 6 => Sort6Threshold(s, less, kind, t);
    case 7 => Sort7Threshold(s, less, kind, t);
    case 8 => Sort8Threshold(s, less, kind, t);
  }

  /** Adjacent order of a boolean sequence in the direction of `kind`. */
  predicate BoolOrdered(b: seq<bool>, kind: SwapKind) {
    forall k :: 0 < k < |b| ==> if kind == Ascending then b[k - 1] ==> b[k] else b[k] ==> b[k - 1]
  }

  lemma Sort2Bools(b: seq<bool>, kind: SwapKind)
    requires |b| == 2
    ensures BoolOrdered(Sort2(b, BoolLess, kind), kind)
  {
  }

  lemma Sort3Bools(b: seq<bool>, kind: SwapKind)
    requires |b| == 3
    ensures BoolOrdered(Sort3(b, BoolLess, kind), kind)
  {
  }

  lemma Sort4Bools(b: seq<bool>, kind: SwapKind)
    requires |b| == 4
    ensures BoolOrdered(Sort4(b, BoolLess, kind), kind)
  {
  }

  lemma Sort5Bools(b: seq<bool>, kind: SwapKind)
    requires |b| == 5
    ensures BoolOrdered(Sort5(b, BoolLess, kind), kind)
  {
  }

  lemma Sort6Bools(b: seq<bool>, kind: SwapKind)
    requires |b| == 6
    ensures BoolOrdered(Sort6(b, BoolLess, kind), kind)
  {
  }

  lemma Sort7Bools(b: seq<bool>, kind: SwapKind)
    requires |b| == 7
    ensures BoolOrdered(Sort7(b, BoolLess, kind), kind)
  {
  }

  /** Both halves of four are ordered in the direction of `kind`. */
  predicate HalvesOrdered(b: seq<bool>, kind: SwapKind)
    requires |b| == 8
  {
    forall k :: 0 < k < 8 && k != 4 ==> if kind == Ascending then b[k - 1] ==> b[k] else b[k] ==> b[k - 1]
  }

  lemma Sort8HalvesBools(b: seq<bool>, kind: SwapKind)
    requires |b| == 8
    ensures HalvesOrdered(Sort8Halves(b, BoolLess, kind), kind)
  {
  }

  lemma Sort8MergeBools(b: seq<bool>, kind: SwapKind)
    requires |b| == 8 && HalvesOrdered(b, kind)
    ensures BoolOrdered(Sort8Merge(b, BoolLess, kind), kind)
  {
  }

  lemma Sort8Bools(b: seq<bool>, kind: SwapKind)
    requires |b| == 8
    ensures BoolOrdered(Sort8(b, BoolLess, kind), kind)
  {
    Sort8HalvesBools(b, kind);
    Sort8MergeBools(Sort8Halves(b, BoolLess, kind), kind);
  }

  /** Every network orders every boolean input. */
  lemma Sort1To8Bools(b: seq<bool>, kind: SwapKind)
    requires |b| <= 8
    ensures BoolOrdered(Sort1To8(b, BoolLess, kind), kind)
  {
    match |b|
    case 0 =>
    case 1 =>
    case 2 => Sort2Bools(b, kind);
    case 3 => Sort3Bools(b, kind);
    case 4 => Sort4Bools(b, kind);
    case 5 => Sort5Bools(b, kind);
    case 6 => Sort6Bools(b, kind);
    case 7 => Sort7Bools(b, kind);
    case 8 => Sort8Bools(b, kind);
  }

  /** Boolean adjacent order extends to every pair. */
  lemma {:induction false} BoolOrderedPairs(b: seq<bool>, kind: SwapKind, i: nat, j: nat)
    requires BoolOrdered(b, kind)
    requires i <= j < |b|
    ensures if kind == Ascending then b[i] ==> b[j] else b[j] ==> b[i]
    decreases j - i
  {
    if i < j {
      BoolOrderedPairs(b, kind, i + 1, j);
    }
  }

  /** The 0-1 principle for one output: if every threshold image is ordered,
      so is the sequence itself. */
  lemma ZeroOne<T(!new)>(r: seq<T>, less: (T, T) -> bool, kind: SwapKind)
    requires StrictWeakOrder(less)
    requires forall t :: BoolOrdered(Threshold(r, less, t), kind)
    ensures kind == Ascending ==> Sorted(less, r)
    ensures kind == Descending ==> SortedDesc(less, r)
  {
    forall i, j | 0 <= i < j < |r|
      ensures kind == Ascending ==> !less(r[j], r[i])
      ensures kind == Descending ==> !less(r[i], r[j])
    {
      BoolOrderedPairs(Threshold(r, less, r[j]), kind, i, j);
      BoolOrderedPairs(Threshold(r, less, r[i]), kind, i, j);
    }
  }

  lemma Sort2Permutes<T>(s: seq<T>, less: (T, T) -> bool, kind: SwapKind)
    requires |s| == 2
    ensures multiset(Sort2(s, less, kind)) == multiset(s)
  {
    CondSwapPermutesAll(less, kind);
  }

  lemma Sort3Permutes<T>(s: seq<T>, less: (T, T) -> bool, kind: SwapKind)
    requires |s| == 3
    ensures multiset(Sort3(s, less, kind)) == multiset(s)
  {
    CondSwapPermutesAll(less, kind);
  }

  lemma Sort4Permutes<T>(s: seq<T>, less: (T, T) -> bool, kind: SwapKind)
    requires |s| == 4
    ensures multiset(Sort4(s, less, kind)) == multiset(s)
  {
    CondSwapPermutesAll(less, kind);
  }

  lemma Sort5Permutes<T>(s: seq<T>, less: (T, T) -> bool, kind: SwapKind)
    requires |s| == 5
    ensures multiset(Sort5(s, less, kind)) == multiset(s)
  {
    CondSwapPermutesAll(less, kind);
  }

  lemma Sort6Permutes<T>(s: seq<T>, less: (T, T) -> bool, kind: SwapKind)
    requires |s| == 6
    ensures multiset(Sort6(s, less, kind)) == multiset(s)
  {
    CondSwapPermutesAll(less, kind);
  }

  lemma Sort7Permutes<T>(s: seq<T>, less: (T, T) -> bool, kind: SwapKind)
    requires |s| == 7
    ensures multiset(Sort7(s, less, kind)) == multiset(s)
  {
    CondSwapPermutesAll(less, kind);
  }

  lemma Sort8Permutes<T>(s: seq<T>, less: (T, T) -> bool, kind: SwapKind)
    requires |s| == 8
    ensures multiset(Sort8(s, less, kind)) == multiset(s)
  {
    CondSwapPermutesAll(less, kind);
  }

  lemma Sort1To8Permutes<T>(s: seq<T>, less: (T, T) -> bool, kind: SwapKind)
    requires |s| <= 8
    ensures multiset(Sort1To8(s, less, kind)) == multiset(s)
  {
    match |s|
    case 0 =>
    case 1 =>
    case 2 => Sort2Permutes(s, less, kind);
    case 3 => Sort3Permutes(s, less, kind);
    case 4 => Sort4Permutes(s, less, kind);
    case 5 => Sort5Permutes(s, less, kind);
    case 6 => Sort6Permutes(s, less, kind);
    case 7 => Sort7Permutes(s, less, kind);
    case 8 => Sort8Permutes(s, less, kind);
  }

  /** `sort1to8`: with `conditional_swap` it leaves a non-descending
      permutation, with `reverse_conditional_swap` a non-ascending one;
      lengths 0 and 1 are untouched. */
  method SortUpTo8<T(!new)>(s: seq<T>, less: (T, T) -> bool, kind: SwapKind) returns (r: seq<T>)
    requires StrictWeakOrder(less)
    requires |s| <= 8
    ensures |r| == |s|
    ensures multiset(r) == multiset(s)
    ensures kind == Ascending ==> Sorted(less, r)
    ensures kind == Descending ==> SortedDesc(less, r)
    ensures |s| <= 1 ==> r == s
  {
    r := Sort1To8(s, less, kind);
    Sort1To8Permutes(s, less, kind);
    forall t ensures BoolOrdered(Threshold(r, less, t), kind) {
      Sort1To8Threshold(s, less, kind, t);
      Sort1To8Bools(Threshold(s, less, t), kind);
    }
    ZeroOne(r, less, kind);
  }
}
