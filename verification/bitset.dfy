/**
 * The block partition `bitset_partition`. It handles the range in blocks of
 * 64: a 64-bit mask per side records which elements of the left block
 * belong on the right (not less than the pivot) and which elements of the
 * right block belong on the left (less than the pivot). `swap_bitmap_cyclic`
 * then exchanges flagged elements pairwise along one cycle of moves.
 *
 * A left block starts at `first` and bit i stands for position first + i.
 * A right block ends at `lm1` (inclusive) and bit j stands for position
 * lm1 - j. Masks are `SortAux.Word`s, and their meaning is stated through
 * `SortAux.Bits`, the set of their set bits.
 */
module BitsetPartition {
  import opened Order
  import opened SortAux
  import opened Partition

  /** The mask flags exactly the elements of the left block [first,
      first + size) that are not less than the pivot. */
  ghost predicate LeftFlags<T>(less: (T, T) -> bool, r: seq<T>, first: nat, size: nat, mask: Word, pivot: T) {
    && first + size <= |r| && size <= BLOCK_SIZE
    && (forall i: nat :: i in Bits(mask) ==> i < size)
    && (forall i: nat :: i < size ==> (i in Bits(mask) <==> !less(r[first + i], pivot)))
  }

  /** The mask flags exactly the elements of the right block
      (lm1 - size, lm1] that are less than the pivot. */
  ghost predicate RightFlags<T>(less: (T, T) -> bool, r: seq<T>, lm1: int, size: nat, mask: Word, pivot: T) {
    && 0 <= lm1 < |r| && size <= lm1 + 1 && size <= BLOCK_SIZE
    && (forall j: nat :: j in Bits(mask) ==> j < size)
    && (forall j: nat :: j < size ==> (j in Bits(mask) <==> less(r[lm1 - j], pivot)))
  }

  /** `RightFlags` except at bit `hole`, whose slot is the hole of the
      cycle and holds no meaningful element. */
  ghost predicate RightFlagsBut<T>(less: (T, T) -> bool, r: seq<T>, lm1: int, size: nat, mask: Word, pivot: T, hole: nat) {
    && 0 <= lm1 < |r| && size <= lm1 + 1 && size <= BLOCK_SIZE
    && hole < size && hole !in Bits(mask)
    && (forall j: nat :: j in Bits(mask) ==> j < size)
    && (forall j: nat :: j < size && j != hole ==> (j in Bits(mask) <==> less(r[lm1 - j], pivot)))
  }

  // ---------------------------------------------------------------------
  // Recording comparison outcomes
  // ---------------------------------------------------------------------

  /** Or-ing two numbers below 2^n stays below 2^n. */
  lemma {:induction false} OrBelow(x: nat, y: nat, n: nat)
    requires x < Pow2(n) && y < Pow2(n)
    ensures Or(x, y) < Pow2(n)
  {
    if x != 0 && y != 0 {
      OrBelow(x / 2, y / 2, n - 1);
    }
  }

  /** Or-ing `b`, which is 2^j or 0, into a mask below 2^j sets bit j
      when `c` holds and nothing else. */
  lemma SetBit(mask: nat, j: nat, c: bool, b: nat)
    requires mask < Pow2(j) && j < BLOCK_SIZE
    requires b == if c then Pow2(j) else 0
    ensures Or(mask, b) < Pow2(j + 1)
    ensures forall i :: Bit(Or(mask, b), i) == if i == j then c else Bit(mask, i)
  {
    OrBelow(mask, b, j + 1);
    BitsBelowPow2(mask, j, j);
    forall i ensures Bit(Or(mask, b), i) == if i == j then c else Bit(mask, i) {
      BitOr(mask, b, i);
      if c {
        BitPow2(j, i);
      } else {
        ZeroHasNoBits(i);
      }
    }
  }

  /** A mask below 2^size is a Word whose bits are those of `Bit` below size. */
  lemma MaskBits(mask: nat, size: nat)
    requires mask < Pow2(size) && size <= BLOCK_SIZE
    ensures mask < WORD_LIMIT
    ensures forall i: nat :: i in Bits(mask) <==> i < size && Bit(mask, i)
  {
    Pow2Monotone(size, 64);
    Pow2Value64();
    forall i: nat | size <= i ensures !Bit(mask, i) {
      BitsBelowPow2(mask, size, i);
    }
  }

  /** `populate_left_bitset` (and its partial-block form with `size < 64`):
      bit j is set iff first[j] is not less than the pivot. */
  method PopulateLeft<T>(r: seq<T>, first: nat, size: nat, pivot: T, less: (T, T) -> bool) returns (mask: Word)
    requires first + size <= |r| && size <= BLOCK_SIZE
    ensures LeftFlags(less, r, first, size, mask, pivot)
  {
    var m: nat := 0;
    var j := 0;
    while j < size
      invariant j <= size && m < Pow2(j)
      invariant forall i :: 0 <= i < j ==> (Bit(m, i) <==> !less(r[first + i], pivot))
    {
      var c := !less(r[first + j], pivot);
      var b := if c then Pow2(j) else 0;
      SetBit(m, j, c, b);
      m := Or(m, b);
      j := j + 1;
    }
    MaskBits(m, size);
    mask := m;
  }

  /** `populate_right_bitset`: bit j is set iff lm1[-j] is less than the
      pivot. */
  method PopulateRight<T>(r: seq<T>, lm1: nat, size: nat, pivot: T, less: (T, T) -> bool) returns (mask: Word)
    requires lm1 < |r| && size <= lm1 + 1 && size <= BLOCK_SIZE
    ensures RightFlags(less, r, lm1, size, mask, pivot)
  {
    var m: nat := 0;
    var j := 0;
    while j < size
      invariant j <= size && m < Pow2(j)
      invariant forall i :: 0 <= i < j ==> (Bit(m, i) <==> less(r[lm1 - i], pivot))
    {
      var c := less(r[lm1 - j], pivot);
      var b := if c then Pow2(j) else 0;
      SetBit(m, j, c, b);
      m := Or(m, b);
      j := j + 1;
    }
    MaskBits(m, size);
    mask := m;
  }

  // ---------------------------------------------------------------------
  // swap_bitmap_cyclic
  // ---------------------------------------------------------------------

  /** Taking the lowest bit off a non-empty mask. */
  lemma TakeLowest(x: Word)
    requires x != 0
    ensures CountTailZero(x) in Bits(x)
    ensures Bits(ClearLowestBit(x)) == Bits(x) - {CountTailZero(x)}
    ensures |Bits(ClearLowestBit(x))| == |Bits(x)| - 1
  {
    ClearLowestBitBits(x);
  }

  /** `LeftFlags` except at bit `hole`, whose slot is the hole. */
  ghost predicate LeftFlagsBut<T>(less: (T, T) -> bool, r: seq<T>, first: nat, size: nat, mask: Word, pivot: T, hole: nat) {
    && first + size <= |r| && size <= BLOCK_SIZE
    && hole < size && hole !in Bits(mask)
    && (forall i: nat :: i in Bits(mask) ==> i < size)
    && (forall i: nat :: i < size && i != hole ==> (i in Bits(mask) <==> !less(r[first + i], pivot)))
  }

  /** Nothing outside the left block [first, first + lsize) and the right
      block (lm1 - rsize, lm1] differs between `r` and `r'`. */
  ghost predicate OutsideBlocks<T>(r: seq<T>, r': seq<T>, first: nat, lsize: nat, lm1: int, rsize: nat)
    requires |r'| == |r| && first + lsize + rsize <= lm1 + 1 <= |r|
  {
    && r'[..first] == r[..first]
    && r'[first + lsize..lm1 + 1 - rsize] == r[first + lsize..lm1 + 1 - rsize]
    && r'[lm1 + 1..] == r[lm1 + 1..]
  }

  /** Writing into a block slot leaves the outside alone. */
  lemma WriteInBlock<T>(r: seq<T>, r': seq<T>, first: nat, lsize: nat, lm1: int, rsize: nat, k: nat, v: T)
    requires |r'| == |r| && first + lsize + rsize <= lm1 + 1 <= |r|
    requires OutsideBlocks(r, r', first, lsize, lm1, rsize)
    requires first <= k < first + lsize || lm1 + 1 - rsize <= k <= lm1
    ensures OutsideBlocks(r, r'[k := v], first, lsize, lm1, rsize)
  {
    var w := r'[k := v];
    assert w[..first] == r'[..first];
    assert w[first + lsize..lm1 + 1 - rsize] == r'[first + lsize..lm1 + 1 - rsize];
    assert w[lm1 + 1..] == r'[lm1 + 1..];
  }

  /** The first half of a round: the flagged left element at bit `tz`
      moves into the right hole, whose slot becomes correct, and its own
      slot becomes the hole. */
  lemma FillRightHole<T>(less: (T, T) -> bool, r: seq<T>, r': seq<T>, first: nat, lsize: nat, lm1: nat, rsize: nat,
                         left: Word, left': Word, right: Word, pivot: T, hole: nat, tz: nat)
    requires first + lsize + rsize <= lm1 + 1
    requires LeftFlags(less, r, first, lsize, left, pivot)
    requires RightFlagsBut(less, r, lm1, rsize, right, pivot, hole)
    requires tz in Bits(left) && Bits(left') == Bits(left) - {tz}
    requires r' == r[lm1 - hole := r[first + tz]]
    ensures LeftFlagsBut(less, r', first, lsize, left', pivot, tz)
    ensures RightFlags(less, r', lm1, rsize, right, pivot)
  {
  }

  /** The second half of a round: the flagged right element at bit `tz`
      moves into the left hole, and its own slot becomes the hole. */
  lemma FillLeftHole<T>(less: (T, T) -> bool, r: seq<T>, r': seq<T>, first: nat, lsize: nat, lm1: nat, rsize: nat,
                        left: Word, right: Word, right': Word, pivot: T, hole: nat, tz: nat)
    requires first + lsize + rsize <= lm1 + 1
    requires LeftFlagsBut(less, r, first, lsize, left, pivot, hole)
    requires RightFlags(less, r, lm1, rsize, right, pivot)
    requires tz in Bits(right) && Bits(right') == Bits(right) - {tz}
    requires r' == r[first + hole := r[lm1 - tz]]
    ensures LeftFlags(less, r', first, lsize, left, pivot)
    ensures RightFlagsBut(less, r', lm1, rsize, right', pivot, tz)
  {
  }

  /** The state of the cycle: `tmp` (the element of the first flagged left
      slot) is held aside and the right slot lm1 - hole is the hole. Every
      left slot holds what its remaining flags say, and so does every right
      slot except the hole. Both masks have lost the same number of bits,
      and nothing outside the two blocks has moved. */
  ghost predicate Cycling<T>(less: (T, T) -> bool, r: seq<T>, r': seq<T>, first: nat, lsize: nat, lm1: int, rsize: nat,
                             left: Word, right: Word, left': Word, right': Word, hole: nat, tmp: T, pivot: T) {
    && |r'| == |r| && first + lsize + rsize <= lm1 + 1 <= |r|
    && RightFlagsBut(less, r', lm1, rsize, right', pivot, hole)
    && LeftFlags(less, r', first, lsize, left', pivot)
    && multiset(r'[lm1 - hole := tmp]) == multiset(r)
    && !less(tmp, pivot)
    && Bits(left') <= Bits(left) && Bits(right') <= Bits(right)
    && |Bits(left)| - |Bits(left')| == |Bits(right)| - |Bits(right')|
    && OutsideBlocks(r, r', first, lsize, lm1, rsize)
  }

  /** One round of the cycle: the lowest flagged left element fills the
      hole, and the lowest flagged right element fills its slot, leaving
      the hole there. One bit goes from each mask. */
  method CycleStep<T>(ghost r: seq<T>, r': seq<T>, first: nat, ghost lsize: nat, lm1: nat, ghost rsize: nat,
                      ghost left: Word, ghost right: Word, left': Word, right': Word, hole: nat, ghost tmp: T,
                      ghost pivot: T, ghost less: (T, T) -> bool)
    returns (r'': seq<T>, left'': Word, right'': Word, hole': nat)
    requires Cycling(less, r, r', first, lsize, lm1, rsize, left, right, left', right', hole, tmp, pivot)
    requires left' != 0 && right' != 0
    ensures Cycling(less, r, r'', first, lsize, lm1, rsize, left, right, left'', right'', hole', tmp, pivot)
    ensures |Bits(left'')| < |Bits(left')|
  {
    var tzl := CountTailZero(left');
    TakeLowest(left');
    left'' := ClearLowestBit(left');
    var tzr := CountTailZero(right');
    TakeLowest(right');
    right'' := ClearLowestBit(right');
    var l := first + tzl;
    var h := lm1 - hole;
    var r1 := r'[h := r'[l]];
    FillRightHole(less, r', r1, first, lsize, lm1, rsize, left', left'', right', pivot, hole, tzl);
    MoveHole(r', h, l, tmp);
    WriteInBlock(r, r', first, lsize, lm1, rsize, h, r'[l]);
    hole' := tzr;
    var h' := lm1 - tzr;
    r'' := r1[l := r1[h']];
    FillLeftHole(less, r1, r'', first, lsize, lm1, rsize, left'', right', right'', pivot, tzl, tzr);
    MoveHole(r1, l, h', tmp);
    WriteInBlock(r, r1, first, lsize, lm1, rsize, l, r1[h']);
  }

  /** The state on entry to the cycle: the flagged left element at bit
      `tzl` is held aside in `tmp`, and the flagged right element at bit
      `tzr` has filled its slot. */
  lemma CycleStart<T>(less: (T, T) -> bool, r: seq<T>, r': seq<T>, first: nat, lsize: nat, lm1: nat, rsize: nat,
                      left: Word, right: Word, left': Word, right': Word, tzl: nat, tzr: nat, pivot: T)
    requires LeftFlags(less, r, first, lsize, left, pivot)
    requires RightFlags(less, r, lm1, rsize, right, pivot)
    requires first + lsize + rsize <= lm1 + 1
    requires tzl in Bits(left) && Bits(left') == Bits(left) - {tzl} && |Bits(left')| == |Bits(left)| - 1
    requires tzr in Bits(right) && Bits(right') == Bits(right) - {tzr} && |Bits(right')| == |Bits(right)| - 1
    requires r' == r[first + tzl := r[lm1 - tzr]]
    ensures Cycling(less, r, r', first, lsize, lm1, rsize, left, right, left', right', tzr, r[first + tzl], pivot)
  {
    var l := first + tzl;
    var h := lm1 - tzr;
    MoveHole(r, l, h, r[l]);
    assert r[l := r[l]] == r;
    assert OutsideBlocks(r, r, first, lsize, lm1, rsize);
    WriteInBlock(r, r, first, lsize, lm1, rsize, l, r[h]);
    assert LeftFlagsBut(less, r, first, lsize, left', pivot, tzl);
    FillLeftHole(less, r, r', first, lsize, lm1, rsize, left', right, right', pivot, tzl, tzr);
  }

  /** Filling the hole with `tmp` ends the cycle with every slot of both
      blocks as its mask says. */
  lemma CycleEnd<T>(less: (T, T) -> bool, r: seq<T>, r': seq<T>, r'': seq<T>, first: nat, lsize: nat, lm1: nat, rsize: nat,
                    left: Word, right: Word, left': Word, right': Word, hole: nat, tmp: T, pivot: T)
    requires Cycling(less, r, r', first, lsize, lm1, rsize, left, right, left', right', hole, tmp, pivot)
    requires r'' == r'[lm1 - hole := tmp]
    ensures |r''| == |r| && multiset(r'') == multiset(r)
    ensures LeftFlags(less, r'', first, lsize, left', pivot)
    ensures RightFlags(less, r'', lm1, rsize, right', pivot)
    ensures Bits(left') <= Bits(left) && Bits(right') <= Bits(right)
    ensures |Bits(left)| - |Bits(left')| == |Bits(right)| - |Bits(right')|
    ensures OutsideBlocks(r, r'', first, lsize, lm1, rsize)
  {
    WriteInBlock(r, r', first, lsize, lm1, rsize, lm1 - hole, tmp);
  }

  /** The loop of `swap_bitmap_cyclic`: rounds run while both masks have a
      bit set. */
  method CycleLoop<T>(ghost r: seq<T>, r': seq<T>, first: nat, ghost lsize: nat, lm1: nat, ghost rsize: nat,
                      ghost left: Word, ghost right: Word, left': Word, right': Word, hole: nat, ghost tmp: T,
                      ghost pivot: T, ghost less: (T, T) -> bool)
    returns (r'': seq<T>, left'': Word, right'': Word, hole': nat)
    requires Cycling(less, r, r', first, lsize, lm1, rsize, left, right, left', right', hole, tmp, pivot)
    ensures Cycling(less, r, r'', first, lsize, lm1, rsize, left, right, left'', right'', hole', tmp, pivot)
    ensures left'' == 0 || right'' == 0
  {
    r'', left'', right'', hole' := r', left', right', hole;
    while left'' != 0 && right'' != 0
      invariant Cycling(less, r, r'', first, lsize, lm1, rsize, left, right, left'', right'', hole', tmp, pivot)
      decreases |Bits(left'')|
    {
      r'', left'', right'', hole' := CycleStep(r, r'', first, lsize, lm1, rsize, left, right, left'', right'', hole', tmp, pivot, less);
    }
  }

  /** `swap_bitmap_cyclic`: while both masks have a bit set, the lowest
      flagged element of each block goes to the other block, so every
      cleared left slot ends up with an element less than the pivot and
      every cleared right slot with one that is not. Each round clears one
      bit of each mask, so both lose the same number, and on return at
      least one mask is zero. Only slots of the two blocks change. */
  method SwapBitmapCyclic<T>(r: seq<T>, first: nat, lm1: nat, left: Word, right: Word,
                             ghost lsize: nat, ghost rsize: nat, ghost pivot: T, ghost less: (T, T) -> bool)
    returns (r': seq<T>, left': Word, right': Word)
    requires LeftFlags(less, r, first, lsize, left, pivot)
    requires RightFlags(less, r, lm1, rsize, right, pivot)
    requires first + lsize + rsize <= lm1 + 1
    ensures |r'| == |r| && multiset(r') == multiset(r)
    ensures LeftFlags(less, r', first, lsize, left', pivot)
    ensures RightFlags(less, r', lm1, rsize, right', pivot)
    ensures Bits(left') <= Bits(left) && Bits(right') <= Bits(right)
    ensures |Bits(left)| - |Bits(left')| == |Bits(right)| - |Bits(right')|
    ensures left' == 0 || right' == 0
    ensures OutsideBlocks(r, r', first, lsize, lm1, rsize)
  {
    r', left', right' := r, left, right;
    if left != 0 && right != 0 {
      var tzl := CountTailZero(left);
      TakeLowest(left);
      left' := ClearLowestBit(left);
      var hole := CountTailZero(right);
      TakeLowest(right);
      right' := ClearLowestBit(right);
      var l := first + tzl;
      var tmp := r[l];
      r' := r[l := r[lm1 - hole]];
      CycleStart(less, r, r', first, lsize, lm1, rsize, left, right, left', right', tzl, hole, pivot);
      r', left', right', hole := CycleLoop(r, r', first, lsize, lm1, rsize, left, right, left', right', hole, tmp, pivot, less);
      var r'' := r'[lm1 - hole := tmp];
      CycleEnd(less, r, r', r'', first, lsize, lm1, rsize, left, right, left', right', hole, tmp, pivot);
      r' := r'';
    } else {
      assert OutsideBlocks(r, r, first, lsize, lm1, rsize);
    }
  }

  // ---------------------------------------------------------------------
  // bitset_partition
  // ---------------------------------------------------------------------

  /** The part of the state every phase keeps: `r` is a permutation of `s`
      with the pivot s[0] still at 0, [1, first) holds elements less than
      the pivot and (lm1, n) elements that are not. */
  ghost predicate Framed<T>(less: (T, T) -> bool, s: seq<T>, r: seq<T>, first: nat, lm1: int) {
    && |s| > 0 && |r| == |s| && r[0] == s[0] && multiset(r) == multiset(s)
    && 1 <= first <= lm1 + 1 <= |r|
    && AllLess(less, r, 1, first, s[0]) && NoneLess(less, r, lm1 + 1, |r|, s[0])
  }

  /** The state of the main loop: at least one mask is empty, and a
      non-empty mask describes its full block, which lies in [first, lm1]. */
  ghost predicate Blocks<T>(less: (T, T) -> bool, s: seq<T>, r: seq<T>, first: nat, lm1: nat, left: Word, right: Word) {
    && Framed(less, s, r, first, lm1)
    && (left == 0 || right == 0)
    && (left != 0 ==> first + BLOCK_SIZE <= lm1 + 1 && LeftFlags(less, r, first, BLOCK_SIZE, left, s[0]))
    && (right != 0 ==> first + BLOCK_SIZE <= lm1 + 1 && RightFlags(less, r, lm1, BLOCK_SIZE, right, s[0]))
  }

  /** The state after the partial blocks: what is left unsorted is
      [first, lm1], and it is exactly the block of the one non-empty mask. */
  ghost predicate Within<T>(less: (T, T) -> bool, s: seq<T>, r: seq<T>, first: nat, lm1: nat, left: Word, right: Word) {
    && Framed(less, s, r, first, lm1)
    && (left == 0 || right == 0)
    && (left != 0 ==> LeftFlags(less, r, first, lm1 + 1 - first, left, s[0]))
    && (right != 0 ==> RightFlags(less, r, lm1, lm1 + 1 - first, right, s[0]))
    && (left == 0 && right == 0 ==> first == lm1 + 1)
  }

  /** A left block with an empty mask holds only elements less than the
      pivot. */
  lemma EmptyLeft<T>(less: (T, T) -> bool, r: seq<T>, first: nat, size: nat, pivot: T)
    requires LeftFlags(less, r, first, size, 0, pivot)
    ensures AllLess(less, r, first, first + size, pivot)
  {
    ZeroIffNoBits(0);
    forall i | first <= i < first + size ensures less(r[i], pivot) {
      assert i - first !in Bits(0);
    }
  }

  /** A right block with an empty mask holds no element less than the
      pivot. */
  lemma EmptyRight<T>(less: (T, T) -> bool, r: seq<T>, lm1: nat, size: nat, pivot: T)
    requires RightFlags(less, r, lm1, size, 0, pivot)
    ensures NoneLess(less, r, lm1 + 1 - size, lm1 + 1, pivot)
  {
    ZeroIffNoBits(0);
    forall i | lm1 + 1 - size <= i < lm1 + 1 ensures !less(r[i], pivot) {
      assert lm1 - i !in Bits(0);
    }
  }

  /** The cyclic swap keeps the frame: it only writes inside its blocks,
      and the blocks it clears extend the two sorted ends. */
  lemma SwapKeepsFrame<T>(less: (T, T) -> bool, s: seq<T>, r: seq<T>, r': seq<T>, first: nat, lm1: nat,
                          lsize: nat, rsize: nat, left': Word, right': Word)
    requires Framed(less, s, r, first, lm1)
    requires first + lsize + rsize <= lm1 + 1
    requires |r'| == |r| && multiset(r') == multiset(r)
    requires OutsideBlocks(r, r', first, lsize, lm1, rsize)
    requires LeftFlags(less, r', first, lsize, left', s[0])
    requires RightFlags(less, r', lm1, rsize, right', s[0])
    ensures var first' := first + (if left' == 0 then lsize else 0);
      var lm1' := lm1 - (if right' == 0 then rsize else 0);
      Framed(less, s, r', first', lm1')
  {
    assert r'[0] == r'[..first][0];
    forall i | 1 <= i < first ensures less(r'[i], s[0]) {
      assert r'[i] == r'[..first][i];
    }
    forall i | lm1 + 1 <= i < |r| ensures !less(r'[i], s[0]) {
      assert r'[i] == r'[lm1 + 1..][i - lm1 - 1];
    }
    if left' == 0 {
      EmptyLeft(less, r', first, lsize, s[0]);
    }
    if right' == 0 {
      EmptyRight(less, r', lm1, rsize, s[0]);
    }
  }

  /** One round of the main loop of `bitset_partition`, on at least two
      blocks: the empty masks are refilled from their blocks, the cyclic
      swap runs, and each block whose mask it empties is done. */
  method BlockRound<T>(ghost s: seq<T>, r: seq<T>, first: nat, lm1: nat, left: Word, right: Word, less: (T, T) -> bool)
    returns (r': seq<T>, first': nat, lm1': nat, left': Word, right': Word)
    requires Blocks(less, s, r, first, lm1, left, right)
    requires lm1 - first >= 2 * BLOCK_SIZE - 1
    ensures Blocks(less, s, r', first', lm1', left', right')
    ensures lm1' - first' < lm1 - first
  {
    var pivot := r[0];
    left', right' := left, right;
    if left' == 0 {
      left' := PopulateLeft(r, first, BLOCK_SIZE, pivot, less);
    }
    if right' == 0 {
      right' := PopulateRight(r, lm1, BLOCK_SIZE, pivot, less);
    }
    r', left', right' := SwapBitmapCyclic(r, first, lm1, left', right', BLOCK_SIZE, BLOCK_SIZE, pivot, less);
    SwapKeepsFrame(less, s, r, r', first, lm1, BLOCK_SIZE, BLOCK_SIZE, left', right');
    first' := first + (if left' == 0 then BLOCK_SIZE else 0);
    lm1' := lm1 - (if right' == 0 then BLOCK_SIZE else 0);
  }

  /** `bitset_partition_partial_blocks`: what is left, fewer than two
      blocks, is split between a left and a right block (halved when both
      masks are empty, otherwise the side with a mask keeps its full
      block), the empty masks are filled and the cyclic swap runs once. */
  method PartialBlocks<T>(ghost s: seq<T>, r: seq<T>, first: nat, lm1: nat, left: Word, right: Word, less: (T, T) -> bool)
    returns (r': seq<T>, first': nat, lm1': nat, left': Word, right': Word)
    requires Blocks(less, s, r, first, lm1, left, right)
    requires lm1 - first < 2 * BLOCK_SIZE - 1
    ensures Within(less, s, r', first', lm1', left', right')
  {
    var pivot := r[0];
    var rem := lm1 + 1 - first;
    var lsize, rsize;
    if left == 0 && right == 0 {
      lsize := rem / 2;
      rsize := rem - lsize;
    } else if left == 0 {
      lsize := rem - BLOCK_SIZE;
      rsize := BLOCK_SIZE;
    } else {
      lsize := BLOCK_SIZE;
      rsize := rem - BLOCK_SIZE;
    }
    left', right' := left, right;
    if left' == 0 {
      left' := PopulateLeft(r, first, lsize, pivot, less);
    }
    if right' == 0 {
      right' := PopulateRight(r, lm1, rsize, pivot, less);
    }
    r', left', right' := SwapBitmapCyclic(r, first, lm1, left', right', lsize, rsize, pivot, less);
    SwapKeepsFrame(less, s, r, r', first, lm1, lsize, rsize, left', right');
    first' := first + (if left' == 0 then lsize else 0);
    lm1' := lm1 - (if right' == 0 then rsize else 0);
    if left' != 0 {
      assert first' == first && lm1' + 1 - first' == lsize;
    } else if right' != 0 {
      assert lm1' == lm1 && lm1' + 1 - first' == rsize;
    }
  }

  /** One step of the left branch of `swap_bitmap_pos_within`: the highest
      flagged element `tz` of the block [first, l] is swapped with r[l],
      which then holds an element not less than the pivot. */
  lemma WithinLeftStep<T>(less: (T, T) -> bool, s: seq<T>, r: seq<T>, r': seq<T>, first: nat, l: nat,
                          m: Word, m': Word, tz: nat)
    requires Framed(less, s, r, first, l)
    requires LeftFlags(less, r, first, l + 1 - first, m, s[0])
    requires tz in Bits(m) && forall i :: i in Bits(m) ==> i <= tz
    requires Bits(m') == set i | i in Bits(m) && i < tz
    requires r' == r[first + tz := r[l]][l := r[first + tz]]
    ensures Framed(less, s, r', first, l - 1)
    ensures LeftFlags(less, r', first, l - first, m', s[0])
  {
    var pivot := s[0];
    assert !less(r'[l], pivot);
    forall i: nat | i < l - first ensures i in Bits(m') <==> !less(r'[first + i], pivot) {
      if i == tz {
        assert l - first !in Bits(m);
      } else {
        assert r'[first + i] == r[first + i];
        assert i in Bits(m') <==> i in Bits(m);
      }
    }
    assert multiset(r') == multiset(r);
  }

  /** One step of the right branch: the highest flagged element of the
      block [first, lm1] is swapped with r[first], which then holds an
      element less than the pivot. */
  lemma WithinRightStep<T>(less: (T, T) -> bool, s: seq<T>, r: seq<T>, r': seq<T>, first: nat, lm1: nat,
                           m: Word, m': Word, tz: nat)
    requires Framed(less, s, r, first, lm1)
    requires RightFlags(less, r, lm1, lm1 + 1 - first, m, s[0])
    requires tz in Bits(m) && forall i :: i in Bits(m) ==> i <= tz
    requires Bits(m') == set i | i in Bits(m) && i < tz
    requires r' == r[lm1 - tz := r[first]][first := r[lm1 - tz]]
    ensures Framed(less, s, r', first + 1, lm1)
    ensures RightFlags(less, r', lm1, lm1 - first, m', s[0])
  {
    var pivot := s[0];
    assert less(r'[first], pivot);
    forall j: nat | j < lm1 - first ensures j in Bits(m') <==> less(r'[lm1 - j], pivot) {
      if j == tz {
        assert lm1 - first !in Bits(m);
      } else {
        assert r'[lm1 - j] == r[lm1 - j];
        assert j in Bits(m') <==> j in Bits(m);
      }
    }
    assert multiset(r') == multiset(r);
  }

  /** `63 - count_left_zero(m)` and `m & ((1 << tz) - 1)`: the highest set
      bit and the mask without it. */
  lemma TakeHighest(m: Word)
    requires m != 0
    ensures var tz := BLOCK_SIZE - 1 - CountLeftZero(m);
      && tz in Bits(m) && (forall i :: i in Bits(m) ==> i <= tz)
      && And(m, Pow2(tz) - 1) < WORD_LIMIT
      && Bits(And(m, Pow2(tz) - 1)) == set i | i in Bits(m) && i < tz
  {
    HighestBit(m);
    LowMaskBits(m, BLOCK_SIZE - 1 - CountLeftZero(m));
  }

  /** `swap_bitmap_pos_within`: the block of the one non-empty mask is
      partitioned by moving its flagged elements, highest bit first, to the
      far end of the block. Afterwards [1, first) is less than the pivot
      and [first, n) is not. */
  method SwapPosWithin<T>(ghost s: seq<T>, r: seq<T>, first: nat, lm1: nat, left: Word, right: Word, ghost less: (T, T) -> bool)
    returns (r': seq<T>, first': nat)
    requires Within(less, s, r, first, lm1, left, right)
    ensures Framed(less, s, r', first', first' - 1)
  {
    r' := r;
    if left != 0 {
      var l: nat, m: Word := lm1, left;
      while m != 0
        invariant Framed(less, s, r', first, l)
        invariant LeftFlags(less, r', first, l + 1 - first, m, s[0])
        decreases l + 1 - first
      {
        var tz := BLOCK_SIZE - 1 - CountLeftZero(m);
        TakeHighest(m);
        var m' := And(m, Pow2(tz) - 1);
        var r'' := r'[first + tz := r'[l]][l := r'[first + tz]];
        WithinLeftStep(less, s, r', r'', first, l, m, m', tz);
        r', m, l := r'', m', l - 1;
      }
      EmptyLeft(less, r', first, l + 1 - first, s[0]);
      first' := l + 1;
    } else if right != 0 {
      var f: nat, m: Word := first, right;
      while m != 0
        invariant Framed(less, s, r', f, lm1)
        invariant RightFlags(less, r', lm1, lm1 + 1 - f, m, s[0])
        decreases lm1 + 1 - f
      {
        var tz := BLOCK_SIZE - 1 - CountLeftZero(m);
        TakeHighest(m);
        var m' := And(m, Pow2(tz) - 1);
        var r'' := r'[lm1 - tz := r'[f]][f := r'[lm1 - tz]];
        WithinRightStep(less, s, r', r'', f, lm1, m, m', tz);
        r', m, f := r'', m', f + 1;
      }
      EmptyRight(less, r', lm1, lm1 + 1 - f, s[0]);
      first' := f;
    } else {
      first' := first;
    }
  }

  /** The swap of the first misplaced pair found by the two scans. */
  lemma FirstSwap<T>(less: (T, T) -> bool, s: seq<T>, first: nat, last: nat)
    requires 1 <= first < last < |s|
    requires AllLess(less, s, 1, first, s[0]) && NoneLess(less, s, last + 1, |s|, s[0])
    requires !less(s[first], s[0]) && less(s[last], s[0])
    ensures Blocks(less, s, s[first := s[last]][last := s[first]], first + 1, last - 1, 0, 0)
  {
    var r := s[first := s[last]][last := s[first]];
    assert multiset(r) == multiset(s);
  }

  /** `bitset_partition` on a non-empty range. It meets the contract of
      the Hoare scheme. */
  method BlockPartition<T>(s: seq<T>, less: (T, T) -> bool) returns (r: seq<T>, p: nat)
    requires |s| > 0
    ensures PartitionedAt(less, s, r, p)
  {
    var pivot := s[0];
    r := s;
    var first: nat := ScanFirst(r, pivot, less);
    var last := ScanLast(r, first, pivot, less);
    if first < last {
      FirstSwap(less, s, first, last);
      r := r[first := r[last]][last := r[first]];
      var lm1: nat := last - 1;
      first := first + 1;
      var left: Word, right: Word := 0, 0;
      while lm1 - first >= 2 * BLOCK_SIZE - 1
        invariant Blocks(less, s, r, first, lm1, left, right)
        decreases lm1 - first
      {
        r, first, lm1, left, right := BlockRound(s, r, first, lm1, left, right, less);
      }
      r, first, lm1, left, right := PartialBlocks(s, r, first, lm1, left, right, less);
      r, first := SwapPosWithin(s, r, first, lm1, left, right, less);
    }
    p := first - 1;
    PlacePivot(less, s, r, p);
    r := r[0 := r[p]][p := pivot];
  }
}
