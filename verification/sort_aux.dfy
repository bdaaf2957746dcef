/**
 * Shared constants, the compile-time capability checks that pick a strategy,
 * and the 64-bit mask utilities (clear-lowest-bit, trailing and leading zero
 * counts) used by the block partition.
 *
 * A `uint64_t` mask is modelled as an unsigned integer below 2^64; bitwise
 * AND/OR are defined bit by bit, and every wrap-around of the C++ unsigned
 * arithmetic is written out.
 */
module SortAux {

  /** Stack budget of the scratch buffers, in bytes (about one page). */
  const MAX_STACK_SIZE: nat := 4096
  /** Length of one sorting-network block. */
  const BATCH: nat := 8
  /** Length of one bitonic window: an ascending and a descending block. */
  const BITONIC_BATCH: nat := 16
  /** Ranges up to this length go to the small-sequence sorter. */
  const SSORT_MAX: nat := 32
  /** Elements per block of the bitmask partition: one bit per element. */
  const BLOCK_SIZE: nat := 64
  /** Step size from which pivot sampling recurses. */
  const PSEUDO_MEDIAN_REC_THRESHOLD: nat := 64
  /** Scratch slots of the stable-merge small sorter. */
  const SMALL_SORT_GENERAL_SCRATCH_LEN: nat := 48
  /** Scratch slots of the sorting-network small sorter. */
  const SMALL_SORT_NETWORK_SCRATCH_LEN: nat := 32
  /** `sizeof(size_t)` on the 64-bit targets the code is written for. */
  const SIZE_T_BYTES: nat := 8

  /** The scratch buffers are large enough for every length they are used
      with, and a bitonic window is two network blocks. */
  lemma ScratchConstantsCoverBuffers()
    ensures SMALL_SORT_NETWORK_SCRATCH_LEN >= SSORT_MAX
    ensures SMALL_SORT_GENERAL_SCRATCH_LEN >= SSORT_MAX + 2 * BATCH
    ensures BITONIC_BATCH == 2 * BATCH
  {
  }

  // ---------------------------------------------------------------------
  // Capability dispatch
  // ---------------------------------------------------------------------

  /** What the C++ type traits report about the element type and the
      comparator: they are facts about types, so here they are plain data. */
  datatype Capabilities = Capabilities(
    triviallyCopyable: bool,
    triviallyCopyConstructible: bool,
    triviallyCopyAssignable: bool,
    arithmetic: bool,
    simpleComparator: bool,  // std::less / std::greater (and the ranges variants)
    elementSize: nat)        // sizeof(value_type)

  /** `use_branchless_sort`: the block-bitmask partition is used. */
  predicate UseBranchlessSort(c: Capabilities) {
    c.triviallyCopyable && c.arithmetic && c.simpleComparator
  }

  /** `use_sorting_network`: small ranges go through sorting networks. */
  predicate UseSortingNetwork(c: Capabilities) {
    && c.triviallyCopyConstructible
    && c.triviallyCopyAssignable
    && c.elementSize <= 4 * SIZE_T_BYTES
    && c.simpleComparator
  }

  /** The partition scheme of one quicksort step. */
  datatype PartitionScheme = BlockBitmask | HoareCyclic

  /** The small-sequence strategy. */
  datatype SmallSortStrategy = SortingNetwork | StableMerge | InsertionFallback

  /** `partition_by_choosed_pivot`: the bitmask scheme exactly for trivially
      copyable arithmetic types under a simple comparator. */
  function ChoosePartition(c: Capabilities): (p: PartitionScheme)
    ensures p == BlockBitmask <==> c.triviallyCopyable && c.arithmetic && c.simpleComparator
    ensures p == HoareCyclic <==> !UseBranchlessSort(c)
  {
    if UseBranchlessSort(c) then BlockBitmask else HoareCyclic
  }

  /** `small_sort`: networks for small trivial types, the stable-merge sorter
      when its 48-slot scratch buffer fits the stack budget, otherwise
      insertion sort. */
  function ChooseSmallSort(c: Capabilities): (s: SmallSortStrategy)
    ensures s == SortingNetwork <==> UseSortingNetwork(c)
    ensures s == StableMerge <==>
      !UseSortingNetwork(c) && c.elementSize * SMALL_SORT_GENERAL_SCRATCH_LEN <= MAX_STACK_SIZE
    ensures s == InsertionFallback <==>
      !UseSortingNetwork(c) && c.elementSize * SMALL_SORT_GENERAL_SCRATCH_LEN > MAX_STACK_SIZE
    ensures s == SortingNetwork ==> c.simpleComparator && c.elementSize <= 32
  {
    if UseSortingNetwork(c) then SortingNetwork
    else if c.elementSize * SMALL_SORT_GENERAL_SCRATCH_LEN <= MAX_STACK_SIZE then StableMerge
    else InsertionFallback
  }

  // ---------------------------------------------------------------------
  // 64-bit masks
  // ---------------------------------------------------------------------

  const WORD_LIMIT: nat := 0x1_0000_0000_0000_0000

  /** A `uint64_t`. */
  type Word = x: nat | x < WORD_LIMIT

  function Pow2(n: nat): (r: nat)
    ensures r >= 1
  {
    if n == 0 then 1 else 2 * Pow2(n - 1)
  }

  /** Bit `i` of `x` (bit 0 is the least significant). */
  function Bit(x: nat, i: nat): bool {
    if i == 0 then x % 2 == 1 else Bit(x / 2, i - 1)
  }

  /** Bitwise AND of unsigned integers. */
  function And(x: nat, y: nat): (r: nat)
    ensures r <= x
  {
    if x == 0 || y == 0 then 0
    else 2 * And(x / 2, y / 2) + (if x % 2 == 1 && y % 2 == 1 then 1 else 0)
  }

  /** Bitwise OR of unsigned integers. */
  function Or(x: nat, y: nat): (r: nat)
    ensures r <= x + y
  {
    if x == 0 then y
    else if y == 0 then x
    else 2 * Or(x / 2, y / 2) + (if x % 2 == 1 || y % 2 == 1 then 1 else 0)
  }

  /** Number of significant bits (`std::bit_width`). */
  function BitWidth(x: nat): (r: nat)
    ensures x == 0 <==> r == 0
  {
    if x == 0 then 0 else 1 + BitWidth(x / 2)
  }

  lemma {:induction false} BitAnd(x: nat, y: nat, i: nat)
    ensures Bit(And(x, y), i) == (Bit(x, i) && Bit(y, i))
  {
    if x == 0 || y == 0 {
      ZeroHasNoBits(i);
    } else if i > 0 {
      BitAnd(x / 2, y / 2, i - 1);
    }
  }

  lemma {:induction false} BitOr(x: nat, y: nat, i: nat)
    ensures Bit(Or(x, y), i) == (Bit(x, i) || Bit(y, i))
  {
    if x == 0 {
      ZeroHasNoBits(i);
    } else if y == 0 {
      ZeroHasNoBits(i);
    } else if i > 0 {
      BitOr(x / 2, y / 2, i - 1);
    }
  }

  lemma {:induction false} ZeroHasNoBits(i: nat)
    ensures !Bit(0, i)
  {
    if i > 0 {
      ZeroHasNoBits(i - 1);
    }
  }

  /** The only bit of 2^j is bit j. */
  lemma {:induction false} BitPow2(j: nat, i: nat)
    ensures Bit(Pow2(j), i) == (i == j)
  {
    if i == 0 {
    } else if j == 0 {
      assert Pow2(0) / 2 == 0;
      ZeroHasNoBits(i - 1);
    } else {
      assert Pow2(j) / 2 == Pow2(j - 1);
      BitPow2(j - 1, i - 1);
    }
  }

  /** A number below 2^n has no bit at or above n. */
  lemma {:induction false} BitsBelowPow2(x: nat, n: nat, i: nat)
    requires x < Pow2(n) && i >= n
    ensures !Bit(x, i)
  {
    if n == 0 {
      assert x == 0;
      ZeroHasNoBits(i);
    } else {
      BitsBelowPow2(x / 2, n - 1, i - 1);
    }
  }

  /** A non-zero number has a bit set below its bit width. */
  lemma {:induction false} NonZeroHasBit(x: nat)
    requires x != 0
    ensures Bit(x, BitWidth(x) - 1)
  {
    if x / 2 != 0 {
      NonZeroHasBit(x / 2);
    }
  }

  /** 2^(w-1) <= x < 2^w for the bit width w of a non-zero x. */
  lemma {:induction false} BitWidthBounds(x: nat)
    ensures x < Pow2(BitWidth(x))
    ensures x != 0 ==> Pow2(BitWidth(x) - 1) <= x
  {
    if x != 0 {
      BitWidthBounds(x / 2);
    }
  }

  lemma {:induction false} WordBitWidth(x: Word)
    ensures BitWidth(x) <= 64
  {
    if BitWidth(x) > 64 {
      BitWidthBounds(x);
      Pow2Monotone(64, BitWidth(x) - 1);
      assert Pow2(64) == WORD_LIMIT by { Pow2Value64(); }
    }
  }

  lemma {:induction false} Pow2Monotone(m: nat, n: nat)
    requires m <= n
    ensures Pow2(m) <= Pow2(n)
  {
    if m < n {
      Pow2Monotone(m, n - 1);
    }
  }

  lemma {:induction false} Pow2Add(m: nat, n: nat)
    ensures Pow2(m + n) == Pow2(m) * Pow2(n)
  {
    if n > 0 {
      Pow2Add(m, n - 1);
    }
  }

  lemma Pow2Value64()
    ensures Pow2(64) == WORD_LIMIT
  {
    assert Pow2(1) == 2;
    Pow2Add(1, 1);
    assert Pow2(2) == 4;
    Pow2Add(2, 2);
    assert Pow2(4) == 16;
    Pow2Add(4, 4);
    assert Pow2(8) == 0x100;
    Pow2Add(8, 8);
    assert Pow2(16) == 0x1_0000;
    Pow2Add(16, 16);
    assert Pow2(32) == 0x1_0000_0000;
    Pow2Add(32, 32);
  }

  /** x has no bit at or above its bit width. */
  lemma BitsAboveWidth(x: nat, i: nat)
    requires i >= BitWidth(x)
    ensures !Bit(x, i)
  {
    BitWidthBounds(x);
    BitsBelowPow2(x, BitWidth(x), i);
  }

  /** Every bit of a Word is below 64. */
  lemma WordBitsBelow64(x: Word, i: nat)
    requires i >= 64
    ensures !Bit(x, i)
  {
    WordBitWidth(x);
    BitsAboveWidth(x, i);
  }

  /** Two numbers with the same bits are equal. */
  lemma {:induction false} BitsDetermine(x: nat, y: nat, n: nat)
    requires x < Pow2(n) && y < Pow2(n)
    requires forall i :: 0 <= i < n ==> Bit(x, i) == Bit(y, i)
    ensures x == y
  {
    if n > 0 {
      forall i | 0 <= i < n - 1 ensures Bit(x / 2, i) == Bit(y / 2, i) {
        assert Bit(x, i + 1) == Bit(y, i + 1);
      }
      BitsDetermine(x / 2, y / 2, n - 1);
      assert Bit(x, 0) == Bit(y, 0);
    }
  }

  /** `count_tail_zero` (`__builtin_ctzll`): the index of the lowest set bit.
      The builtin is undefined on 0, and every caller passes a non-zero mask. */
  function CountTailZero(x: Word): (r: nat)
    requires x != 0
    ensures r < 64 && Bit(x, r)
    ensures forall i :: 0 <= i < r ==> !Bit(x, i)
  {
    WordBitWidth(x);
    CtzOf(x)
  }

  function CtzOf(x: nat): (r: nat)
    requires x != 0
    ensures Bit(x, r)
    ensures r < BitWidth(x)
    ensures forall i :: 0 <= i < r ==> !Bit(x, i)
  {
    if x % 2 == 1 then 0 else 1 + CtzOf(x / 2)
  }

  /** `count_left_zero` (`__builtin_clzll`) on a 64-bit mask. The builtin is
      undefined on 0. */
  function CountLeftZero(x: Word): (r: nat)
    requires x != 0
    ensures r < 64
    ensures Bit(x, 63 - r)
    ensures forall i :: 63 - r < i ==> !Bit(x, i)
  {
    WordBitWidth(x);
    NonZeroHasBit(x);
    forall i | 63 - (64 - BitWidth(x)) < i ensures !Bit(x, i) {
      BitsAboveWidth(x, i);
    }
    64 - BitWidth(x)
  }

  /** `clear_lowest_bit`: `x & (x - 1)` with the unsigned wrap-around of
      `x - 1` at 0 written out. */
  function ClearLowestBit(x: Word): (r: Word) {
    And(x, (x + WORD_LIMIT - 1) % WORD_LIMIT)
  }

  /** The bit pattern of x - 1 relative to the lowest set bit of x. */
  lemma {:induction false} BitOfPredecessor(x: nat, i: nat)
    requires x != 0
    ensures Bit(x - 1, i) == (if i < CtzOf(x) then true else if i == CtzOf(x) then false else Bit(x, i))
  {
    if x % 2 == 1 {
      if i > 0 {
        assert (x - 1) / 2 == x / 2;
      }
    } else if i > 0 {
      assert (x - 1) / 2 == x / 2 - 1;
      BitOfPredecessor(x / 2, i - 1);
    }
  }

  /** `clear_lowest_bit` clears exactly the lowest set bit; 0 stays 0. */
  lemma ClearLowestBitSpec(x: Word, i: nat)
    ensures x == 0 ==> ClearLowestBit(x) == 0
    ensures x != 0 ==> Bit(ClearLowestBit(x), i) == (Bit(x, i) && i != CountTailZero(x))
  {
    if x != 0 {
      assert (x + WORD_LIMIT - 1) % WORD_LIMIT == x - 1;
      BitAnd(x, x - 1, i);
      BitOfPredecessor(x, i);
    }
  }

  // ---------------------------------------------------------------------
  // Masks as sets of bit positions
  // ---------------------------------------------------------------------

  /** The set bits of a 64-bit mask. */
  ghost function Bits(x: Word): set<nat> {
    set i: nat | i < 64 && Bit(x, i)
  }

  /** A mask is zero exactly when it has no set bit. */
  lemma ZeroIffNoBits(x: Word)
    ensures x == 0 <==> Bits(x) == {}
  {
    if x == 0 {
      forall i: nat ensures !Bit(x, i) { ZeroHasNoBits(i); }
    } else {
      assert CountTailZero(x) in Bits(x);
    }
  }

  /** The lowest set bit is the least element of the bit set. */
  lemma CountTailZeroIsLeast(x: Word)
    requires x != 0
    ensures CountTailZero(x) in Bits(x)
    ensures forall i :: i in Bits(x) ==> CountTailZero(x) <= i
  {
  }

  /** `clear_lowest_bit` as a set operation. */
  lemma ClearLowestBitBits(x: Word)
    requires x != 0
    ensures Bits(ClearLowestBit(x)) == Bits(x) - {CountTailZero(x)}
  {
    forall i: nat | i < 64 ensures Bit(ClearLowestBit(x), i) == (Bit(x, i) && i != CountTailZero(x)) {
      ClearLowestBitSpec(x, i);
    }
  }

  /** `63 - count_left_zero(x)` is the greatest element of the bit set; this
      is how the in-block pass reads the highest flagged position. */
  lemma HighestBit(x: Word)
    requires x != 0
    ensures 63 - CountLeftZero(x) in Bits(x)
    ensures forall i :: i in Bits(x) ==> i <= 63 - CountLeftZero(x)
  {
  }

  /** `x & ((1 << t) - 1)` keeps exactly the bits below t. */
  lemma {:induction false} LowMaskBits(x: Word, t: nat)
    requires t < 64
    ensures And(x, Pow2(t) - 1) < WORD_LIMIT
    ensures Bits(And(x, Pow2(t) - 1)) == set i | i in Bits(x) && i < t
  {
    var ones := Pow2(t) - 1;
    var r := And(x, ones);
    forall i: nat ensures Bit(r, i) == (Bit(x, i) && i < t) {
      BitAnd(x, ones, i);
      LowOnesBits(t, i);
    }
  }

  /** 2^t - 1 has exactly the bits below t. */
  lemma {:induction false} LowOnesBits(t: nat, i: nat)
    ensures Bit(Pow2(t) - 1, i) == (i < t)
  {
    if t == 0 {
      ZeroHasNoBits(i);
    } else if i > 0 {
      assert (Pow2(t) - 1) / 2 == Pow2(t - 1) - 1;
      LowOnesBits(t - 1, i - 1);
    }
  }
}
