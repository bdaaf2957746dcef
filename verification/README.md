# Introsort with small-array fast paths, in Dafny

This project models the in-place comparison sort of the `sorter` library:
- `qsort` looks for a run at the front of the range, then runs an introsort.
- The introsort is a quicksort loop with a depth budget and a heap-sort fallback.
- It chooses pivots by median of three or by recursive pseudo-median.
- It partitions with one of two schemes: a Hoare-style cyclic partition, or a block partition that records comparison outcomes in 64-bit masks.
- An "ancestor pivot" detects runs of equal elements.
- Ranges of at most 32 elements go to a small-sequence sorter: sorting networks with bitonic merging, a stable sorter built from `sort4_stable`/`sort8_stable`, `insert_tail` and `merge_move`, or plain insertion sort.

Elements are a generic type `T` ordered by `less: (T, T) -> bool`. Every sorting routine requires `less` to be a strict weak order (`Order.StrictWeakOrder`). A range is a `seq<T>` value: each routine takes the range and returns what it leaves there.

Every sorting routine proves two facts about its result:
- it is sorted, meaning no later element is less than an earlier one;
- it is a permutation of its input (multiset equality).

The stable routines also prove `Order.Stable`: for every equivalence class, the result lists the class's members in the order the input has them.

The modules follow the source files:

| module | file | source |
|---|---|---|
| `Order` | order.dfy | the strict-weak-order vocabulary: sortedness, stability, the order laws |
| `SortAux` | sort_aux.dfy | `sort_aux.h`: constants, capability dispatch, 64-bit mask utilities |
| `Networks` | networks.dfy | `small_sort.h`: compare-exchange, `sort2..8_optimal`, `sort1to8` |
| `Bitonic` | bitonic.dfy | `small_sort.h`: `enforce_order`, `forward_merge`, `backward_merge`, `small_sort_network` |
| `Insertion` | insertion.dfy | `small_sort.h`: `insertion_sort`, `insert_tail` |
| `StableSmall` | stable.dfy | `small_sort.h`: `merge_move`, `sort4_stable`, `sort8_stable`, `small_sort_general` |
| `Heap` | heap.dfy | `qsort.h`: `sift_down`, `heap_sort` |
| `Pivot` | pivot.dfy | `qsort.h`: `median_of_three`, `median_of_three_recursive`, `choose_pivot` |
| `Partition` | partition.dfy | `qsort.h`: `hoare_branchy_cyclic` and the partition contract |
| `BitsetPartition` | bitset.dfy | `qsort.h`: the bitmask helpers and `bitset_partition` |
| `QuickSort` | quicksort.dfy | `qsort.h`: `small_sort` dispatch, `partition_by_choosed_pivot`, `reverse_predicate`, `quick_sort`, `find_existing_run`, `log2i`, `qsort` |

How the proofs are built:
- **Sorting networks** use the 0-1 principle. Mapping each element `x` to `less(t, x)` commutes with a compare-exchange. On booleans, every network is checked outright.
- **Strict weak order.** The order laws are stated once, in `Order.StrictWeakOrder`. `Order.LessLe` derives the mixed strict/non-strict transitivity forms that the proofs use.
- **Bit masks.** A `uint64_t` mask is a `SortAux.Word`: a natural number below 2^64, with bitwise AND/OR defined bit by bit. The wrap-around of `x - 1` at 0 is written out. `SortAux.Bits(x)` is the set of set bits. The block partition's bookkeeping is stated in terms of these sets.

Where the code and its own comments differ, the model follows the code:
- **Ascending run.** The comment at qsort.h:477 says `mid == last` means "strictly ascending". The run that `find_existing_run` accepts as ascending is in fact non-descending: equal neighbours continue it. `QuickSort.FindExistingRun` models the code.

**Short tail in the network path.** In `small_sort_network` (small_sort.h:411-425), `enforce_order` (small_sort.h:309-333) sorts the short last block with `sort1to8`. The bitonic merges then merge it with the rest.

## Model

| member | source | states |
|---|---|---|
| SortAux.ScratchConstantsCoverBuffers | sort_aux.h:24-31 | The scratch buffers cover the lengths they are used with. The 32-slot network scratch holds `SSORT_MAX` elements. The 48-slot general scratch holds `SSORT_MAX + 16`, which `small_sort_general` assumes; `QuickSort.SmallSort` relies on this. A bitonic window is two 8-element blocks. |
| SortAux.ChoosePartition | sort_aux.h:47-52 | The bitmask partition is chosen exactly when the element type is trivially copyable and arithmetic and the comparator is simple. Otherwise the Hoare scheme is chosen. |
| SortAux.ChooseSmallSort | small_sort.h:585-599 | Networks are used exactly when `use_sorting_network` holds, which needs a simple comparator and elements of at most 32 bytes. When networks are not usable, the stable merging sorter is used exactly when 48 elements fit the 4096-byte stack budget. Otherwise insertion sort is used. |
| SortAux.CountTailZero | sort_aux.h:71-78 | For a non-zero mask the result is below 64, that bit is set, and every lower bit is clear. |
| SortAux.CountLeftZero | sort_aux.h:80-87 | For a non-zero mask the result is below 64, bit `63 - r` is set, and every higher bit is clear. |
| SortAux.ClearLowestBitSpec | sort_aux.h:62-69 | `x & (x - 1)` maps 0 to 0. On a non-zero mask it clears exactly the lowest set bit and keeps every other bit. |
| SortAux.ClearLowestBitBits | sort_aux.h:62-69 | As bit sets: `clear_lowest_bit` removes exactly `count_tail_zero(x)`. |
| SortAux.HighestBit | qsort.h:287 | `63 - count_left_zero(x)` is the greatest set bit of a non-zero mask. |
| SortAux.LowMaskBits | qsort.h:288 | `x & ((1 << t) - 1)` keeps exactly the set bits below `t`, for `t < 64`. |
| SortAux.ZeroIffNoBits | qsort.h:167 | A mask is zero exactly when it has no set bit. This is the loop test of the mask loops. |
| Networks.CondSwapSpec | small_sort.h:6-32 | After `conditional_swap` the pair holds the same two values with `!less(r[j], r[i])`. After `reverse_conditional_swap` it holds them with `!less(r[i], r[j])`. No other slot changes, and the result is a permutation. |
| Networks.CondSwapThreshold | small_sort.h:6-32 | Under a strict weak order, the map `x -> less(t, x)` commutes with both compare-exchanges. |
| Networks.Sort1To8Threshold | small_sort.h:265-304 | Every network of `sort1to8` commutes with every threshold map. |
| Networks.Sort8Bools | small_sort.h:164-198 | `sort8_optimal` orders every boolean input in the direction of its swap. Its first ten exchanges sort each half (`Sort8HalvesBools`). The last nine merge the halves (`Sort8MergeBools`). |
| Networks.Sort1To8Bools | small_sort.h:265-304 | Every network for 2 to 8 elements (small_sort.h:39-198) orders every boolean input. |
| Networks.Sort1To8Permutes | small_sort.h:265-304 | Every network only permutes. |
| Networks.ZeroOne | small_sort.h:265-304 | If every threshold image of a sequence is ordered, the sequence is sorted, non-descending or non-ascending by the swap kind. |
| Networks.SortUpTo8 | small_sort.h:265-304 | `sort1to8` with `conditional_swap` leaves a non-descending permutation of 0 to 8 elements. With `reverse_conditional_swap` it leaves a non-ascending one. Lengths 0 and 1 are untouched. |
| Bitonic.SortBlock | small_sort.h:316-332 | One network call of `enforce_order` replaces its block with a permutation of it, sorted in the block's direction. Earlier blocks are kept and later ones are untouched. |
| Bitonic.EnforceOrder | small_sort.h:306-333 | Every 8-element block, including a shorter last one, becomes a permutation of itself. Even blocks are ascending and odd blocks descending. |
| Bitonic.BlocksBitonic | small_sort.h:306-333 | An ascending block followed by its descending neighbour (or by the end) forms a bitonic window with the same elements. |
| Bitonic.EnforcedWindows | small_sort.h:306-333 | For 9 to 32 elements, `enforce_order` leaves a permutation whose first 16-window and whose rest are each bitonic. |
| Bitonic.EndIsMinimum | small_sort.h:348-358 | The smaller of the two ends of a bitonic range is its minimum. This is why taking ends yields a non-descending output. |
| Bitonic.ForwardMerge | small_sort.h:335-363 | `forward_merge` on a non-empty bitonic range writes a non-descending permutation of it. |
| Bitonic.BackwardMerge | small_sort.h:365-394 | `backward_merge` fills the destination from its right end down, giving a non-ascending permutation. |
| Bitonic.RiseThenFall | small_sort.h:422-424 | An ascending block followed by a descending block is bitonic. This holds for the scratch block after the two window merges. |
| Bitonic.MergeTwoWindows | small_sort.h:420-425 | Merging the first window up and the rest down, then merging the scratch block forward, gives a sorted permutation. |
| Bitonic.SmallSortNetwork | small_sort.h:396-428 | `small_sort_network` leaves a sorted permutation for up to 32 elements. |
| Insertion.InsertionStep | small_sort.h:219-223 | Inserting an element after every element not greater than it keeps a sorted block sorted. It stays stable, because the element passes only strictly greater ones, and the result is a permutation. |
| Insertion.MoveBackward | small_sort.h:216 | `std::move_backward` shifts a block to the right and leaves the rest of the range as it was. |
| Insertion.InsertFront | small_sort.h:214-218 | An element less than the first is moved to the front, and that is where it belongs. |
| Insertion.UnguardedInsert | small_sort.h:219-224 | The unguarded inner loop stops at the first element not greater than the value. `*first` stops it at the latest. |
| Insertion.PrefixInsertion | small_sort.h:209-225 | Each outer round extends a sorted, stable permutation of the prefix by one element. |
| Insertion.InsertionSort | small_sort.h:200-227 | `insertion_sort` leaves a sorted, stable permutation. |
| Insertion.GuardedInsert | small_sort.h:238-246 | The inner loop of `insert_tail` moves exactly the strictly greater elements up one slot, stops at `first`, and writes the tail element into the hole. |
| Insertion.InsertTail | small_sort.h:229-247 | With `[first, tail)` sorted, `[first, tail]` becomes a sorted, stable permutation and nothing outside it changes. No write happens when the tail is not less than its predecessor. |
| StableSmall.MergePermutes | small_sort.h:430-459 | A merge holds exactly the elements of both runs. |
| StableSmall.MergeSorted | small_sort.h:430-459 | The merge of two sorted runs is sorted. |
| StableSmall.MergeFilter | small_sort.h:442-456 | The merge takes ties from the left run, so each equivalence class of the output is the class from the left run followed by the class from the right run. |
| StableSmall.MergeSpec | small_sort.h:430-459 | Merging two sorted runs gives a sorted, stable permutation of their concatenation. |
| StableSmall.MergeAtIsMerge | small_sort.h:439-458 | The loop of `merge_move`, from any state of its two cursors, writes the merge of what remains of the two runs. |
| StableSmall.MergeMove | small_sort.h:430-459 | `merge_move` writes the stable merge of `[first, mid)` and `[mid, last)`, and the returned end lies `last - first` slots on. |
| StableSmall.SortPairSpec | small_sort.h:479-486 | Ordering a pair by one comparison, swapping only when the second is strictly less, gives a sorted, stable pair. |
| StableSmall.SelectFourIsMerge | small_sort.h:488-506 | On two sorted pairs, the min/max/unknown selection of `sort4_stable` equals their stable merge. |
| StableSmall.Sort4Stable | small_sort.h:466-513 | `sort4_stable` writes a sorted, stable permutation of its four inputs. |
| StableSmall.Sort8Stable | small_sort.h:515-528 | `sort8_stable` writes a sorted, stable permutation of its eight inputs. |
| StableSmall.Presort | small_sort.h:546-566 | Each half's presorted prefix has length 8 (element size at most 16 and length at least 16), otherwise 4 (length at least 8), otherwise 1. That prefix is a sorted, stable permutation of the half's first elements. |
| StableSmall.ExtendSorted | small_sort.h:568-579 | Growing a half by `insert_tail` from its presorted prefix gives a sorted, stable permutation of the whole half. |
| StableSmall.CombineHalves | small_sort.h:581 | Merging the two sorted halves gives a sorted, stable permutation of the range. |
| StableSmall.SmallSortGeneral | small_sort.h:530-583 | `small_sort_general` leaves a sorted, stable permutation of a range whose length plus 16 fits the 48 scratch slots. Fewer than two elements are left alone. |
| Heap.Parent | qsort.h:20-21 | Node `c > 0` is child `2p + 1` or `2p + 2` of its parent `p < c`. |
| Heap.RootIsMax | qsort.h:36-48 | The root of a max-heap is not less than any node. |
| Heap.SiftStep | qsort.h:23-28 | Moving the larger child up into the hole keeps the heap property above the hole. |
| Heap.SiftFinish | qsort.h:25-30 | Writing the held value into the hole, once no child is greater, completes the heap. |
| Heap.SiftDown | qsort.h:5-31 | With every subtree below `node` already a max-heap, `sift_down` only permutes, makes the subtree at `node` a max-heap, and leaves everything before `node` alone. |
| Heap.SwapRoot | qsort.h:45 | Swapping the heap root behind the heap extends the sorted tail, which stays above the heap. |
| Heap.HeapSort | qsort.h:33-48 | `heap_sort` leaves a sorted permutation of at least two elements. |
| Pivot.MedianOfThree | qsort.h:50-69 | `median_of_three` returns one of its three positions. |
| Pivot.MedianOfThreeIsMedian | qsort.h:50-69 | Under a strict weak order, the returned element lies between the other two. |
| Pivot.PseudoMedian | qsort.h:71-91 | Every position `median_of_three_recursive` samples, and so its result, lies within `step` of `a`, `b` or `c`, all inside the range. |
| Pivot.Samples | qsort.h:101-105 | The three sample positions lie inside a non-empty range. |
| Pivot.ChoosePivot | qsort.h:93-107 | The chosen position is inside the range, and the only change is swapping it to the front. Below 64 elements it is the median of the three samples. From 64 on it lies in one of the three sample windows. |
| Partition.ScanFirst | qsort.h:119 | The first scan stops at the first element, after the pivot, that is not less than the pivot, or at the end. |
| Partition.ScanLast | qsort.h:120 | The second scan stops on the last element less than the pivot, never going below `first`. |
| Partition.ScanUp | qsort.h:128 | The bounded upward scan stays at or below `last` and stops on an element not less than the pivot when it stops early. |
| Partition.ScanDown | qsort.h:133 | The unguarded downward scan stays in range: the element before `first`, which is less than the pivot, stops it. |
| Partition.CycleRound | qsort.h:124-134 | One round of the cyclic loop keeps its invariant and narrows the gap between the cursors. Otherwise it ends the loop. |
| Partition.Cycle | qsort.h:121-136 | The cyclic loop ends with `[1, first)` less than the pivot, `(first, n)` not less, and the held element belonging at `first`. |
| Partition.PlacePivot | qsort.h:137-138 | Moving the last smaller element to the front and the pivot into its slot gives the partition contract. |
| Partition.HoarePartition | qsort.h:109-140 | `hoare_branchy_cyclic` returns `p` in range with the original first element at `p`, every element before `p` less than it and none after it less. The result is a permutation. |
| BitsetPartition.SetBit | qsort.h:193 | Or-ing `c << j` into a mask whose bits lie below `j` sets bit `j` to `c` and keeps every other bit. |
| BitsetPartition.PopulateLeft | qsort.h:181-197 | Bit `j` of the left mask is set exactly when `first[j]` is not less than the pivot, for `j` below the block size. Bits beyond it are clear. |
| BitsetPartition.PopulateRight | qsort.h:199-215 | Bit `j` of the right mask is set exactly when `lm1[-j]` is less than the pivot. |
| BitsetPartition.TakeLowest | qsort.h:155-159 | Taking the lowest bit off a non-empty mask removes one element from its bit set. |
| BitsetPartition.WriteInBlock | qsort.h:165-176 | A write inside one of the two blocks leaves everything outside both blocks alone. |
| BitsetPartition.FillRightHole | qsort.h:174 | Moving a flagged left element into the right hole makes that right slot hold an element not less than the pivot. |
| BitsetPartition.FillLeftHole | qsort.h:176 | Moving a flagged right element into the left hole makes that left slot hold an element less than the pivot. |
| BitsetPartition.CycleStart | qsort.h:155-165 | The first pair of bits taken starts the cycle invariant. |
| BitsetPartition.CycleStep | qsort.h:167-177 | One round takes one bit from each mask and moves one element around the cycle, keeping the invariant. |
| BitsetPartition.CycleLoop | qsort.h:167-177 | The loop runs until one mask is empty, keeping the invariant. |
| BitsetPartition.CycleEnd | qsort.h:178 | Writing the held element into the last hole completes the swap postcondition. |
| BitsetPartition.SwapBitmapCyclic | qsort.h:142-179 | `swap_bitmap_cyclic` only permutes, and only inside its two blocks. Every cleared left bit now marks an element less than the pivot, and every cleared right bit one that is not. Both masks lose the same number of bits. On return at least one mask is zero. |
| BitsetPartition.EmptyLeft | qsort.h:339 | A left block with an empty mask holds only elements less than the pivot. |
| BitsetPartition.EmptyRight | qsort.h:340 | A right block with an empty mask holds no element less than the pivot. |
| BitsetPartition.SwapKeepsFrame | qsort.h:338-340 | After the cyclic swap, a block whose mask is empty joins its finished side. |
| BitsetPartition.BlockRound | qsort.h:329-341 | One round of the main loop keeps the loop state and shrinks the unpartitioned middle. |
| BitsetPartition.PartialBlocks | qsort.h:217-273 | The remainder is split as the source does. When both masks are empty it is halved. Otherwise the side with a mask keeps a full block. After one cyclic swap, what is left is exactly the block of the one non-empty mask, or nothing. |
| BitsetPartition.TakeHighest | qsort.h:287-288 | `BLOCK_SIZE - 1 - count_left_zero(m)` is the highest flagged bit, and the mask below it loses exactly that bit. |
| BitsetPartition.WithinLeftStep | qsort.h:285-291 | Swapping the highest flagged left element with `*lm1` and moving `lm1` down keeps the invariant. |
| BitsetPartition.WithinRightStep | qsort.h:296-302 | Swapping the highest flagged right element with `*first` and moving `first` up keeps the invariant. |
| BitsetPartition.SwapPosWithin | qsort.h:275-304 | After `swap_bitmap_pos_within`, the range splits at `first`: elements before it are less than the pivot and elements from it on are not. |
| BitsetPartition.FirstSwap | qsort.h:319-322 | Swapping the first misplaced pair found by the two scans starts the block loop with empty masks. |
| BitsetPartition.BlockPartition | qsort.h:306-352 | `bitset_partition` meets the same contract as `hoare_branchy_cyclic`. |
| QuickSort.SmallSort | small_sort.h:585-599 | `small_sort` leaves a sorted permutation on every path. The two non-network paths are also stable. |
| QuickSort.PartitionByChosenPivot | qsort.h:354-366 | Whichever scheme is chosen, the result meets the partition contract. |
| QuickSort.ReversedPartition | qsort.h:368-376 | Partitioning by `reverse_predicate` puts the elements not greater than the pivot before it and the greater ones after it. |
| QuickSort.AncestorLeftEquivalent | qsort.h:414-416 | Suppose the ancestor pivot is not less than the new pivot, and the ancestor is not greater than anything in the range. Then everything at or before the pivot after the reversed partition is equivalent to it. |
| QuickSort.AncestorStep | qsort.h:414-419 | The equal block is final. The loop goes on with the greater elements and no ancestor. |
| QuickSort.LeftKeepsAncestor | qsort.h:426 | The left part handed to the recursive call keeps the ancestor below all its elements. |
| QuickSort.LeftOfPivot | qsort.h:422-426 | The sorted left part lies below the pivot and below everything after it. |
| QuickSort.PivotStep | qsort.h:422-428 | The sorted left part and the pivot are final. The pivot becomes the ancestor of the right part and lies below all of it. |
| QuickSort.Finish | qsort.h:390-401 | A sorted permutation of the remaining range, put after the finished part, sorts the whole range. |
| QuickSort.QuickSortLoop | qsort.h:378-430 | `quick_sort` leaves a sorted permutation for every depth budget. It needs an ancestor pivot, if any, that is not greater than any element. |
| QuickSort.FindExistingRun | qsort.h:432-451 | With fewer than two elements the run is the whole range and not descending. Otherwise `mid - first >= 2`. The flag is `less(s[1], s[0])`. The run is strictly descending or non-descending by the flag, and it is maximal. |
| QuickSort.Log2i | qsort.h:453-469 | `log2i(v)` is `floor(log2 v)` for `v > 0`: `2^r <= v < 2^(r+1)`. |
| QuickSort.DepthLimit | qsort.h:489-493 | The depth budget is `2 * floor(log2 n)`. |
| QuickSort.SortedIsOneRun | qsort.h:477-483 | On a sorted range the run scan reaches the end, not descending. |
| QuickSort.DescendingIsOneRun | qsort.h:477-483 | On a strictly descending range the run scan reaches the end, descending, or the range is too short to need reversal. |
| QuickSort.QSort | qsort.h:471-494 | `qsort` leaves a sorted permutation. A sorted input is returned unchanged, so sorting is idempotent. A strictly descending input is exactly reversed. |
| Order.AdjacentIsSorted | qsort.h:447-449 | A range in which no element is less than its predecessor is sorted. |
| Order.StrictlyDescendingReversed | qsort.h:481-488 | Reversing a strictly descending range sorts it. |

## Left out

- Iterators and `prev_iter`/`next_iter` (sort_aux.h:89-99) are index arithmetic `i - 1` and `i + 1` on sequence positions. Sequences are values, so "does not modify its argument" holds trivially.
- Ranges are sequence values, not in-place arrays. The model does not track aliasing, scratch-buffer addresses, object lifetimes (`construct_at`, `destroy_n`), moved-from states or the `construct`/`move_assign` policies. A merge into scratch returns the block it writes.
- C++ type traits, `sizeof` and `is_simple_comparator` are the data type `SortAux.Capabilities`. `SIZE_T_BYTES` is 8, as on the 64-bit targets the code is written for.
- `std::reverse` is `Order.Reverse`, and `std::inplace_merge` is `StableSmall.Merge`, which has its sorted, stable permutation contract.
- The two-argument `qsort` overload (qsort.h:496-503) is `QuickSort.QSort` with a `less` of the caller's choice. It is not modelled separately.
- The pre-C++17 `log2i` variant through `__builtin_clz*` is not modelled. `QuickSort.Log2i` follows the `std::bit_width` variant, and both compute the same value for positive inputs.
- Comparison counts, branchless code generation and the O(n log n) bound are not modelled. This includes the five comparisons of `sort4_stable` and the three of `median_of_three`. Termination is proved from the range length, not from the depth budget.
- QuickSort.QuickSortLoop: the depth budget is decremented once per partition step as in the source, but no contract states that count.
- QuickSort.QuickSortLoop: the ancestor pivot is held as a value. Its position at `first - 1` is not stated.
- The pivot slot: the source moves the pivot out of `*first` into a local and writes it back at the end. The model leaves it at position 0 until the final two writes. Both produce the same range.
- Partition.HoarePartition and BitsetPartition.BlockPartition do not require a strict weak order, because the reversed predicate `reverse_predicate` is not one. Their contract holds for any predicate, which is how the ancestor branch uses them.
- Comparators that are not strict weak orders (floating-point NaN, for example) are excluded by the precondition `Order.StrictWeakOrder`.
