# pyopencl scan-based algorithms, sequential model

This project models the sequential meaning of pyopencl's prefix-scan engine
and of the bulk-array algorithms built on it. Its tests pin that meaning down
through host-side reference computations: `np.cumsum`, boolean-mask selection,
`np.unique`, `np.sort`, a hand-written segmented cumulative sum and a
dictionary grouping. The model covers the following.

- **Scan engine** (`Scan`, `scan.dfy`): the inclusive and exclusive scan for
  any combine operator and neutral element, as a left fold and as in-place
  kernels over an array. The `a+b`/`0` scan is `np.cumsum`, and the `b` scan
  preserves indices.
- **Blocked scan** (`BlockedScan`, `blocked_scan.dfy`): the work-group
  structure. Each block is scanned locally, the block sums are scanned, and
  the carries are propagated. Two levels equal the flat inclusive and
  exclusive scans for every length and positive block size; repeating the
  inclusive scan recursively equals the flat one for every block size of at
  least 2.
- **Segmented scan** (`SegmentedScan`, `segmented_scan.dfy`): the combine
  `across_seg_boundary ? b : a+b` as a scan over (crossed-a-flag, value)
  pairs. It is compared with the per-segment specification and with the
  test's host reference loop.
- **copy_if, partition, unique** (`StreamPrimitives`, `stream.dfy`): each is
  a flag, then an exclusive `+` scan giving every kept element its output
  slot, then a scatter. Each is proved equal to the order-preserving filter
  or run-deduplication, and the last is also proved equal to `np.unique`.
- **Key-value grouping** (`Grouping`, `grouping.dfy`): the key histogram, its
  exclusive scan into CSR `starts`, and the stable scatter into `lists`. It
  is compared with the test's `setdefault(...).append` dictionary.
- **Radix sort** (`RadixSort`, `radix_sort.dfy`): one stable regrouping by
  each digit, lowest digit first, built from the grouping pass. The result
  is sorted, a permutation, and equal to a reference sort.
- **List-of-lists builder** (`ListBuilder`, `list_builder.dfy`): a counting
  pass, an exclusive scan of the counts into start offsets, and an emitting
  pass. The test's generator is included, with its count of 3000 and its
  last six items.
- **Record reduction** (`MinMaxReduction`, `minmax.dfy`): the min/max
  collector with neutral `(1<<30, -(1<<30))`.

## Model

| member | source | states |
|---|---|---|
| Scan.Inclusive | test/test_algorithm.py:500-509 | the `InclusiveScanKernel` result: one output per input, output i being the combine, from the neutral element, of elements 0 through i |
| Scan.Exclusive | test/test_algorithm.py:511-513 | combining position i of the exclusive scan with element i gives position i of the inclusive scan; position 0 holds the neutral element |
| Scan.ExclusiveIsShiftedInclusive | test/test_algorithm.py:511-513 | the exclusive scan is the inclusive scan shifted right by one place |
| Scan.AddIsMonoid | test/test_algorithm.py:500 | `a+b` is associative with neutral `0` |
| Scan.FoldAddIsSum | test/test_algorithm.py:511 | folding with `+` from 0 is the sum |
| Scan.FoldConcat | test/test_algorithm.py:500 | for an associative combine with a neutral element, the fold of a concatenation is the combine of the two folds |
| Scan.InclusiveConcat | test/test_algorithm.py:500 | the scan of a concatenation is the scan of the first part, then the scan of the second part with the first part's total in front |
| Scan.SumScans | test/test_algorithm.py:500-521 | for every length, the `a+b`/`0` inclusive scan is `cumsum` and the exclusive scan is `cumsum` minus the element, so position 0 is 0 |
| Scan.RightScanPreserves | test/test_algorithm.py:620-627 | with the combine `b`, the inclusive scan of any input is that input |
| Scan.IndexPreservation | test/test_algorithm.py:620-632 | a `b` scan of input `i` writes `i` at every index `i`, for every length |
| Scan.InclusiveScanInPlace | test/test_algorithm.py:509-513 | the in-place kernel leaves the inclusive scan of the old contents |
| Scan.ExclusiveScanInPlace | test/test_algorithm.py:509-513 | the in-place kernel leaves the exclusive scan of the old contents and returns the total fold |
| BlockedScan.Blocks | test/test_algorithm.py:471-488 | cutting into blocks loses nothing: every block is non-empty and at most the block size, every block but the last is full, and flattening gives back the input |
| BlockedScan.BlocksFewer | test/test_algorithm.py:471-488 | with blocks of two or more elements there are fewer blocks than elements, so scanning the block sums again is a smaller problem |
| BlockedScan.FoldBlockSums | test/test_algorithm.py:471-488 | the fold of the block sums is the fold of the whole input |
| BlockedScan.TwoLevelInclusiveCorrect | test/test_algorithm.py:471-488 | local scans plus the propagated exclusive scan of the block sums equal the flat inclusive scan |
| BlockedScan.TwoLevelExclusiveCorrect | test/test_algorithm.py:471-488 | the same for the exclusive scan |
| BlockedScan.BlockedScanCorrect | test/test_algorithm.py:471-488 | for every length and positive block size, the two-level inclusive and exclusive scans equal the flat scans |
| BlockedScan.MultiLevelCorrect | test/test_algorithm.py:471-488 | the recursive multi-level scan (block sums scanned by the same scheme) equals the flat inclusive scan for every block size of at least 2 |
| BlockedScan.RightLocalsAreBlocks | test/test_algorithm.py:620-628 | under the combine `b` each block's local scan is the block itself and propagation discards every carry |
| BlockedScan.BlockedRight | test/test_algorithm.py:620-632 | under `b`, which has no two-sided identity, the two-level scan gives back its input for every positive block size |
| BlockedScan.MultiLevelRight | test/test_algorithm.py:620-632 | under `b` the multi-level scan gives back its input for every block size of at least 2 and every depth |
| BlockedScan.BlockedIndexPreservation | test/test_algorithm.py:620-632 | scanning `i` under `b` / `0` on the blocked engines writes `i` at every index, for every length and every block size of at least 2, as the test's `out == arange(n)` requires |
| BlockedScan.BlockedCumSum | test/test_algorithm.py:498-516 | the `a+b` / `0` scans on the blocked engines give `cumsum` (inclusive) and `cumsum - host_data` (exclusive) for every length and every block size of at least 2; the multi-level engine is covered for the inclusive scan |
| SegmentedScan.SegCombine | test/test_algorithm.py:660-661 | the `across_seg_boundary ? b : (a+b)` combine on (crossed, value) pairs: a right operand that starts or crosses a segment keeps its own value, otherwise the values are combined; the pair has crossed if either side has |
| SegmentedScan.SegOpMonoid | test/test_algorithm.py:656-663 | the lifted segmented combine is associative and has a neutral element whenever the underlying combine does |
| SegmentedScan.SegStart | test/test_algorithm.py:698-706 | the start of i's segment is at most i, is 0 or flagged, and no index after it up to i is flagged |
| SegmentedScan.KernelInclusive | test/test_algorithm.py:652-653 | the `out[i] = item` kernel: one output per input, the value part of the lifted inclusive scan |
| SegmentedScan.KernelExclusive | test/test_algorithm.py:650-651 | the `out[i] = prev_item` kernel: one output per input, the neutral element at a segment start and otherwise the value part of the lifted exclusive scan |
| SegmentedScan.KernelMatchesSpec | test/test_algorithm.py:656-663 | the scan over lifted pairs yields, at every index, the scan restarted at that index's segment start, both inclusive and exclusive |
| SegmentedScan.SegmentIsIndependentScan | test/test_algorithm.py:698-713 | the output on each segment equals an independent scan of that segment |
| SegmentedScan.SegmentPoint | test/test_algorithm.py:698-713 | pointwise form of the same statement |
| SegmentedScan.NoCrossing | test/test_algorithm.py:656-663 | from a flagged index on, the output does not depend on anything before it |
| SegmentedScan.SegmentedSums | test/test_algorithm.py:705-713 | inclusive output is the in-segment cumulative sum; exclusive output is 0 at every segment start and otherwise the sum of the earlier in-segment items |
| SegmentedScan.BlockedSegmentedInclusive | test/test_algorithm.py:684-685 | with flags, the multi-level blocked scan still equals the segmented inclusive scan, for every block size of at least 2 |
| SegmentedScan.BlockedSegmentedExclusive | test/test_algorithm.py:684-685 | the two-level blocked exclusive scan, reset to the neutral element at flags, equals the segmented exclusive scan, for every block size of at least 2 |
| SegmentedScan.SegmentedScanKernel | test/test_algorithm.py:656-663 | the kernel writes `prev_item` (exclusive) or `item` (inclusive) of the segmented scan to `out` |
| SegmentedScan.SegmentOfBoundaries | test/test_algorithm.py:691-706 | with sorted boundaries set as flags, every position between consecutive boundaries has the earlier one as its segment start |
| SegmentedScan.FillSegment | test/test_algorithm.py:708-713 | filling one segment writes its cumulative sums (shifted when exclusive), puts 0 at the segment start when exclusive, and leaves every position outside the segment alone |
| SegmentedScan.FillSums | test/test_algorithm.py:711-712 | the inclusive branch writes at each position of the segment the sum of the segment up to and including it, and leaves every position before and after the segment alone |
| SegmentedScan.FillShiftedSums | test/test_algorithm.py:707-709 | the exclusive branch writes at each position after the segment start the sum of the segment before it, and leaves the start and every position before and after the segment alone |
| SegmentedScan.SegmentFilled | test/test_algorithm.py:698-713 | a segment filled with its own cumulative sums holds, at every position, the segmented scan of the whole input under the boundary flags |
| SegmentedScan.HostSegmentedReference | test/test_algorithm.py:691-713 | the host reference loop over segment starts computes exactly the segmented inclusive or exclusive `+` scan |
| StreamPrimitives.Filter | test/test_algorithm.py:541 | `a[a > crit]` for any predicate: the elements satisfying it, in input order, never more than the input |
| StreamPrimitives.Above | test/test_algorithm.py:565-566 | the test's predicate `x > crit`; its negation is the `a <= crit` side of the partition |
| StreamPrimitives.FilterMembers | test/test_algorithm.py:541 | the selection holds exactly the input elements satisfying the predicate |
| StreamPrimitives.FilterSplits | test/test_algorithm.py:565-566 | the selected and rejected parts together are a permutation of the input |
| StreamPrimitives.FilterLengths | test/test_algorithm.py:572-575 | the two parts' lengths add up to n, so the false part has `n - count_true` entries |
| StreamPrimitives.FlagScanCounts | test/test_algorithm.py:543-545 | the exclusive scan of the 0/1 flags at i is the number of selected elements before i |
| StreamPrimitives.ScatterSelected | test/test_algorithm.py:543-545 | scattering selected elements to their scanned offsets writes the selection as the output's prefix and leaves the rest of the output untouched |
| StreamPrimitives.CopyIf | test/test_algorithm.py:540-545 | returns count = length of the selection and an output whose first `count` entries are the in-order selection |
| StreamPrimitives.CountScan | test/test_algorithm.py:570-571 | the exclusive scan of paired (true, false) flags counts both parts before i |
| StreamPrimitives.CountOffsets | test/test_algorithm.py:570-571 | every element's scanned pair is its destination in its part |
| StreamPrimitives.CountTotal | test/test_algorithm.py:572-575 | the scan total is the two part sizes, which add up to n |
| StreamPrimitives.ScatterPartition | test/test_algorithm.py:570-575 | the scatter writes each part, in order, as the prefix of its output and leaves the rest of each output untouched |
| StreamPrimitives.PartitionOffsets | test/test_algorithm.py:568-575 | the scan of the (true, false) flag pairs gives at each index how many earlier elements pass and how many fail, and in total the sizes of the true and false parts, which add up to n |
| StreamPrimitives.Partition | test/test_algorithm.py:564-575 | the true output's first `count_true` entries are the selection; the false output's first `n - count_true` entries are the in-order rejects |
| StreamPrimitives.Dedup | test/test_algorithm.py:589-599 | what unique keeps: one element per run of equal neighbours, in order, never more than the input |
| StreamPrimitives.RunScanCounts | test/test_algorithm.py:596-599 | the exclusive scan of run-start flags at i is the number of runs before i |
| StreamPrimitives.ScatterRunStarts | test/test_algorithm.py:596-599 | the scatter writes the first element of every run, in order, as the output's prefix and leaves the rest of the output untouched |
| StreamPrimitives.Unique | test/test_algorithm.py:596-599 | returns count = number of runs and an output whose first `count` entries are one element per run |
| StreamPrimitives.DedupOfSorted | test/test_algorithm.py:589-592 | on sorted input the run representatives are strictly increasing and are exactly the input's values |
| StreamPrimitives.DedupIncreasing | test/test_algorithm.py:589-592 | on sorted input the run representatives are strictly increasing |
| StreamPrimitives.DedupValues | test/test_algorithm.py:589-592 | the run representatives hold exactly the values of the input |
| StreamPrimitives.StrictlyIncreasingUnique | test/test_algorithm.py:592 | two strictly increasing sequences with the same values are equal |
| StreamPrimitives.DistinctCount | test/test_algorithm.py:592-599 | a strictly increasing sequence has as many elements as distinct values |
| StreamPrimitives.UniqueIsNumpyUnique | test/test_algorithm.py:589-599 | on sorted input, unique's output is `np.unique` and its count is the number of distinct values |
| StreamPrimitives.DedupFixed | test/test_algorithm.py:596-599 | a sequence without adjacent repeats is its own deduplication |
| StreamPrimitives.DedupNoRepeats | test/test_algorithm.py:596-599 | deduplication leaves no adjacent repeats |
| StreamPrimitives.DedupIdempotent | test/test_algorithm.py:596-599 | deduplicating twice is deduplicating once |
| StreamPrimitives.PartitionAtThreshold | test/test_algorithm.py:540-575 | with `x > crit`, the true part holds only values above crit, the false part only values at most crit, and together they are a permutation of the input |
| Grouping.OccIsMultiplicity | test/test_algorithm.py:831 | counting occurrences is the multiset multiplicity |
| Grouping.GroupNonEmpty | test/test_algorithm.py:825-831 | a key's group is non-empty exactly when the key occurs |
| Grouping.GroupMembers | test/test_algorithm.py:825-831 | a group takes no value more often than the input holds it |
| Grouping.OffsetTotal | test/test_algorithm.py:816-823 | with all keys below nkeys, the offset of nkeys is the number of pairs |
| Grouping.Histogram | test/test_algorithm.py:820 | the counting pass yields the number of pairs of every key, plus a trailing zero |
| Grouping.ScatterByKey | test/test_algorithm.py:820 | the stable scatter places, for every key, its group at its start offset |
| Grouping.GroupByKey | test/test_algorithm.py:818-831 | `starts` runs from 0 to n and is monotone; `lists[starts[k]:starts[k+1]]` is key k's values in input order; `lists` is all groups in key order |
| Grouping.StartsAreOffsets | test/test_algorithm.py:820 | the exclusive scan of the histogram is the start offsets: 0 first, n last, monotone |
| Grouping.GroupSlices | test/test_algorithm.py:828-831 | once every pair is placed, each key's slice is its group and `lists` is their concatenation |
| Grouping.ConcatGroupsPermutation | test/test_algorithm.py:828-831 | the grouped `lists` is a permutation of the values |
| Grouping.BuildDict | test/test_algorithm.py:825-827 | the `setdefault(k, []).append(v)` loop yields a dictionary whose keys are the occurring keys and whose entry for k is k's values in input order |
| Grouping.DictOfGroups | test/test_algorithm.py:825-827 | after the `setdefault(k, []).append(v)` steps over a prefix, the dictionary has exactly that prefix's keys and maps each to its values in input order |
| Grouping.GroupingMatchesDict | test/test_algorithm.py:828-831 | for each key, the dictionary has an entry exactly when the slice is non-empty, and then the two hold the same values (`sorted(...) == sorted(...)`) |
| RadixSort.LowStep | test/test_algorithm.py:763 | the low p+1 digits are digit p times radix^p plus the low p digits |
| RadixSort.DigitDominates | test/test_algorithm.py:763 | a smaller digit p means a smaller value of the low p+1 digits |
| RadixSort.LowOfSmall | test/test_algorithm.py:758-763 | a key below radix^p is its own low p digits |
| RadixSort.GroupSortedBy | test/test_algorithm.py:763 | the scatter is stable: each group of an ordered input stays ordered |
| RadixSort.GroupSortedNext | test/test_algorithm.py:763 | the group of one digit, ordered by the lower digits, is ordered by the lower digits plus this one |
| RadixSort.PassSorts | test/test_algorithm.py:763 | regrouping by a digit that dominates and keeps ties stable orders the whole output by the finer order |
| RadixSort.DigitOrders | test/test_algorithm.py:763 | digit p and the low digits meet both conditions of a pass |
| RadixSort.RadixPass | test/test_algorithm.py:763 | one pass on digit p turns order by the low p digits into order by the low p+1 digits, without losing or adding a value |
| RadixSort.AllDigitsSorted | test/test_algorithm.py:758-774 | order by all key digits is numeric order for keys below radix^passes |
| RadixSort.SortedUnique | test/test_algorithm.py:767-774 | two sorted sequences with the same elements are equal |
| RadixSort.ReferenceSort | test/test_algorithm.py:767 | the role of `np.sort`: an insertion sort whose result is a permutation of its input |
| RadixSort.ReferenceSortSorted | test/test_algorithm.py:767 | the reference sort is sorted (and, by its own contract, a permutation) |
| RadixSort.MatchesReference | test/test_algorithm.py:767-774 | every sorted permutation of the input equals the reference sort |
| RadixSort.SortPass | test/test_algorithm.py:763 | one pass leaves the values grouped by digit p, stably |
| RadixSort.RadixSort | test/test_algorithm.py:745-774 | for keys in [0, radix^passes), the output is sorted, a permutation of the input, and equal to the reference sort, as `np.sort` is, in a new array |
| ListBuilder.CountsPrefix | test/test_algorithm.py:785-797 | the exclusive sum of the counts before i is the number of items of indices before i |
| ListBuilder.CountsScanToStarts | test/test_algorithm.py:785-797 | the exclusive scan of the counts is the start offsets; its total is the item count |
| ListBuilder.EmittedSlice | test/test_algorithm.py:785-800 | index i's items sit right after those of the indices before it |
| ListBuilder.ListsAreSlices | test/test_algorithm.py:785-800 | each index's items are the slice between its start and the next one |
| ListBuilder.CountPass | test/test_algorithm.py:785-797 | the counting pass records every index's item count |
| ListBuilder.EmitPass | test/test_algorithm.py:785-800 | the emitting pass lays out all items in index order |
| ListBuilder.BuildLists | test/test_algorithm.py:785-800 | `count` is the number of items, `lists` is every index's items in index order, and every start is the number of items before it |
| ListBuilder.ModFour | test/test_algorithm.py:786-793 | the generator: index i appends `i % 4` items, each equal to `i % 4` |
| ListBuilder.ModFourCount | test/test_algorithm.py:787-799 | every four indices of the `i % 4` generator emit six items |
| ListBuilder.ModFourTail | test/test_algorithm.py:787-800 | through index 4q+3 there are 6q+6 items, ending in 1, 2, 2, 3, 3, 3 |
| ListBuilder.ModFourBuild | test/test_algorithm.py:797-800 | for 2000 indices the count is 3000 and the last six items are 1, 2, 2, 3, 3, 3 |
| MinMaxReduction.FromScalar | test/test_algorithm.py:390-396 | `mmc_from_scalar`: one element's record has it as both minimum and maximum |
| MinMaxReduction.Agg | test/test_algorithm.py:398-406 | `agg_mmc`: the result keeps the smaller of the two minima and the larger of the two maxima, each taken from one of the operands |
| MinMaxReduction.Reduce | test/test_algorithm.py:414-420 | the `ReductionKernel`: every element mapped to its record, folded with `agg_mmc` from `mmc_neutral()` |
| MinMaxReduction.AggAssociative | test/test_algorithm.py:398-406 | the collector combine is associative, so the parallel reduction may regroup it |
| MinMaxReduction.NeutralWithinBounds | test/test_algorithm.py:381-388 | the neutral record is an identity exactly for records with minimum at most 2^30 and maximum at least -2^30 |
| MinMaxReduction.ReduceBounds | test/test_algorithm.py:414-420 | for any input, the reduced minimum is at most every element and 2^30, and is 2^30 or an element; the same holds for the maximum; the empty input gives the neutral record |
| MinMaxReduction.ReduceIsMinMax | test/test_algorithm.py:410-425 | for non-empty input within ±2^30 (the test's [0, 10^6) is), the result is the input's minimum and maximum |
| MinMaxReduction.ReduceSplit | test/test_algorithm.py:414-420 | reducing two parts separately from the neutral record and combining them gives the reduction of the whole |
| MinMaxReduction.NeutralAbsorbed | test/test_algorithm.py:381-406 | combining the neutral record into any reduction result changes nothing |

## Left out

- SegmentedScan.HostSegmentedReference: on an empty input the exclusive branch of the host loop writes index 0 and raises an IndexError; the model requires a non-empty input for the exclusive branch instead of modelling that error.
- GPU execution (work-groups, local memory, events, kernel compilation and queues). Every operation is modelled as a sequential function or method. The blocked scan models the block structure but not concurrent execution.
- The library code itself (`pyopencl.scan`, `pyopencl.algorithm`, `pyopencl.reduction`) is not part of this model. The scan-then-scatter shape of copy_if, partition, unique, the grouping, the radix sort and the list builder follows what their results require.
- RadixSort.RadixSort: the digit width is a parameter (`radix`, `passes`). The library's choice of bits per pass for `key_bits=16` is not modelled, and keys must lie in [0, radix^passes), as the test's keys in [0, 2^16) do.
- RadixSort.RadixSort: the library sorts its key array with stable counting passes. Here each pass is the key-value grouping pass with the digit as key.
- Fixed-width integers: `int32`/`int64` overflow is not modelled. Values are unbounded, and the tests' values (0..9, below 1000, below 10^6) fit.
- MinMaxReduction.ReduceBounds: `mmc_from_scalar` takes a `float`. The int-to-float-to-int round trip is taken as exact, which holds for the tests' values below 2^24.
- The `pad` field of the collector record carries no information and is left out.
- The test's dictionary lookup `mydict[i]` fails with a KeyError for a key that never occurs. Grouping.GroupingMatchesDict states that case (no entry exactly when the slice is empty) instead of modelling the exception.
- Random inputs (`clrand`, `RanluxGenerator`, `randrange`, `np.random`): all inputs are quantified over instead.
- Timing and throughput printing, `summarize_error`, `gc.collect`, `importorskip` and the device-specific skip.
- The float, complex, elementwise, reduction and dot tests (test/test_algorithm.py:45-346), test/test_array.py and test/test_wrapper.py: floating point, OpenCL I/O and concurrency. The memory-pool binning functions they call are not part of this model.
