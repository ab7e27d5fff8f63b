# mipt-TimSort in Dafny

A model of the in-place TimSort variant of `mipt-TimSort`, with proofs about it. The model covers:

- the merge policies: `DefaultTimSortParams`, the three policies of the benchmarking program, and any other implementation of `ITimSortParams`;
- the run builder `RunController::makeRun`, with `sortRun` and `reverseRun`;
- the merge engine: `simpleMerge` with galloping, `findCopiesCount`, `swapRuns`, and the square-root block merge `inplaceMerge`;
- the run-stack controller: `sort`, `checkStack` and `mergeRuns`;
- the `TimSort` entry points;
- the cohesive-team window selection of the e-task program.

Elements are integers ordered by `<`.

## Files

- `sort_spec.dfy` (module `SortSpec`):
  - what "sorted" means, and the harness's adjacent-pair check;
  - `SortSeq`, the sorted arrangement of a sequence, which is unique for integers;
  - `SortRange`, a sequence with one range replaced by its sorted arrangement;
  - `Merge`, the reference merge, which takes the second run's element on ties.
- `runs.dfy` (module `Runs`):
  - the `Run` half-open interval, with `size` and `join`;
  - the natural-run scan, `makeRun`, `sortRun`, `reverseRun`, `swapRuns` and `swapIterators`, as methods on an `array<int>`.
- `merge.dfy` (module `Merge`):
  - `findCopiesCount` (doubling, then halving);
  - `simpleMerge` as a method that swaps elements through the buffer area.
  - Its result is stated against `GallopMerge`, a step-by-step description of the galloping merge loop.
  - `GallopMerge` is proved equal to the reference merge on sorted runs, whatever the gallop threshold.
- `block_merge.dfy` (module `BlockMerge`): a description of the block path of `inplaceMerge` on values:
  - the block geometry and the integer square root;
  - the exchange into the scratch block;
  - the selection sort of blocks by their heads;
  - the neighbour merges;
  - the sort of the last `2 s` elements;
  - the backward pass.
- `inplace_merge.dfy` (module `InplaceMerge`):
  - `inplaceMerge` as methods over the array, proved against that description;
  - the method as written, and the corrected one (see Findings).
- `counterexample.dfy` (module `Counterexample`): the phase-by-phase evaluation of `inplaceMerge` as written on a 13-element input, whose result is not sorted.
- `policy.dfy` (module `Policy`):
  - the four policies of the repository and a `Custom` policy, given by its four answers, as one datatype;
  - `needMerge`, `whatMerge` and `GetGallop` as functions of lengths alone, exactly as the sources define them (a custom policy's answers are its fields);
  - `minRun` as a method whose loop clears the lowest set bit.
- `controller.dfy` (module `Controller`):
  - the `TimSortController` class, with its array, bounds, policy and `runStack` field;
  - `sort`, `checkStack`, `mergeRuns`, `popRun` and `pushRun` as methods;
  - the stack invariant: runs adjacent from `begin`, each holding the sorted arrangement of the input's elements at its positions, and the input everywhere else, which fixes the array completely;
  - `Collapse`, the stack `checkStack` leaves, as a function of the run sizes and the policy, against which `checkStack` is proved;
  - the `TimSort` entry points.
- `etask.dfy` (module `ETask`):
  - the prefix sums and `getSum`;
  - the two-pointer window loop, proved to find the first cohesive contiguous window with the largest total of the value-sorted players.

## Model

| member | source | states |
|---|---|---|
| SortSpec.NoCrashIndexIffSorted | src/sort-test.h:76-92 | the harness's check (no element smaller than its predecessor) holds exactly when every element is no greater than every later one |
| SortSpec.SortSeq | src/timsort.h:21-24 | the arrangement every sort must produce: sorted, with the same elements and length as its input |
| SortSpec.SortedPermIsSortSeq | src/timsort.h:21-24 | any sorted rearrangement of a sequence is that arrangement, so "sorted and a permutation" pins the result down |
| SortSpec.SortRange | src/timsort-internal.h:414-422 | the result of sorting `[lo, hi)`: outside unchanged, inside sorted and holding the same elements |
| SortSpec.MergePerm | src/timsort-internal.h:240-256 | the reference merge loses and invents no element |
| SortSpec.MergeSorted | src/timsort-internal.h:240-256 | merging two sorted runs gives a sorted run |
| SortSpec.MergeIsSortSeq | src/timsort-internal.h:240-256 | the merge of two sorted runs is the sorted arrangement of both |
| SortSpec.Reverse | src/timsort-internal.h:348-355 | position `k` of the reversal holds the element at the mirror position `n - 1 - k` |
| SortSpec.ReverseDescendingSorted | src/timsort-internal.h:391-392 | reversing a strictly descending run gives a sorted one |
| Runs.Run.Join | src/timsort-internal.h:303-305 | the joined run keeps the lower run's start and takes the upper run's end; for adjacent runs the sizes add up |
| Runs.ScanEnd | src/timsort-internal.h:378-380 | the scan stops at the first position that breaks the run's direction, or at `finish` |
| Runs.RunEnd | src/timsort-internal.h:366-395 | the run `makeRun` builds starts at `start`, is not empty, stays within `finish`, covers the whole natural run, and reaches `minPos` unless `finish` comes first |
| Runs.NaturalRunShape | src/timsort-internal.h:375-380 | a natural run is non-strictly ascending, or strictly descending (equal neighbours end a descending run) |
| Runs.ShiftStep | src/timsort-internal.h:341-344 | one shift of the insertion loop moves the gap down by one and keeps every shifted element not below the saved value |
| Runs.InsertStep | src/timsort-internal.h:338-345 | one insertion extends the sorted prefix by one, permutes the run and leaves everything outside it alone |
| Runs.SortRun | src/timsort-internal.h:336-347 | `sortRun` leaves the run equal to its sorted arrangement and changes nothing outside it |
| Runs.InsertOne | src/timsort-internal.h:338-345 | one pass of the outer loop grows the sorted prefix by one element and only permutes the run |
| Runs.ReverseRun | src/timsort-internal.h:348-355 | `reverseRun` leaves the run reversed and changes nothing outside it |
| Runs.SwapEndsAt | src/timsort-internal.h:352-354 | after `n` exchanges from the ends inwards, each exchanged position holds its mirror's old element and the rest are unchanged |
| Runs.SwapEndsReverse | src/timsort-internal.h:352-354 | once the two ends meet, the range is reversed and nothing outside it has moved |
| Runs.SwapPrefixSlices | src/timsort-internal.h:358-365 | exchanging the prefixes of two disjoint blocks makes them trade contents and leaves everything around them unchanged |
| Runs.SwapPrefixPerm | src/timsort-internal.h:358-365 | exchanging block prefixes permutes the sequence |
| Runs.SwapIterators | src/timsort-internal.h:408-410 | `swapIterators` exchanges exactly the two positions |
| Runs.SwapRuns | src/timsort-internal.h:358-365 | `swapRuns` exchanges the first `min(sizes)` elements of the two blocks and nothing else |
| Runs.ScanNatural | src/timsort-internal.h:373-380 | the first comparison fixes the direction, and the scan ends where the natural run ends |
| Runs.ExtendRun | src/timsort-internal.h:381-384 | a run shorter than `minPos` is stretched to `min(minPos, finish)`, and only then is it marked for re-sorting |
| Runs.ScanRun | src/timsort-internal.h:368-386 | the scanning half of `makeRun` returns the run's end, its direction, and whether it was extended past the natural run |
| Runs.MakeRun | src/timsort-internal.h:366-395 | the returned run obeys the length bounds, holds the sorted arrangement of its old contents, and nothing outside it changes |
| Runs.NaturalRunIsSortSeq | src/timsort-internal.h:389-392 | an unextended natural run is in sorted order: as it stands when ascending, reversed when descending |
| Runs.RunEndToFinish | src/timsort-internal.h:140-143 | `makeRun(b, e, e)` covers the whole range, so it sorts `[b, e)` |
| Merge.ExpBound | src/timsort-internal.h:266-273 | the doubling phase stops within the range, at a position that fails the test or at the end |
| Merge.BinSearchSorted | src/timsort-internal.h:275-282 | on a sorted range the halving phase finds the exact boundary between the elements below the pivot and the rest |
| Merge.FindCopies | src/timsort-internal.h:264-285 | the count is below the length of the range |
| Merge.FindCopiesSorted | src/timsort-internal.h:264-285 | on a sorted range, every one of the first `c` elements is below the pivot, and the element after the next one is not |
| Merge.ExpPhase | src/timsort-internal.h:266-273 | the doubling loop computes the bound the doubling phase describes |
| Merge.BinPhase | src/timsort-internal.h:275-282 | the halving loop computes the boundary the binary search describes |
| Merge.FindCopiesCount | src/timsort-internal.h:264-285 | `findCopiesCount` returns the count of its two-phase search over `[lo, hi)` |
| Merge.BurstLen | src/timsort-internal.h:243-250 | a step moves at least one element and never more than the winning run has left |
| Merge.NextStep | src/timsort-internal.h:234-261 | each step moves a non-empty leading stretch of exactly one run and stays within both runs |
| Merge.GallopFromPerm | src/timsort-internal.h:234-261 | from any state, the merge loop writes exactly the elements it has left |
| Merge.GallopMerge | src/timsort-internal.h:213-262 | what `simpleMerge` writes into the merged range is a rearrangement of its two runs, sorted or not, for every gallop threshold |
| Merge.MergeTakeX | src/timsort-internal.h:248-250 | a leading stretch of the first run below the other head comes out of the reference merge first |
| Merge.MergeTakeY | src/timsort-internal.h:248-250 | a leading stretch of the second run not above the other head comes out of the reference merge first |
| Merge.StepIsMerge | src/timsort-internal.h:240-256 | on sorted runs a galloping step emits exactly what the reference merge emits first |
| Merge.StepXBelow | src/timsort-internal.h:243-250 | on a sorted first run, every element a burst moves from it is below the other head |
| Merge.StepYNotAbove | src/timsort-internal.h:243-250 | on a sorted second run, no element a burst moves from it is above the other head |
| Merge.GallopFromIsMerge | src/timsort-internal.h:234-261 | on sorted runs, galloping from any state writes the reference merge of what is left |
| Merge.GallopMergeSorted | src/timsort-internal.h:213-262 | on sorted runs, `simpleMerge` writes their reference merge, which is their sorted arrangement, for every gallop threshold |
| Merge.TakeX | src/timsort-internal.h:237-238 | swapping the first run's head from the buffer area into the output keeps the merge-phase layout |
| Merge.TakeY | src/timsort-internal.h:235-236 | swapping the second run's head into the output keeps the merge-phase layout, and the displaced element fills the gap |
| Merge.MergingStart | src/timsort-internal.h:227-232 | once the first run sits in the buffer area, the merge phase starts with an empty output |
| Merge.MergingEnd | src/timsort-internal.h:234-261 | once both runs are used up, the merged range holds the output and the buffer area holds its old elements |
| Merge.MoveX | src/timsort-internal.h:238 | `swapIterators(itRes++, itMain1++)` appends the first run's head to the output |
| Merge.MoveY | src/timsort-internal.h:236 | `swapIterators(itRes++, itMain2++)` appends the second run's head to the output |
| Merge.SimpleMerge | src/timsort-internal.h:213-262 | `[b1, e2)` ends up holding the galloping merge of the two runs, the buffer area keeps its elements, and nothing else changes |
| Merge.SwapIntoBuffer | src/timsort-internal.h:221-225 | the first run and the start of the buffer area trade places, and nothing else moves |
| Merge.MergePhase | src/timsort-internal.h:227-261 | the merge loop writes the galloping merge into `[b1, e2)` and only permutes the buffer area |
| Merge.PhaseStep | src/timsort-internal.h:234-261 | one loop iteration makes progress, adds exactly the chunk of one step to the output, and keeps the layout |
| Merge.NextStepRestY | src/timsort-internal.h:235-236 | once the first run is used up, a step moves one element of the second |
| Merge.NextStepRestX | src/timsort-internal.h:237-238 | once the second run is used up, a step moves one element of the first |
| Merge.CompareStep | src/timsort-internal.h:239-257 | one comparison, with its repeat count and possible gallop, moves exactly the chunk a step describes |
| Merge.NextStepX | src/timsort-internal.h:240-256 | when the first head is strictly smaller, the step moves a burst from the first run |
| Merge.NextStepY | src/timsort-internal.h:240-256 | when the first head is not smaller, the step moves a burst from the second run, so ties go to the second run |
| Merge.GallopX | src/timsort-internal.h:243-256 | the first run's win moves `BurstLen` of its elements, in order, into the output |
| Merge.GallopY | src/timsort-internal.h:243-256 | the second run's win moves `BurstLen` of its elements, in order, into the output |
| Merge.BurstX | src/timsort-internal.h:248-250 | the loop `while (needCopies && --needCopies)` moves `needCopies - 1` elements of the first run (none for zero) |
| Merge.BurstY | src/timsort-internal.h:248-250 | the same burst for the second run |
| BlockMerge.ISqrt | src/timsort-internal.h:136 | the block size is the integer square root: its square is at most `n`, and the next square exceeds `n` |
| BlockMerge.HeadProduct | src/timsort-internal.h:152-153 | block `k` begins `blockSize * k` positions after `b` |
| BlockMerge.BlocksCover | src/timsort-internal.h:137 | `blocksCount` blocks cover the range, and one fewer would not |
| BlockMerge.BlockSizes | src/timsort-internal.h:151-153 | every block but the last is full, and the last holds between one and `blockSize` elements |
| BlockMerge.InBlock | src/timsort-internal.h:154-156 | the block that holds position `m` is exactly the block `BlockOf` names |
| BlockMerge.SwapPrefixSym | src/timsort-internal.h:358-365 | `swapRuns` on disjoint blocks does not depend on which block is named first |
| BlockMerge.SwapPrefixWithin | src/timsort-internal.h:174-175 | exchanging blocks inside `[lo, hi)` permutes within it |
| BlockMerge.MinHeadFrom | src/timsort-internal.h:163-172 | the scan over candidate blocks returns the block it started with or a later candidate |
| BlockMerge.MinHeadIsMin | src/timsort-internal.h:163-172 | the chosen block has the smallest head of the candidates, and ties keep the earliest |
| BlockMerge.SwapBlocks | src/timsort-internal.h:174-175 | exchanging two full blocks swaps their heads and keeps every other head |
| BlockMerge.SelectSwapHeads | src/timsort-internal.h:162-176 | one round of the selection exchanges two heads and puts the smallest head of the rest into place `i` |
| BlockMerge.SelectSortsHeads | src/timsort-internal.h:161-176 | the selection sort leaves the heads of the blocks before the scratch block sorted, and a permutation of the old heads |
| BlockMerge.SelectPermutes | src/timsort-internal.h:161-176 | the selection only permutes within the blocks' range |
| BlockMerge.MergeAtPermutes | src/timsort-internal.h:182 | a neighbour or backward merge only rearranges the range it merges |
| BlockMerge.NeighbourMergesPermute | src/timsort-internal.h:178-183 | the neighbour merges only rearrange the blocks before the scratch block |
| BlockMerge.Lower | src/timsort-internal.h:195-196 | the clamped start of a backward merge lies in `[b, beta)` |
| BlockMerge.BackPassPermutes | src/timsort-internal.h:189-203 | the backward pass only rearranges `[b, gamma)` |
| BlockMerge.BlockSize | src/timsort-internal.h:136 | the block size of a non-empty range is at least one |
| BlockMerge.TailShape | src/timsort-internal.h:185 | with five blocks or more, the scratch block is full and starts the tail `[e - s, e)`, the last block fills the rest, and `blockSize < s <= 2 blockSize` |
| BlockMerge.TailRoom | src/timsort-internal.h:186 | `e - 2 s` lies strictly after `b` |
| BlockMerge.TailFit | src/timsort-internal.h:161-183 | the blocks before the scratch block fill the window `[b, e - s)` |
| BlockMerge.TailHolds | src/timsort-internal.h:147-186 | the decomposition has the shape every later phase relies on, with the scratch block at index `blocksCount - 2 >= 3` |
| BlockMerge.LayoutMiddle | src/timsort-internal.h:151-157 | the block holding `m` exists, so `yellowId` is always set |
| BlockMerge.SwapPrefixSelf | src/timsort-internal.h:158 | when the middle is already in the scratch block, the exchange changes nothing |
| BlockMerge.FullBlock | src/timsort-internal.h:151-153 | every block before the scratch block is full |
| BlockMerge.ScratchBlocks | src/timsort-internal.h:158 | any block and the scratch block lie in `[b, e)` and are the same block or do not overlap |
| BlockMerge.ScratchSwapWithin | src/timsort-internal.h:158 | `swapRuns` with the scratch block permutes within `[b, e)` |
| BlockMerge.ToScratch | src/timsort-internal.h:158-159 | the exchange of the middle's block with the scratch block permutes within `[b, e)` |
| BlockMerge.SelectPhase | src/timsort-internal.h:161-176 | the block selection permutes within `[b, e)` |
| BlockMerge.NeighbourPhase | src/timsort-internal.h:178-183 | the neighbour merges permute within `[b, e)` |
| BlockMerge.BackPhase | src/timsort-internal.h:189-203 | the backward pass permutes within `[b, e)` |
| BlockMerge.SortTail | src/timsort-internal.h:186 | sorting a tail `[lo, e)` permutes within `[b, e)` |
| BlockMerge.Phases | src/timsort-internal.h:158-203 | everything before the last `makeRun` permutes within `[b, e)` |
| BlockMerge.PathGeometry | src/timsort-internal.h:135-159 | the numbers `inplaceMerge` computes give a decomposition of the required shape, with the middle's block at most one past the scratch block |
| BlockMerge.PathPhases | src/timsort-internal.h:147-203 | the phases with those numbers permute within `[b, e)` |
| BlockMerge.AsWritten | src/timsort-internal.h:133-211 | `inplaceMerge` as written keeps the length of the sequence and only rearranges `[b, e)` |
| InplaceMerge.SortErases | src/timsort-internal.h:206 | sorting a range erases any rearrangement that happened inside it |
| InplaceMerge.MergeStep | src/timsort-internal.h:198 | a `simpleMerge` whose buffer is the scratch area keeps the array in step with the model, up to the order in the scratch area |
| InplaceMerge.MergeInto | src/timsort-internal.h:198 | one `simpleMerge` on the array matches one merge on the model, outside the scratch area |
| InplaceMerge.SortByMakeRun | src/timsort-internal.h:140-143 | `makeRun(lo, hi, hi)` sorts `[lo, hi)` and changes nothing else |
| InplaceMerge.FindYellow | src/timsort-internal.h:151-157 | the scan over all blocks finds the block holding `m`, which exists |
| InplaceMerge.MinBlock | src/timsort-internal.h:163-172 | the inner selection loop finds the block with the smallest head, keeping the earliest on ties |
| InplaceMerge.SelectStep | src/timsort-internal.h:162-175 | one selection round on the array is one round of the modelled selection |
| InplaceMerge.SelectBlocks | src/timsort-internal.h:161-176 | the selection loop on the array is the modelled selection sort of blocks |
| InplaceMerge.NeighbourPair | src/timsort-internal.h:179-182 | blocks `i` and `i + 1` are full, adjacent and lie before the scratch block, so `simpleMerge`'s demands hold |
| InplaceMerge.MergePair | src/timsort-internal.h:180-182 | one neighbour merge on the array is one round of the modelled neighbour merges |
| InplaceMerge.MergeNeighbours | src/timsort-internal.h:178-183 | the neighbour-merge loop leaves the array equal to the model, except for the order inside the scratch block |
| InplaceMerge.MergeBack | src/timsort-internal.h:194-202 | one round of the backward loop clamps `alpha`, merges through the buffer, and moves the window down by one round of the model |
| InplaceMerge.BackMerge | src/timsort-internal.h:189-203 | the backward loop leaves the array equal to the model, except for the order inside the scratch tail |
| InplaceMerge.ScratchAndSelect | src/timsort-internal.h:158-176 | the exchange into the scratch block followed by the block selection matches the model |
| InplaceMerge.SortTailErases | src/timsort-internal.h:186 | the sort of the last `2 s` elements does not depend on the order the neighbour merges left in the scratch block |
| InplaceMerge.SortTailOf | src/timsort-internal.h:185-186 | `makeRun(e - 2 s, e, e)` yields the modelled sorted tail |
| InplaceMerge.PathOn | src/timsort-internal.h:158-203 | the whole block path matches the model, except for the order inside the scratch tail |
| InplaceMerge.BlockPath | src/timsort-internal.h:147-203 | the same, for the numbers `inplaceMerge` computes |
| InplaceMerge.InplaceMergeAsWritten | src/timsort-internal.h:133-211 | `inplaceMerge` as written leaves exactly what the as-written model describes |
| InplaceMerge.InplaceMerge | src/timsort-internal.h:133-211 | the corrected `inplaceMerge` leaves `[b, e)` sorted and holding its old elements, and nothing else changes; the correction is a final insertion sort of the whole `[b, e)` after the block path, so sortedness comes from that sort alone, and its cost depends on the disorder the block path leaves |
| Counterexample.ISqrtUnique | src/timsort-internal.h:136 | the integer square root is the only value with that square bracket |
| Counterexample.InputGeometry | src/timsort-internal.h:135-159 | for `inplaceMerge(0, 6, 13)` the block size is 3, there are five blocks, the middle is in block 2 and the tail holds 4 |
| Counterexample.InputRuns | src/timsort-internal.h:128-131 | the input is two sorted runs meeting at the middle, as `mergeRuns` passes them |
| Counterexample.ExchangeStage | src/timsort-internal.h:158-159 | the exchange into the scratch block on the input |
| Counterexample.SelectStage | src/timsort-internal.h:161-176 | the block selection on the input |
| Counterexample.NeighbourStage | src/timsort-internal.h:178-183 | the neighbour merges on the input |
| Counterexample.SortTailStage | src/timsort-internal.h:186 | the sort of the last eight elements on the input |
| Counterexample.YThenX | src/timsort-internal.h:234-261 | when no element of the second run is above the first run's head, the merge loop puts the second run first and then the first run unchanged, sorted or not |
| Counterexample.BackStage | src/timsort-internal.h:189-203 | the backward pass on the input, whose first merge is given an unsorted first run |
| Counterexample.LastSortStage | src/timsort-internal.h:206 | the final sort of the scratch tail changes nothing on the input |
| Counterexample.AsWrittenOnInput | src/timsort-internal.h:133-211 | `inplaceMerge(0, 6, 13)` as written yields `0 1 1 2 3 3 4 3 3 4 4 5 6` |
| Counterexample.AsWrittenUnsorted | src/timsort-internal.h:133-211 | on two sorted runs, `inplaceMerge` as written can leave the range unsorted, whatever the gallop threshold |
| Policy.ClearLowestBit | src/main.cpp:98 | `n & (n - 1)` is smaller than any positive `n`, so the `minRun` loop terminates |
| Policy.ClearLowestBitPopCount | src/main.cpp:97-100 | each iteration clears exactly one set bit |
| Policy.CountBits | src/main.cpp:95-102 | the loop adds its step once per set bit of `n` |
| Policy.Policy.MinRun | src/main.cpp:95-160 | `minRun(n)` is 48 for the default policy, `n mod 32 + popcount(n)` for the first and the bad policy, and `n mod 16 + 2 popcount(n)` for the second; for a custom policy it is that policy's answer; for the four named policies it is at least one when `n >= 1` |
| Policy.MinRunPositive | src/main.cpp:95-102 | the minimum run length of each of the four named policies is at least one for `n >= 1` |
| Controller.AdjacentBounds | src/timsort-internal.h:58-66 | the runs on an adjacent stack lie between `begin` and the stack's end, and a non-empty stack covers something |
| Controller.AdjacentJoin | src/timsort-internal.h:128-131 | joining the two topmost adjacent runs keeps the stack adjacent and ending where it did |
| Controller.AdjacentPush | src/timsort-internal.h:63-64 | pushing a run that starts where the stack ends keeps it adjacent |
| Controller.RunsHold | src/timsort-internal.h:58-66 | every run on the stack holds exactly the sorted arrangement of the input's elements at its positions, and its size is its length |
| Controller.Len | src/timsort-internal.h:82-95 | the length the policy is asked about is the run's `size()` whenever the run is not reversed |
| Controller.JoinTop | src/timsort-internal.h:79-85 | merging X into Y takes one run off the stack and leaves the runs below Y alone |
| Controller.JoinBelow | src/timsort-internal.h:106-109 | merging Y into Z takes one run off the stack, leaves the runs below Z alone and keeps X on top |
| Controller.Collapse | src/timsort-internal.h:77-113 | the stack `checkStack` leaves, computed from the run sizes and the policy alone, is never longer than the stack it was given |
| Controller.CollapseSettled | src/timsort-internal.h:77-113 | for every policy, the stack `checkStack` leaves is one where the policy asks for no further merge |
| Controller.CollapseFixed | src/timsort-internal.h:77-113 | `checkStack` leaves the stack unchanged if and only if the policy asks for no merge of its topmost runs |
| Controller.CollapsePair | src/timsort-internal.h:82-85 | two runs the policy wants merged become their join |
| Controller.CollapseTop | src/timsort-internal.h:100-105 | when `whatMerge` answers X with Y, the result is that of looking again at the stack with X and Y joined |
| Controller.CollapseBelow | src/timsort-internal.h:106-111 | when `whatMerge` answers Y with Z, the result is that of looking again at the stack with Y and Z joined |
| Controller.StackDetermines | src/timsort-internal.h:58-113 | for a given input and stack, only one array keeps the invariant |
| Controller.Arranged | src/timsort-internal.h:58-113 | the input with the range of every run on the stack sorted has the input's length |
| Controller.ArrangedKeeps | src/timsort-internal.h:58-113 | the input with the range of every run on the stack sorted keeps the invariant |
| Controller.StackArranged | src/timsort-internal.h:58-113 | an array keeps the invariant if and only if it is the input with the range of every run on the stack sorted |
| Controller.PushKeeps | src/timsort-internal.h:60-65 | pushing a run whose range is sorted in place keeps the stack invariant, with the stack ending where the run ends |
| Controller.PushedRunsHold | src/timsort-internal.h:60-65 | after the new run's range is sorted, the runs below it still hold their elements and the new run holds its own |
| Controller.JoinHolds | src/timsort-internal.h:128-131 | sorting the range of two adjacent runs gives a joined run that holds the input's elements there, sorted |
| Controller.OtherHolds | src/timsort-internal.h:128-131 | sorting a range leaves a run outside it holding what it held |
| Controller.MergeKeeps | src/timsort-internal.h:128-131 | sorting the range of two adjacent runs and joining them keeps the invariant, since the other runs lie outside that range |
| Controller.MergedRunsHold | src/timsort-internal.h:128-131 | after such a merge, every run of the new stack holds its elements |
| Controller.SortedInside | src/timsort-internal.h:128-131 | sorting a range inside the stack leaves the array before the stack and after it alone |
| Controller.MergeTopKeeps | src/timsort-internal.h:69-72 | merging the two topmost runs keeps the invariant and the stack's end |
| Controller.MergeBelowKeeps | src/timsort-internal.h:106-109 | merging the second and third runs keeps the invariant and the stack's end |
| Controller.TopPair | src/timsort-internal.h:79-85 | the two topmost runs are adjacent, and merging them keeps the invariant |
| Controller.ThirdPair | src/timsort-internal.h:91-93 | the three topmost runs are adjacent, and merging the lower two keeps the invariant |
| Controller.OneRunSorted | src/timsort-internal.h:68-74 | a stack holding the single run `[lo, hi)` means the array is the input with `[lo, hi)` sorted |
| Controller.EmptyStackUnchanged | src/timsort-internal.h:417-418 | an empty stack means the array is still the input |
| Controller.Drained | src/timsort-internal.h:68-75 | once at most one run is left, the stack is `[begin, end)` (or empty for an empty range) and the array is the input with that range sorted |
| Controller.TimSortController.constructor | src/timsort-internal.h:48-50 | a new controller has an empty stack and keeps its range and policy |
| Controller.TimSortController.PopRun | src/timsort-internal.h:287-291 | `popRun` returns the top run and removes it |
| Controller.TimSortController.PushRun | src/timsort-internal.h:292-294 | `pushRun` puts a run on top |
| Controller.TimSortController.MergeRuns | src/timsort-internal.h:128-131 | the range of the two runs ends up sorted (with the corrected `inplaceMerge`) and holding its old elements, nothing else changes, and the returned run is the join |
| Controller.TimSortController.MergeTop | src/timsort-internal.h:79-85 | merging X into Y makes the stack `JoinTop` of the old one, sorts exactly their range (with the corrected `inplaceMerge`), and keeps the invariant and the stack's end |
| Controller.TimSortController.MergeBelow | src/timsort-internal.h:106-109 | merging Y into Z makes the stack `JoinBelow` of the old one, sorts exactly their range (with the corrected `inplaceMerge`), and keeps the invariant and the stack's end |
| Controller.TimSortController.CheckPair | src/timsort-internal.h:78-89 | the two-run case: `CheckStack`'s contract |
| Controller.TimSortController.CheckTriple | src/timsort-internal.h:90-112 | the case of three or more runs: `CheckStack`'s contract |
| Controller.TimSortController.CheckStack | src/timsort-internal.h:77-113 | for every policy, custom ones included, `checkStack` terminates; the new stack is `Collapse` of the old one, so the policy asks for no further merge, and the stack and the array are left unchanged when the policy asks for no merge at the start; every run on the new stack holds the sorted arrangement of the input's elements at its positions (with the corrected `inplaceMerge`), and the array is the input outside the stack, which ends where it did |
| Controller.TimSortController.AddRun | src/timsort-internal.h:59-64 | the new run is `[cursor, RunEnd(...))` of the array as it was, pushed on the stack; the array is the old one with that range sorted, and the invariant holds with the stack ending there |
| Controller.TimSortController.Sort | src/timsort-internal.h:53-75 | for every policy, custom ones included, the range ends up sorted (with the corrected `inplaceMerge`) and holding its old elements, the array outside it is unchanged, and the stack is the single run `[begin, end)` |
| Controller.TimSort | src/timsort-internal.h:414-422 | for every policy, custom ones included, `[first, last)` ends up sorted (with the corrected `inplaceMerge`) and holding its old elements, and nothing else changes (an empty range is left alone) |
| Controller.TimSortDefault | src/timsort.h:29-36 | the overloads without a policy sort with `DefaultTimSortParams`, with the same guarantee (with the corrected `inplaceMerge`) |
| ETask.SumSplit | e-task-src/e-task.cpp:462-464 | a window's total splits at any point in between |
| ETask.SumGrows | e-task-src/e-task.cpp:501-506 | over non-negative values, a longer window from the same start has at least the same total |
| ETask.FitsIffCohesive | e-task-src/e-task.cpp:501-505 | on sorted values, the loop's test (last player worth at most the first two) holds exactly when no player of the window is worth more than any two others |
| ETask.FitsMonotone | e-task-src/e-task.cpp:500-505 | on sorted values, an unfit window stays unfit when grown to the right, and a fitting one still fits from the next left end |
| ETask.PrefixSums | e-task-src/e-task.cpp:492-494 | `subsums[i]` is the total of the first `i + 1` values |
| ETask.GetSumIsSum | e-task-src/e-task.cpp:462-464 | `getSum(l, r)` over prefix sums is the total of players `l..r` |
| ETask.GrowWindow | e-task-src/e-task.cpp:501-505 | the inner loop stops at the last right end whose window from `l` fits: that window fits, the next one does not or runs past the end, the right end moves back by at most one, and the window keeps at least two players when there are two |
| ETask.LastFitIsBest | e-task-src/e-task.cpp:501-506 | that window has the largest total among the fitting windows from `l` |
| ETask.NoBetterStep | e-task-src/e-task.cpp:506-512 | once `best` covers the window found at `l`, no cohesive window starting at or before `l` beats it |
| ETask.ScanStep | e-task-src/e-task.cpp:500-512 | one outer iteration computes the window's total and extends "no better window" to left end `l`, and the next left end may grow from `r` |
| ETask.ConsiderLeft | e-task-src/e-task.cpp:500-512 | one outer iteration keeps the loop invariants, including that no cohesive window left of `bestL` reaches `best`, and `best` never decreases |
| ETask.SelectWindow | e-task-src/e-task.cpp:496-513 | `best` is the largest total of any cohesive contiguous window (zero when there is none); when positive it is the total of the cohesive window `bestL..bestR`, otherwise the window stays `0..-1`; no cohesive window with a smaller left end reaches `best`, so the strict `>` of line 507 keeps the first best window |
| ETask.CohesiveTeam | e-task-src/e-task.cpp:488-513 | the players end up sorted by value, and the window is the first best cohesive contiguous window of the sorted values; the sort is the TimSort copy (with the corrected `inplaceMerge`) |

`needMerge`, `whatMerge` and `GetGallop` are modelled as `Policy.NeedMerge`, `Policy.WhatMergeOf` and `Policy.Gallop`. They are pure functions whose bodies are the sources' definitions (src/timsort-internal.h:14-30, src/main.cpp:104-120, 133-149, 162-178). A user-supplied policy is `Policy.Custom`, whose answers are arbitrary total functions of the lengths. The controller's proofs hold for any answers. `EWhatMerge` is the three-valued datatype `Policy.WhatMerge`.

## Left out

- Input and output: `cin`/`cout` in the e-task program, the id sort and printing of the chosen team (e-task-src/e-task.cpp:515-521), and the fixed `MAX_LEN` arrays.
- The benchmarking harness (src/sort-test.h) and the rest of src/main.cpp: timing, allocators, `std::sort`, and floating-point and string elements. Only the harness's adjacent-pair check is modelled, as `SortSpec.NoCrashIndex`.
- Templates, comparators and virtual dispatch. Elements are `int`, ordered by `<` (the `std::less` default). The e-task's `valueComparator` orders players by value, so the model sorts the values alone; player ids matter only for output.
- Stability. The code is not stable, and the model proves only "sorted and a permutation". For integers that fixes the result uniquely.
- Unsigned 32-bit arithmetic. Lengths are unbounded naturals, so the model matches the source only for ranges shorter than 2^32 elements. No precondition imposes that bound. On longer ranges the source wraps around in `static_cast<unsigned int>(end - begin)` (src/timsort-internal.h:54, 60, 135) and in the policies' `lenX + lenY` (src/timsort-internal.h:14-30); the model does not.
- Controller.TimSort: sorts ranges of any length; the source's unsigned 32-bit lengths wrap around from 2^32 elements on, which is not modelled.
- Controller.TimSortDefault: the same 2^32 bound as `Controller.TimSort` is not modelled.
- The decremented `alpha` of the backward pass is not a gap: `BlockMerge.Lower` computes `beta - s` as a signed int and clamps it to `b`, as the source does. The `yellowId = -1` sentinel is never read: `BlockMerge.LayoutMiddle` proves the block holding `m` exists when `b <= m < e`.
- `std::sqrt` with truncation is modelled as the exact integer square root.
- The heap-allocated block descriptors (`new`/`delete`). Blocks are index arithmetic.
- The debug output `coutRun`/`coutRunContent` and the commented-out printing.
- The TimSort copy in e-task-src/e-task.cpp:25-419 is the same code as src/timsort-internal.h apart from the debug printing, so the same members model it.
- Merge.SimpleMerge: requires adjacent runs (`e1 == b2`) whose first run is no longer than the second. The role swap of lines 216-219 is therefore not modelled. Every call site meets these conditions: neighbour merges of equal full blocks, and backward merges of at most `s` against exactly `s`.
- Merge.SimpleMerge: states the buffer area's final contents only as a multiset, not their order.
- InplaceMerge.MergeNeighbours: keeps the scratch block's final contents only as a multiset. The sort that follows erases their order.
- InplaceMerge.BackMerge: keeps the scratch tail's final contents only as a multiset, for the same reason.
- Controller.TimSortController.MergeRuns: calls the corrected `InplaceMerge.InplaceMerge`, not the one written in the source (see Findings). The sortedness results of `MergeRuns`, `MergeTop`, `MergeBelow`, `CheckStack`, `Sort`, `Controller.TimSort`, `Controller.TimSortDefault` and `ETask.CohesiveTeam` therefore hold for the corrected program, not for the source as written, whose `inplaceMerge` can leave a merged range unsorted.
- Controller.TimSortController.MergeTop: its sortedness result rests on the corrected `InplaceMerge.InplaceMerge` (see `Controller.TimSortController.MergeRuns` above), not on the source as written.
- Controller.TimSortController.MergeBelow: its sortedness result rests on the corrected `InplaceMerge.InplaceMerge` (see `Controller.TimSortController.MergeRuns` above), not on the source as written.
- Controller.TimSortController.CheckPair: its sortedness result rests on the corrected `InplaceMerge.InplaceMerge` (see `Controller.TimSortController.MergeRuns` above), not on the source as written.
- Controller.TimSortController.CheckTriple: its sortedness result rests on the corrected `InplaceMerge.InplaceMerge` (see `Controller.TimSortController.MergeRuns` above), not on the source as written.
- Controller.TimSortController.CheckStack: its sortedness result rests on the corrected `InplaceMerge.InplaceMerge` (see `Controller.TimSortController.MergeRuns` above), not on the source as written.
- Controller.TimSortController.Sort: its sortedness result rests on the corrected `InplaceMerge.InplaceMerge` (see `Controller.TimSortController.MergeRuns` above), not on the source as written.
- Controller.TimSort: its sortedness result rests on the corrected `InplaceMerge.InplaceMerge` (see `Controller.TimSortController.MergeRuns` above), not on the source as written.
- Controller.TimSortDefault: its sortedness result rests on the corrected `InplaceMerge.InplaceMerge` (see `Controller.TimSortController.MergeRuns` above), not on the source as written.
- ETask.CohesiveTeam: its sortedness result rests on the corrected `InplaceMerge.InplaceMerge` (see `Controller.TimSortController.MergeRuns` above), not on the source as written.
- Policy.Policy: a user-supplied `ITimSortParams` is the `Custom` variant, whose four queries are total functions of the lengths. An implementation whose answers depend on hidden state, or change between calls, is not modelled.
- Policy.Policy.MinRun: promises `res >= 1` only for the four named policies; a custom policy may answer zero, and the controller still makes progress, because every run `makeRun` returns is non-empty.
- Controller.TimSortController.CheckStack: in the no-merge cases it reads the sizes of the top runs instead of popping and pushing them back, which leaves the same stack. Its two cases (lines 78-89 and 90-112) are the methods `CheckPair` and `CheckTriple`, which it calls.
- Controller.Len: clamps a reversed run's length to zero, where the source's unsigned `size()` would wrap around; no run on a stack that keeps the invariant is reversed, so the clamp never applies there.
- Controller.TimSortController.MergeBelow: pushes the joined run and X in one assignment.
- ETask.CohesiveTeam: requires non-negative values (players' worths). Negative inputs would change the meaning of the unsigned sums, which is not modelled.
- ETask.SelectWindow: is stated for `n >= 0` players. The output branch `if (bestR > 0)` (line 516) is output only.

## Findings

| source | as written | input that shows it | evidently intended | confidence | as-written member | corrected member |
|---|---|---|---|---|---|---|
| src/timsort-internal.h:189-206 (also e-task-src/e-task.cpp:210) | after the backward pass, only the scratch tail `[buf, e)` is sorted; the backward pass can merge a window whose first part is not sorted, and the disorder is left in place | `inplaceMerge(0, 6, 13)` on `3 3 3 3 4 4` followed by `0 1 1 2 4 5 6` yields `0 1 1 2 3 3 4 3 3 4 4 5 6` | `[b, e)` sorted after `inplaceMerge`; the model's correction ends with a sort of the whole `[b, e)` | not executed | InplaceMerge.InplaceMergeAsWritten, Counterexample.AsWrittenUnsorted | InplaceMerge.InplaceMerge |

The controller (`Controller.TimSortController.MergeRuns`) uses the corrected `InplaceMerge.InplaceMerge`.
