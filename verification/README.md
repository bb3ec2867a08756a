# Sorting visualiser: verified model of the step generators and the playback controller

The repository is a browser sorting visualiser. Six JavaScript generator
functions (`bubbleSort`, `selectionSort`, `insertionSort`, `mergeSort`,
`quickSort`, `heapSort`) copy their input into a private working array and
sort it in place. At every comparison, exchange/write and "index finalised"
event they yield a snapshot
`{array, comparing, swapped, sorted, [pivot], metrics: {comparisons, swaps}}`.
A small controller in `static/js/chart.js` pulls one snapshot per animation
frame, recolours the bars and forwards the metrics to a callback. It can be
paused, resumed, stopped and reset.

This project models that core in Dafny.

- `snapshots.dfy` (module `Snapshots`) defines the yielded snapshot
  (`StepState`) and the final `{array, comparisons, swaps}` result
  (`Outcome`). It also holds the trace predicates the generators are proved
  against:
  - `Causal`: each snapshot's array is the previous one with the event it
    announces applied.
  - `Counted`: each metric counter rises by one exactly at the snapshots of
    its kind.
  - `Permutations`, `RealExchanges`, `DistinctMarks` and `NeighbourSwapping`.
- `stepper.dfy` (module `Stepper`) holds the class `Run`, which is the
  closure state shared by a generator and its inner generators:
  - the working `array<int>` and the `sorted` index list;
  - the two counters;
  - the trace of snapshots yielded so far.

  Each primitive event (compare, exchange, single write, plain yield) is a
  method that updates the array and counters and appends the snapshot.
- `bubble.dfy`, `selection.dfy`, `insertion.dfy`, `merge.dfy`, `quick.dfy`
  and `heap.dfy` model one generator each:
  - Loops are `while` loops with invariants.
  - Recursive inner generators (`merge`/`mergeSortRecursive`, `partition`/
    `quickSortRecursive`, `heapify`) are recursive methods on the shared `Run`.
  - Every top-level method returns the whole trace and the final outcome.
    Its postcondition states what the trace guarantees.
- `rearrange.dfy` (module `Rearrange`) defines "permuted inside `[lo, hi]`
  and unchanged outside" (`Rearranged`). Partition, heapify, build and
  extraction are specified with it.
- `chart.dfy` (module `Playback`) models the controller:
  - The class `Chart` has the module's variables as fields, and its methods
    are the exported functions.
  - Each method is proved equal to a pure transition function on a
    `Controller` value (`Ticked`, `Paused`, `Resumed`, ...).
  - The playback properties are lemmas about those functions.
  - The generator is a cursor into the snapshot sequence a run yields.
  - The animation-frame handle is one `pending` flag.
  - `Tick` is one firing of the scheduled `step` callback.

## Model

| member | source | states |
|---|---|---|
| Snapshots.Range | static/js/algorithms/insertionSort.js:87 | `Array.from({length: n}, (_, i) => i)`: the list `lo, lo+1, …, hi-1`, with its exact length and every element |
| Snapshots.RangeMember | static/js/algorithms/mergeSort.js:117-123 | `x` is in `Range(lo, hi)` exactly when `lo <= x < hi`, in both directions |
| Snapshots.RangeSplit | static/js/algorithms/bubbleSort.js:56-76 | a prefix of indices followed by the rest is the whole index list |
| Snapshots.Exchanged | static/js/algorithms/bubbleSort.js:40 | a destructuring swap exchanges the two cells and leaves every other cell unchanged |
| Snapshots.ExchangedPermutes | static/js/algorithms/bubbleSort.js:40 | a swap preserves the multiset of values |
| Snapshots.SortedUnique | static/js/algorithms/bubbleSort.js:84-85 | two non-decreasing sequences with the same multiset are equal, so the sorted index list is determined by its contents |
| Snapshots.SortedFirst | static/js/algorithms/bubbleSort.js:84-85 | the head of a sorted sequence is at most each of its members |
| Snapshots.SameHead | static/js/algorithms/bubbleSort.js:84-85 | two sorted sequences with the same multiset have the same length and head |
| Snapshots.CountersAreExact | static/js/algorithms/bubbleSort.js:27-53 | in a counted trace, `comparisons` is the number of comparison snapshots and `swaps` the number of swap snapshots |
| Snapshots.CountersMonotone | static/js/algorithms/bubbleSort.js:29-41 | `comparisons` and `swaps` never decrease from one snapshot to a later one |
| Snapshots.CountersMonotoneAt | static/js/algorithms/bubbleSort.js:29-41 | the same for one pair of positions `i <= j` |
| Snapshots.CountedPrefix | static/js/algorithms/bubbleSort.js:27-53 | every prefix of a counted trace is counted |
| Snapshots.CountedAppend | static/js/algorithms/bubbleSort.js:29-51 | appending a snapshot whose counters rose by one per announced event keeps the trace counted |
| Snapshots.CausalAppend | static/js/algorithms/bubbleSort.js:30-51 | appending a snapshot that follows from the current array keeps the trace causal |
| Snapshots.FollowsPermutes | static/js/algorithms/bubbleSort.js:38-51 | a snapshot announcing a two-index exchange (or none) holds a permutation of the previous array |
| Snapshots.ExchangesPermuteAt | static/js/algorithms/bubbleSort.js:38-51 | in a causal trace made only of real exchanges, snapshot `k` is a permutation of the input |
| Snapshots.ExchangesPermute | static/js/algorithms/bubbleSort.js:18-53 | in such a trace every snapshot is a permutation of the input |
| Snapshots.RealExchangeAppend | static/js/algorithms/quickSort.js:60-62 | appending a snapshot whose swapped pair names two different cells keeps every exchange real |
| Snapshots.NoDupPush | static/js/algorithms/quickSort.js:95-97 | pushing an index not yet present keeps the list duplicate-free |
| Snapshots.RangeNoDup | static/js/algorithms/quickSort.js:148 | `Range(lo, hi)` has no duplicates |
| Snapshots.DistinctAppend | static/js/algorithms/quickSort.js:95-107 | appending a snapshot with a duplicate-free `sorted` keeps every snapshot's `sorted` duplicate-free |
| Snapshots.NeighbourAppend | static/js/algorithms/bubbleSort.js:29-51 | appending a neighbour comparison, or the exchange that answers the inversion just compared, keeps the trace neighbour-swapping |
| Snapshots.SortedAt | static/js/algorithms/bubbleSort.js:88-96 | in a non-decreasing sequence, `s[p] <= s[q]` for all `p <= q` |
| Snapshots.SortedTail | static/js/algorithms/bubbleSort.js:88-96 | dropping the head of a sorted sequence leaves it sorted |
| Stepper.Run.constructor | static/js/algorithms/bubbleSort.js:18-22 | the working array is a fresh copy of the input; `sorted` is empty and both counters are zero |
| Stepper.Run.Snapshot | static/js/algorithms/bubbleSort.js:30-36 | a yielded snapshot copies the current array, `sorted` and both counters |
| Stepper.Run.Compare | static/js/algorithms/bubbleSort.js:29-36 | a comparison adds one to `comparisons`, leaves the array alone and yields `comparing = [x, y]` |
| Stepper.Run.Exchange | static/js/algorithms/bubbleSort.js:40-51 | an exchange swaps the two cells, adds one to `swaps` and yields `swapped = [x, y]` |
| Stepper.Run.Write | static/js/algorithms/mergeSort.js:45-60 | a merge write sets one cell, adds one to `swaps` and yields `swapped = [k]` |
| Stepper.Run.Show | static/js/algorithms/bubbleSort.js:59-65 | a plain yield changes nothing and reports the current state |
| Stepper.Run.ShowAll | static/js/algorithms/insertionSort.js:83-89 | the final yield reports every index `0..n-1` as sorted |
| Stepper.Run.Result | static/js/algorithms/bubbleSort.js:96 | the returned `{array, comparisons, swaps}` is the last snapshot's |
| Stepper.CompareNeighbours | static/js/algorithms/bubbleSort.js:29-52 | compares `j`, `j+1` and swaps exactly when `array[j] > array[j+1]`; counters rise accordingly |
| Stepper.MarkPrefixSorted | static/js/algorithms/bubbleSort.js:69-74 | pushes every index below `m` not already present, after the indices already marked |
| Bubble.SortNumbers | static/js/algorithms/bubbleSort.js:85 | the numeric sort of the `sorted` list returns a permutation of it |
| Bubble.SortNumbersSorted | static/js/algorithms/bubbleSort.js:85 | the numeric sort returns a non-decreasing list |
| Bubble.Insert | static/js/algorithms/bubbleSort.js:85 | one insertion step adds exactly `x` to the multiset and puts `x` or the old head first |
| Bubble.InsertSorted | static/js/algorithms/bubbleSort.js:85 | inserting into a sorted list keeps it sorted |
| Bubble.OrderedSorted | static/js/algorithms/bubbleSort.js:67-76 | a pass without swaps leaves a sorted prefix in front of the settled suffix, so the whole array is sorted |
| Bubble.PassStep | static/js/algorithms/bubbleSort.js:27-53 | one compare-and-swap keeps the pass invariant: the largest value so far moves right and a clean pass stays ordered |
| Bubble.BubblePass | static/js/algorithms/bubbleSort.js:27-53 | one pass makes `n-i-1` comparisons and settles the largest remaining value at `n-i-1`; it swaps iff it finds an inversion, and a clean pass proves the prefix ordered |
| Bubble.PassAndShow | static/js/algorithms/bubbleSort.js:27-76 | a pass, then `unshift(n-i-1)` and its yield; on a clean pass the rest of the indices are marked and the array is sorted |
| Bubble.Passes | static/js/algorithms/bubbleSort.js:24-77 | the outer loop ends with a sorted array; on sorted input it makes no swap and exactly `n-1` comparisons |
| Bubble.SortedIndices | static/js/algorithms/bubbleSort.js:84-85 | sorting any arrangement of `0..n-1` numerically gives `[0, …, n-1]` |
| Bubble.ListAfterPassesComplete | static/js/algorithms/bubbleSort.js:55-82 | after the passes and the `0` fallback, `sorted` holds exactly the indices `0..max(n,1)-1` |
| Bubble.ListAfterPasses | static/js/algorithms/bubbleSort.js:55-76 | the `sorted` list the passes leave before the fallback: `n` indices after an early exit, `n-1` after all passes (none when `n = 0`) |
| Bubble.FullPassesComplete | static/js/algorithms/bubbleSort.js:55-82 | when no early exit happens, the unshifted indices plus `0` are all of `0..n-1` |
| Bubble.EarlyExitComplete | static/js/algorithms/bubbleSort.js:67-82 | after an early exit, the unshifted suffix plus the pushed prefix are all of `0..n-1` |
| Bubble.CompleteSortedList | static/js/algorithms/bubbleSort.js:79-85 | the `0` fallback and the numeric sort turn `sorted` into `[0, …, n-1]`, or `[0]` when `n = 0` |
| Bubble.BubbleSort | static/js/algorithms/bubbleSort.js:17-97 | the trace is causal and counted and every snapshot is a permutation of the input; comparisons are of neighbours and a swap answers exactly an inversion just compared; the final array is sorted; final `sorted` is `[0..n-1]` (`[0]` for `n = 0`); sorted input costs `n-1` comparisons and no swap |
| Selection.PlacedSorted | static/js/algorithms/selectionSort.js:24-74 | once every position but the last is placed, the array is sorted |
| Selection.PlaceMinimum | static/js/algorithms/selectionSort.js:45-58 | exchanging position `i` with the first minimum of `array[i..n)` extends the placed prefix by one |
| Selection.ScanForMinimum | static/js/algorithms/selectionSort.js:25-43 | the scan makes `n-1-i` comparisons and returns the first index of the minimum of `array[i..n)` (strict `<`) |
| Selection.SelectPosition | static/js/algorithms/selectionSort.js:24-70 | one outer step swaps only when `minIndex != i` (then with a strictly smaller value), pushes `i`, and extends the placed prefix |
| Selection.ComparisonsStep | static/js/algorithms/selectionSort.js:28-29 | adding `n-1-i` to the closed form for `i` rounds gives the closed form for `i+1` |
| Selection.ComparisonsTotal | static/js/algorithms/selectionSort.js:24-43 | after `n-1` rounds the closed form is `n(n-1)/2` |
| Selection.SelectAll | static/js/algorithms/selectionSort.js:24-71 | the outer loop sorts the array, pushes `0..n-2`, makes exactly `n(n-1)/2` comparisons and at most `n-1` swaps |
| Selection.SelectionSort | static/js/algorithms/selectionSort.js:17-86 | causal, counted trace of permutations with only real exchanges; final array sorted; `2·comparisons = n(n-1)`; `swaps <= n-1`; final `sorted` is `[0..n-1]`, `[-1]` when `n = 0` |
| Insertion.Rotated | static/js/algorithms/insertionSort.js:37-67 | the array after shifting `array[i]` down to `j`: same length; the exact cell contents are given by `Insertion.RotatedAt` |
| Insertion.RotatedAt | static/js/algorithms/insertionSort.js:37-67 | cell by cell, the shift moves `array[i]` to `j`, moves `array[j..i)` one right, and leaves the rest |
| Insertion.RotatedStep | static/js/algorithms/insertionSort.js:49-63 | one more adjacent swap moves the travelling value one further left |
| Insertion.RotatedNone | static/js/algorithms/insertionSort.js:34 | before any swap the array is unchanged |
| Insertion.RotatedPermutesPrefix | static/js/algorithms/insertionSort.js:33-67 | the shift permutes `array[0..i]` and leaves `array(i..n)` unchanged |
| Insertion.RotatedSorted | static/js/algorithms/insertionSort.js:33-67 | if `array[0..i)` was ordered and the shift stopped at the first left neighbour not greater, `array[0..i]` is ordered |
| Insertion.NoShiftWhenSorted | static/js/algorithms/insertionSort.js:49-66 | on sorted input the shift stops at its first comparison |
| Insertion.ShiftLeft | static/js/algorithms/insertionSort.js:34-67 | the `while (j > 0)` loop shifts `array[i]` to `j`, past exactly the strictly greater neighbours; it makes `i-j` swaps and `i-j` comparisons plus one more when it stopped at `j > 0` |
| Insertion.ShiftStep | static/js/algorithms/insertionSort.js:38-66 | one loop turn compares `j-1, j` and moves exactly when the left neighbour is strictly greater |
| Insertion.InsertAt | static/js/algorithms/insertionSort.js:33-67 | after the shift for `i`, `array[0..i]` is ordered and a permutation of its old contents; comparisons at most swaps plus one |
| Insertion.InsertNext | static/js/algorithms/insertionSort.js:33-80 | one outer step extends the ordered prefix and the `sorted` list to `i` |
| Insertion.MarkInserted | static/js/algorithms/insertionSort.js:69-79 | `sorted.push(i)` and its yield |
| Insertion.InsertAll | static/js/algorithms/insertionSort.js:33-80 | the outer loop sorts the array and keeps `comparisons <= swaps + (n-1)`; on sorted input no swap and `n-1` comparisons |
| Insertion.InsertionSort | static/js/algorithms/insertionSort.js:17-92 | the first snapshot is the input with `sorted = [0]` and zero counters; the trace is causal, counted, neighbour-swapping and a permutation throughout; the final array is sorted with `sorted = [0..n-1]`; `comparisons <= swaps + (n-1)` |
| Merge.Merged | static/js/algorithms/mergeSort.js:32-97 | the merge of two runs taking the left head on ties (`<=`); its length is the sum of theirs |
| Merge.MergedPermutes | static/js/algorithms/mergeSort.js:26-98 | the merge is a permutation of the two runs together |
| Merge.MergedSorted | static/js/algorithms/mergeSort.js:26-98 | merging two sorted runs gives a sorted run |
| Merge.MergedBound | static/js/algorithms/mergeSort.js:44-50 | a lower bound of both runs bounds their merge |
| Merge.MergedTakesLeft | static/js/algorithms/mergeSort.js:44-46 | when the left head is `<=` the right head (or the right run is empty), the merge starts with the left head |
| Merge.MergedTakesRight | static/js/algorithms/mergeSort.js:47-49 | when the right head is strictly smaller (or the left run is empty), the merge starts with the right head |
| Merge.MergedLeftOnly | static/js/algorithms/mergeSort.js:66-80 | with the right run exhausted, the merge continues with the left head |
| Merge.MergedNoRight | static/js/algorithms/mergeSort.js:66-80 | with the right run empty, the merge is the left run |
| Merge.MergeComparisonsBounds | static/js/algorithms/mergeSort.js:32-33 | a merge makes at least `min(|L|, |R|)` and at most `|L|+|R|-1` comparisons (none when a run is empty) |
| Merge.MergeInto | static/js/algorithms/mergeSort.js:26-98 | writing the merge of two runs into the array from `k` keeps its length |
| Merge.MergeIntoAt | static/js/algorithms/mergeSort.js:30-97 | cell `p` of the result is the merge's element `p-k` inside `[k, k+|L|+|R|)` and unchanged outside |
| Merge.MergeRange | static/js/algorithms/mergeSort.js:26-98 | `merge(left, mid, right)` on an array value; same length |
| Merge.MergeFrom | static/js/algorithms/mergeSort.js:30-97 | the remaining writes of a merge from cursors `i`, `j`, `k` over the saved slices |
| Merge.MergeFromIsMergeInto | static/js/algorithms/mergeSort.js:27-97 | the cursor form equals writing the merge of the remaining slices at `k` |
| Merge.MergeRangeIsMergeInto | static/js/algorithms/mergeSort.js:26-98 | `merge(left, mid, right)` writes the merge of `array[left..mid]` and `array[mid+1..right]` from `left` |
| Merge.MergeRangeAt | static/js/algorithms/mergeSort.js:26-98 | `merge` changes no index outside `[left, right]` |
| Merge.MergeRangeSlice | static/js/algorithms/mergeSort.js:26-98 | `[left, right]` after `merge` is the merge of the two halves as they were |
| Merge.MergeRangeSorts | static/js/algorithms/mergeSort.js:26-98 | if both halves are sorted, `[left, right]` is sorted after `merge` |
| Merge.MergeRangePermutes | static/js/algorithms/mergeSort.js:26-98 | `[left, right]` after `merge` is a permutation of its old contents |
| Merge.MergeStepPermutes | static/js/algorithms/mergeSort.js:108-114 | sorting the two halves and merging permutes `[left, right]` |
| Merge.SortRange | static/js/algorithms/mergeSort.js:103-125 | the array after `mergeSortRecursive(left, right)`; same length |
| Merge.RangeWrites | static/js/algorithms/mergeSort.js:51-96 | the number of writes `mergeSortRecursive(left, right)` makes |
| Merge.SortRangeStep | static/js/algorithms/mergeSort.js:104-114 | for `left < right`, the recursion is sort left half, sort right half, merge |
| Merge.MidBounds | static/js/algorithms/mergeSort.js:105 | `left <= mid < right`, so both halves are strictly smaller |
| Merge.RangeWritesStep | static/js/algorithms/mergeSort.js:104-114 | writes of a range = writes of its halves + `right-left+1` |
| Merge.SortRangeFrame | static/js/algorithms/mergeSort.js:103-125 | `mergeSortRecursive(left, right)` changes no index outside `[left, right]` |
| Merge.FrameStep | static/js/algorithms/mergeSort.js:108-114 | a cell outside the range survives both recursive calls and the merge |
| Merge.HalvesBeforeMerge | static/js/algorithms/mergeSort.js:108-111 | sorting the left half leaves the right half as it was, and sorting the right half leaves the sorted left half as it was |
| Merge.SortRangeSorted | static/js/algorithms/mergeSort.js:103-125 | after `mergeSortRecursive(left, right)`, `[left, right]` is sorted |
| Merge.SortRangePermutes | static/js/algorithms/mergeSort.js:103-125 | after it, `[left, right]` is a permutation of its old contents |
| Merge.MergeComparisonsFrom | static/js/algorithms/mergeSort.js:32-63 | the number of comparisons left in the first loop from cursors `i`, `j` |
| Merge.MergeComparisonsFromRuns | static/js/algorithms/mergeSort.js:32-63 | that count equals `MergeComparisons` of the remaining slices |
| Merge.PlaceNext | static/js/algorithms/mergeSort.js:33-62 | one turn of the first loop: one comparison, one write (counted as a swap), taking the left element on ties |
| Merge.MergeComparisons | static/js/algorithms/mergeSort.js:32-33 | the comparisons one merge of two runs makes: zero exactly when one run is empty |
| Merge.MergeBoth | static/js/algorithms/mergeSort.js:32-63 | the first loop runs until a run is exhausted, making exactly `MergeComparisonsFrom` comparisons and one write per step |
| Merge.CopyLeftRest | static/js/algorithms/mergeSort.js:65-80 | copying the rest of the left run completes the merge, one counted write per element |
| Merge.CopyRightRest | static/js/algorithms/mergeSort.js:82-97 | copying the rest of the right run completes the merge, one counted write per element |
| Merge.CopyRest | static/js/algorithms/mergeSort.js:65-97 | the two copy loops together complete the merge |
| Merge.MergeRuns | static/js/algorithms/mergeSort.js:26-98 | `merge` leaves the array equal to `MergeRange` of the old one; exactly `right-left+1` writes; comparisons are the merge's count and at most `right-left` |
| Merge.MarkIfWhole | static/js/algorithms/mergeSort.js:116-123 | after the top-level merge, `sorted` becomes `[0..n-1]`; otherwise it stays empty |
| Merge.MergeLevel | static/js/algorithms/mergeSort.js:114-123 | the merge after both recursive calls yields `SortRange` of the range, with the write total for the range |
| Merge.MergeSortRange | static/js/algorithms/mergeSort.js:103-125 | `mergeSortRecursive` leaves `SortRange` of the old array, makes exactly `RangeWrites` writes and fewer comparisons |
| Merge.SortAndMerge | static/js/algorithms/mergeSort.js:104-123 | the `left < right` branch of the recursion |
| Merge.SortsWhole | static/js/algorithms/mergeSort.js:128 | sorting `[0, n-1]` gives a sorted permutation of the input |
| Merge.MergeSort | static/js/algorithms/mergeSort.js:16-140 | causal, counted trace; the final array is `SortRange(input, 0, n-1)`, sorted and a permutation of the input; final `sorted` is `[0..n-1]`; swaps are exactly `RangeWrites` and exceed comparisons for `n >= 2` |
| Rearrange.RearrangedTrans | static/js/algorithms/quickSort.js:115-124 | rearranging `[lo, hi]` twice is a rearrangement of it |
| Rearrange.ExchangeRearranges | static/js/algorithms/quickSort.js:61 | a swap of two cells in `[lo, hi]` rearranges that range |
| Rearrange.RearrangedWiden | static/js/algorithms/quickSort.js:121-124 | a rearrangement of a sub-range rearranges any range containing it |
| Rearrange.RearrangedSlice | static/js/algorithms/quickSort.js:57-92 | a rearrangement preserves the multiset of the slice `[lo, hi]` |
| Rearrange.RearrangedFrom | static/js/algorithms/heapSort.js:68-82 | every value inside a rearranged range came from that range |
| Quick.BelowKept | static/js/algorithms/quickSort.js:121 | rearranging the part `< pivot` keeps it `< pivot` |
| Quick.AtLeastKept | static/js/algorithms/quickSort.js:124 | rearranging the part `>= pivot` keeps it `>= pivot` |
| Quick.QuickStep | static/js/algorithms/quickSort.js:115-124 | partition then sorting both sides rearranges `[low, high]` and leaves it sorted |
| Quick.QuickStepRearranged | static/js/algorithms/quickSort.js:118-124 | the recursive calls leave the pivot in place |
| Quick.SortedJoin | static/js/algorithms/quickSort.js:118-124 | sorted left part, pivot, sorted right part make a sorted range |
| Quick.SortedWhole | static/js/algorithms/quickSort.js:141 | a sorted range `[0, n-1]` is a sorted array |
| Quick.ShowQ | static/js/algorithms/quickSort.js:33-40 | a yield that changes nothing: the trace gains a snapshot with empty `comparing` and `swapped` and the given pivot; no exchange is fake and `sorted` stays duplicate-free |
| Quick.CompareQ | static/js/algorithms/quickSort.js:45-55 | `comparisons++` and its yield: the array is unchanged and the snapshot shows `comparing = [x, y]` with the pivot |
| Quick.ExchangeQ | static/js/algorithms/quickSort.js:61-72 | a swap of two distinct cells, `swaps++` and its yield showing `swapped = [x, y]` with the pivot |
| Quick.MarkPlaced | static/js/algorithms/quickSort.js:94-107 | pushes `k` onto `sorted` only when it is not listed yet, then yields with pivot `-1`; array and counters unchanged |
| Quick.ScanAdvance | static/js/algorithms/quickSort.js:44-75 | one turn of the partition loop keeps "`[low, i]` `< pivot`, `(i, j]` `>= pivot`" and the rearrangement |
| Quick.ScanExchange | static/js/algorithms/quickSort.js:57-62 | the swap of `i+1` and `j` extends the `< pivot` part |
| Quick.ScanStep | static/js/algorithms/quickSort.js:44-74 | one loop turn: one comparison of `[j, high]` yielded with the pivot; `i` advances iff `array[j] < pivotValue`; the cells `i+1` and `j` are swapped, counted and yielded exactly when in addition `i+1 != j` |
| Quick.PartitionScan | static/js/algorithms/quickSort.js:42-75 | the loop makes exactly `high-low` comparisons and splits `[low, high)` around `pivotValue`, touching nothing else |
| Quick.PivotPlaced | static/js/algorithms/quickSort.js:78-92 | moving the pivot to `i+1` gives `< pivot` before and `>= pivot` after |
| Quick.PlacePivot | static/js/algorithms/quickSort.js:77-92 | the pivot swap happens (and counts) only when `newPivotPos != high` |
| Quick.Partition | static/js/algorithms/quickSort.js:27-110 | returns `p` with `array[p] = pivotValue`, `[low, p)` `< pivotValue`, `(p, high]` `>= pivotValue`; only `[low, high]` permuted; exactly `high-low` comparisons; pushes `p` |
| Quick.QuickSortRange | static/js/algorithms/quickSort.js:115-138 | `quickSortRecursive(low, high)` sorts and permutes `[low, high]` only, marks every index in it, and makes no more swaps than comparisons |
| Quick.PartitionAndRecurse | static/js/algorithms/quickSort.js:116-124 | the `low < high` branch |
| Quick.QuickSort | static/js/algorithms/quickSort.js:17-154 | causal, counted trace of permutations; every exchange real; no snapshot's `sorted` has a duplicate; the final array is sorted with `sorted = [0..n-1]`; `swaps <= comparisons` |
| Heap.Countdown | static/js/algorithms/heapSort.js:91-97 | the indices pushed by extraction, `n-1` down to `lo` |
| Heap.CountdownMembers | static/js/algorithms/heapSort.js:91-97 | those are exactly the indices in `[lo, n)`, without duplicates |
| Heap.ParentOfChild | static/js/algorithms/heapSort.js:30-31 | `2i+1` and `2i+2` have parent `i` |
| Heap.SiftDone | static/js/algorithms/heapSort.js:67-68 | when `largest == i` the subtree is already a heap |
| Heap.SiftSwap | static/js/algorithms/heapSort.js:68-81 | swapping with the larger child moves the only violation down to that child |
| Heap.RootIsMax | static/js/algorithms/heapSort.js:91-94 | in a max-heap the root is the largest element |
| Heap.LeavesAreHeaps | static/js/algorithms/heapSort.js:86 | the nodes from `floor(n/2)` on are leaves, so heapifying starts there |
| Heap.ExtractFacts | static/js/algorithms/heapSort.js:91-108 | moving the root to `i` extends the sorted suffix and leaves only the root out of place |
| Heap.SiftKeepsSuffix | static/js/algorithms/heapSort.js:108 | heapifying `[0, i)` keeps the sorted suffix and its split |
| Heap.SortedAll | static/js/algorithms/heapSort.js:111-119 | a sorted suffix from 1 that dominates index 0 is a sorted array |
| Heap.CompareH | static/js/algorithms/heapSort.js:35-43 | `comparisons++` and its yield: array unchanged, snapshot shows `comparing = [x, y]` |
| Heap.ExchangeH | static/js/algorithms/heapSort.js:69-78 | a swap of two distinct cells, `swaps++` and its yield showing `swapped = [x, y]` |
| Heap.PickLargest | static/js/algorithms/heapSort.js:29-65 | yields `comparing = [i, left]` if the left child exists, then `[largest, right]` if the right one exists; `largest` moves only on a strict `>`; the array is unchanged |
| Heap.Heapify | static/js/algorithms/heapSort.js:28-83 | `heapify(heapSize, i)` restores the max-heap property and permutes only `[i, heapSize)`; swaps never exceed comparisons |
| Heap.BuildStep | static/js/algorithms/heapSort.js:86-88 | one build iteration extends the heap to node `i` |
| Heap.BuildHeap | static/js/algorithms/heapSort.js:85-88 | after the build loop the whole array is a max-heap and a permutation |
| Heap.ExtractStep | static/js/algorithms/heapSort.js:91-109 | one extraction swaps root and `i` (counted), pushes `i`, and restores the heap on `[0, i)` with the suffix sorted and dominating |
| Heap.ExtractAll | static/js/algorithms/heapSort.js:90-109 | extraction sorts the array, pushes `n-1` down to `1`, and counts `n-1` unconditional swaps besides those inside `heapify` |
| Heap.HeapSort | static/js/algorithms/heapSort.js:17-124 | causal, counted trace of permutations with real exchanges; the final array is sorted with `sorted = [0..n-1]`; `swaps <= comparisons + (n-1)` |
| Playback.BarClassOf | static/js/chart.js:96-108 | the class of bar `index`: `sorted` over `swapping` over `comparing` over `pivot`, each in both directions |
| Playback.Highlights | static/js/chart.js:87-109 | every bar with an index in the snapshot's array gets `BarClassOf`; any other bar keeps its class |
| Playback.AllSorted | static/js/chart.js:136-138 | on completion every bar is `sorted` |
| Playback.PlainBars | static/js/chart.js:64-75 | a render gives every bar the plain class |
| Playback.FinalSnapshotAllSorted | static/js/chart.js:100-101 | a snapshot reporting every index sorted colours every bar `sorted` |
| Playback.NoPivotNoPivotBar | static/js/chart.js:83-108 | with the default pivot `-1`, no bar is coloured as the pivot |
| Playback.MetricsOf | static/js/chart.js:149-151 | the metrics `onStep` receives from snapshots `from..to`, in order |
| Playback.Rendered | static/js/chart.js:45-76 | `render` sets `data` and `originalData` to the values and all bars to plain; playback state is untouched |
| Playback.Animated | static/js/chart.js:121-159 | `animate` installs a fresh generator at position 0, clears `isPaused` and schedules a tick |
| Playback.Ticked | static/js/chart.js:127-155 | a paused tick changes nothing; an unpaused tick keeps the callbacks and stays unpaused |
| Playback.Paused | static/js/chart.js:164-170 | `pause` sets `isPaused`, cancels the pending tick and keeps the generator and display |
| Playback.Resumed | static/js/chart.js:175-209 | without a generator `resume` does nothing; otherwise it clears `isPaused` and schedules a tick from the same position |
| Playback.Stopped | static/js/chart.js:214-221 | `stop` clears `isPaused`, the pending tick and the generator and keeps the display |
| Playback.ResetTo | static/js/chart.js:226-229 | `reset` stops and re-renders `originalData` |
| Playback.TickedN | static/js/chart.js:154 | `k` consecutive ticks keep the controller invariant |
| Playback.PausedTicksConsumeNothing | static/js/chart.js:128-130 | after `pause`, any number of ticks leaves the state, including the generator position, unchanged |
| Playback.PauseThenResume | static/js/chart.js:164-178 | `resume` after `pause` gives back the original state with `isPaused` false and a tick pending: same generator position, data and callbacks |
| Playback.StopThenResume | static/js/chart.js:175-221 | `resume` after `stop` is a no-op |
| Playback.TickShows | static/js/chart.js:132-154 | an unpaused tick with snapshots left advances the generator by exactly one, shows that snapshot, reports its metrics iff `onStep` was given, and schedules the next tick |
| Playback.TickDone | static/js/chart.js:134-144 | an unpaused tick on an exhausted generator marks all bars sorted, calls `onComplete` once if given, and schedules nothing |
| Playback.TicksAdvance | static/js/chart.js:127-155 | `k` unpaused ticks advance the generator by exactly `k` |
| Playback.TicksReport | static/js/chart.js:149-151 | with `onStep`, `k` ticks report exactly the metrics of the `k` snapshots shown, in order |
| Playback.TicksReportNothing | static/js/chart.js:149-151 | without `onStep`, nothing is reported |
| Playback.TicksShowLast | static/js/chart.js:146-154 | after the tick that shows snapshot `last`, the data is that snapshot's array and a tick is pending |
| Playback.PlayFrom | static/js/chart.js:127-155 | playing from position `pos` to the end reports the remaining metrics, completes once, marks every bar sorted and stops scheduling |
| Playback.PlayToEnd | static/js/chart.js:121-159 | `animate` then `|steps|+1` ticks reports every snapshot's metrics (with `onStep`), calls `onComplete` once and leaves every bar sorted |
| Playback.TicksKeepBarCount | static/js/chart.js:87-89 | ticks never change the number of bars |
| Playback.Chart.constructor | static/js/chart.js:6-14 | the module's initial state: no data, no bars, not paused, nothing pending, no generator |
| Playback.Chart.Render | static/js/chart.js:45-76 | the new state is `Rendered` of the old |
| Playback.Chart.UpdateBars | static/js/chart.js:82-113 | recolours the bars by `Highlights` and copies the snapshot's array into `data` |
| Playback.Chart.Animate | static/js/chart.js:121-159 | the new state is `Animated` of the old |
| Playback.Chart.Tick | static/js/chart.js:127-155 | one firing of `step`: the new state is `Ticked` of the old |
| Playback.Chart.Pause | static/js/chart.js:164-170 | the new state is `Paused` of the old |
| Playback.Chart.Resume | static/js/chart.js:175-209 | the new state is `Resumed` of the old |
| Playback.Chart.Stop | static/js/chart.js:214-221 | the new state is `Stopped` of the old |
| Playback.Chart.Reset | static/js/chart.js:226-229 | the new state is `ResetTo` of the old |
| Playback.Chart.GetData | static/js/chart.js:235-237 | returns the current data (a value, so a copy) |
| Playback.Chart.GetOriginalData | static/js/chart.js:243-245 | returns the original data |
| Playback.Chart.GetIsPaused | static/js/chart.js:261-263 | returns `isPaused` |
| Playback.Chart.SetData | static/js/chart.js:251-255 | sets `data` and `originalData` and re-renders: the new state is `Rendered` of the old |

## Left out

- DOM work in `render`/`updateBars`:
  - element creation, pixel heights computed with floating point, `style` and `dataset`;
  - the `init` container lookup and its error logging.

  Only the bar count and each bar's state class are kept.
- `generateRandomData`: it uses `Math.random`. The input array is a parameter of every sort instead.
- `static/js/metrics.js` (timer and display formatting), `static/js/main.js` (UI wiring) and `app.py` (static file serving) are not part of this model.
- `requestAnimationFrame` and `cancelAnimationFrame`: the single scheduled frame is the `pending` flag, and `Playback.Chart.Tick` is the callback firing. Timing is not modelled.
- Callbacks:
  - each of `onStep` and `onComplete` is modelled as "was a callback supplied";
  - what `onStep` received is kept as a log of `Metrics`;
  - what `onComplete` did is kept as a count of calls.

  Their side effects on the page are not modelled.
- `state.metrics` is always present in every snapshot the generators yield, so the `state.metrics` test in `step` is always true and is not modelled separately.
- Playback.Chart.Resume: requires that no tick is pending. Calling `resume` while a frame is already scheduled would start a second, interleaved frame chain, which the single `pending` flag cannot represent. The page calls `resume` only while paused (`static/js/main.js:114-117`), and `pause` cancels the pending frame.
- Playback.Chart.Animate: requires that no tick is pending, for the same reason. The page stops the current animation through `reset` before starting a new one (`static/js/main.js:150-158`).
- Playback.Animated: carries the same no-pending precondition as `Playback.Chart.Animate`.
- Playback.Resumed: carries the same no-pending precondition as `Playback.Chart.Resume`.
- Merge.MergeSortRange: states the comparison total only as a bound (fewer than `RangeWrites` for a non-trivial range), not as the exact sum of the per-merge counts. The exact count of a single merge is stated by `Merge.MergeRuns`.
- Merge.MergeSort: states comparisons only as fewer than swaps for `n >= 2`, for the same reason.
- Merge.Merged: stability (equal values kept in left-before-right order) is not observable on plain integers. The `<=` tie rule is modelled exactly (`Merge.MergedTakesLeft`), but stability itself is not stated.
- Heap.ExtractAll: counts the swaps made inside `heapify` through a ghost out-parameter (`sifted`). The `n-1` extraction swaps are stated exactly; the method's non-ghost postconditions give only the inequality with comparisons.
- Heap.HeapSort: states `swaps <= comparisons + (n-1)` rather than the exact number of heapify swaps, which depends on the data.
- Numbers are JavaScript numbers in the repository and integers here. The generators only compare and copy them with `<`, `<=` and `>`, so integers behave the same; NaN and mixed types are not modelled.
- The intermediate snapshots of merge sort are not permutations of the input. `merge` overwrites cells from saved copies of the two halves, so a value can appear twice mid-merge. `Merge.MergeSort` therefore states the permutation property for the final array only. The other five sorts state it for every snapshot.
- Several edge cases are modelled as the code behaves:
  - For an empty input, bubble sort's final `sorted` is `[0]` and selection sort's is `[-1]`.
  - Insertion sort's first snapshot reports `sorted = [0]` even for an empty input.
  - Heap sort pushes `i` onto `sorted` before it yields the extraction swap's snapshot, so that snapshot already shows `i` as sorted.
