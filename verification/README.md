# Sortify: the sorting engine, its accessor and the run controller

This project models the core of the Sortify sorting visualizer in Dafny and proves properties of the model. It has three layers.

**The instrumented accessor.** `Helper` in scripts/helper.js is the only way the sorts touch the array.
- A board is modelled as the value sequence plus three more parts: one set of highlight classes per cell, the `comparisons` counter and the `swaps` counter.
- `compare`, `swap`, `setValue`, `getValue` and `getLength` keep their bounds checks and their counter effects.
- The `mark*`/`unmark` calls keep their effect on the classes. They leave the data and the counters alone.
- `reverse` and `shuffle` are modelled too.

**The algorithm engine.** `SortAlgorithms` in scripts/sort-algorithms.js holds eleven sorts that are modelled:
- bubble, selection and insertion;
- merge, quick, heap, radix and shell;
- cocktail, gnome and comb.

Each sort is a method from a board to a board, written against the accessor only, with the same loops, branches and tie-breaks as the source. For each sort the model proves:
- the result is sorted and is a permutation of the input;
- every cell carries the sorted mark at the end;
- exact counter effects where the code fixes them. Bubble sort compares n(n-1)/2 times and swaps once per inverted pair. Insertion sort swaps once per inverted pair and never calls `compare`. Merge, shell and radix sort change neither counter.

The intermediate invariants are stated as their own members:
- the Lomuto partition;
- the max-heap;
- the stable digit pass of radix sort;
- Knuth's gap list and the gap order of shell sort;
- the settled ends of cocktail sort.

**The run controller.** This is the `state` record and the button handlers of scripts/app.js: `generateArray`, `startSorting`, `togglePause`, `resetArray` and `resetMetrics`.
- `startSorting` keeps both guards: an empty selection, and a sort already running.
- An admitted start sets the running flag, clears the pause flag and zeroes the counters before any sort step. While that flag is set, every further start is refused as busy.
- It dispatches on the eight ids of its `switch`.
- A completed run marks every cell sorted. A run that throws skips the marking. Either way the `finally` clause clears the running flag, so the next start is accepted.
- Each handler, run on its own, keeps a validity invariant: the original copy holds values in 1..100, and the board is a rearrangement of it. Handlers are not interleaved with a running sort (see "Left out").

Two concrete scenarios are proved as well:
- bubble sort on [5,3,8,1,9,2] gives [1,2,3,5,8,9] with 15 comparisons and 8 swaps;
- insertion sort on [4,4,4] makes no swap.

Files:
- orders.dfy: sortedness, inversion counting and permutation facts.
- accessor.dfy: the accessor.
- elementary_sorts.dfy: bubble, selection and insertion sort.
- merge_sort.dfy, quick_sort.dfy, heap_sort.dfy, radix_sort.dfy, shell_sort.dfy: one sort each.
- exchange_sorts.dfy: cocktail, gnome and comb sort.
- engine.dfy: the dispatch.
- controller.dfy: the page state and its handlers.
- scenarios.dfy: the two concrete runs.

Notes on the code as written:
- **Bubble sort on [5,3,8,1,9,2].** The sort swaps 8 times, once per inverted pair.
- **Unknown algorithm ids.** `startSorting` refuses only the empty selection. Any other id falls through the `switch` without running a sort, and every cell is still marked sorted. This includes cocktail, gnome and comb, whose methods exist but are not reachable from the page.
- **Radix sort and non-negative values.** Radix sort is only meaningful on non-negative values, and the page only produces 1..100. When the array is empty or its largest value is not positive, `Math.log10` yields -Infinity or NaN and no pass runs. `DigitCount` returns 0 in exactly those cases.

## Model

| member | source | states |
|---|---|---|
| Accessor.Length | scripts/helper.js:154-156 | the length is the number of values |
| Accessor.AddTag | scripts/helper.js:18-60 | a `mark*` call adds its class to an in-range cell and changes nothing else. Out of range it is a no-op. Values and counters never change. The sorted set grows by i exactly for `markSorted` |
| Accessor.Unmark | scripts/helper.js:62-68 | in range, the transient classes of that cell are removed and the sorted mark survives. Out of range it is a no-op. Values and counters are unchanged |
| Accessor.UnmarkErasesMark | scripts/helper.js:18-68 | marking a cell with a transient class and then unmarking it is the same as only unmarking it |
| Accessor.Compare | scripts/helper.js:79-97 | in range: answers a[i] > a[j], counts exactly one comparison, and changes neither the values nor `swaps`. Out of range: answers false and changes nothing |
| Accessor.CompareAsymmetric | scripts/helper.js:79-97 | `compare` never answers true in both directions, because it is a strict test |
| Accessor.Swap | scripts/helper.js:100-131 | in range: exchanges a[i] and a[j] and leaves every other position alone. It counts exactly one swap, even when i = j, and leaves `comparisons` alone. Out of range it changes nothing. The multiset of values is always kept |
| Accessor.SwapTwiceRestores | scripts/helper.js:100-131 | swapping the same two cells twice restores the values and counts two swaps |
| Accessor.SetValue | scripts/helper.js:134-145 | in range only a[i] becomes v. Out of range the values are kept. Classes and both counters never change |
| Accessor.GetValue | scripts/helper.js:148-151 | a[i] in range, 0 outside |
| Accessor.SetThenGet | scripts/helper.js:134-151 | reading a written in-range cell gives the written value, and every other read is unaffected |
| Accessor.GetThenSet | scripts/helper.js:134-151 | writing back the value just read changes nothing |
| Accessor.Reverse | scripts/helper.js:201-206 | the values end up reversed, `swaps` grows by exactly floor(n/2), and `comparisons` is unchanged |
| Accessor.ReversedTwice | scripts/helper.js:201-206 | reversing twice restores the sequence |
| Accessor.FloorScaled | scripts/helper.js:195 | floor(x·m) lies in 0..m-1 for a draw x in [0, 1), so every shuffle index is in range |
| Accessor.Shuffle | scripts/helper.js:192-198 | for any random draws: a permutation of the values, exactly n-1 swaps counted (self-swaps included), no comparison |
| Accessor.MarkAllSorted | scripts/sort-algorithms.js:83-85 | the closing mark loop puts the sorted mark on every cell and changes neither the values nor the counters |
| Accessor.CompareExchange | scripts/sort-algorithms.js:15-17 | `compare` then, if it answered true, `swap`: the pair is exchanged exactly when a[i] > a[j]. It counts one comparison, and one swap only when the pair is exchanged |
| Orders.ScanTotalClosedForm | scripts/sort-algorithms.js:13-14 | the inner scans of lengths n-1, n-2, ..., 1 add up to n(n-1)/2 comparisons |
| Orders.SwapAdjacentInversions | scripts/sort-algorithms.js:15-17 | exchanging an adjacent inverted pair removes exactly one inverted pair |
| Orders.InversionsZeroIffSorted | scripts/sort-algorithms.js:10-26 | a sequence has no inverted pair if and only if it is sorted |
| ElementarySorts.BubbleSort | scripts/sort-algorithms.js:10-26 | the output is sorted and a permutation of the input. Exactly n(n-1)/2 comparisons and exactly as many swaps as the input has inverted pairs. Every cell is marked sorted |
| ElementarySorts.BubbleRound | scripts/sort-algorithms.js:14-20 | pass i compares n-i-1 times. It settles one more cell at the end and marks it sorted. Each swap pays for one inversion |
| ElementarySorts.BubblePass | scripts/sort-algorithms.js:14-18 | a left-to-right compare-and-swap pass over [lo, hi] carries the segment's maximum to hi. It only permutes that segment and compares hi-lo times. It reports a swap exactly when one happened, and otherwise the segment was already in order |
| ElementarySorts.SettledSuffixGrows | scripts/sort-algorithms.js:14-20 | after a pass that leaves the maximum of a[0..m] at m, the settled sorted suffix grows by one |
| ElementarySorts.SelectionSort | scripts/sort-algorithms.js:29-60 | sorted permutation, exactly n(n-1)/2 comparisons, at most n-1 swaps, every cell marked sorted |
| ElementarySorts.SelectionRound | scripts/sort-algorithms.js:32-57 | one outer iteration settles cell i and marks it sorted. It compares n-1-i times, swaps at most once, and never swaps on the last cell |
| ElementarySorts.SelectMinimum | scripts/sort-algorithms.js:33-46 | the scan finds a minimum of a[i..] that is the leftmost one, because `compare` is strict. It compares n-1-i times and leaves the values alone |
| ElementarySorts.PlaceMinimum | scripts/sort-algorithms.js:49-53 | the minimum is exchanged into i, counting a swap only when minIndex differs from i |
| ElementarySorts.InsertionSort | scripts/sort-algorithms.js:63-88 | sorted permutation, no comparison counted, exactly as many swaps as inverted pairs, every cell marked sorted |
| ElementarySorts.InsertOne | scripts/sort-algorithms.js:67-79 | one outer iteration extends the ordered prefix to a[0..i], with each swap paying for one inversion |
| ElementarySorts.SinkKey | scripts/sort-algorithms.js:72-77 | the key sinks past every strictly greater left neighbour and stops at the front or at the first one that is not greater |
| ElementarySorts.ExchangeDown | scripts/sort-algorithms.js:73-75 | exchanging an inverted adjacent pair counts one swap and removes one inversion |
| MergeSort.MergePermutation | scripts/sort-algorithms.js:112-153 | the merged run holds exactly the values of both runs |
| MergeSort.MergeSorted | scripts/sort-algorithms.js:112-153 | merging two sorted runs gives a sorted run |
| MergeSort.MergeStep | scripts/sort-algorithms.js:127-139 | the merge takes from the left run on `left[i] <= right[j]`, so ties go to the left run (stability), and from the right run otherwise |
| MergeSort.CopyRun | scripts/sort-algorithms.js:116-122 | the temporary array is exactly the run a[lo..hi] |
| MergeSort.WriteBack | scripts/sort-algorithms.js:124-152 | the three write loops put the merge of the two runs into the window and touch nothing else. They go through `setValue`, so no counter moves |
| MergeSort.MergeRuns | scripts/sort-algorithms.js:112-153 | `merge(start, mid, end)` replaces a[start..end] by the merge of its two halves and leaves everything else and both counters alone |
| MergeSort.MergeSortHelper | scripts/sort-algorithms.js:102-110 | a[start..end] ends sorted and permuted, nothing outside it changes, and no counter moves |
| MergeSort.MergeSort | scripts/sort-algorithms.js:91-100 | sorted permutation, both counters unchanged, every cell marked sorted |
| QuickSort.LomutoStep | scripts/sort-algorithms.js:181-193 | one scan step keeps the Lomuto invariant. Cells up to i are below the pivot, cells from i+1 to j-1 are at least the pivot, and the pivot waits at `end` |
| QuickSort.PartitionStep | scripts/sort-algorithms.js:181-193 | one iteration of the scan, through the accessor, keeps the invariant and the values, and never counts a comparison |
| QuickSort.PlacePivot | scripts/sort-algorithms.js:195-198 | the final swap puts the pivot at i+1, between the smaller and the not-smaller cells, and counts one swap |
| QuickSort.Partition | scripts/sort-algorithms.js:175-199 | returns p with start ≤ p ≤ end and a[p] equal to the old a[end]. Cells before p are below the pivot and cells after p up to end are not. Nothing outside [start, end] changes, the values are permuted, and no comparison is counted |
| QuickSort.SortedAroundPivot | scripts/sort-algorithms.js:167-172 | two sorted sides around a correctly placed pivot make a sorted window |
| QuickSort.QuickSortHelper | scripts/sort-algorithms.js:167-173 | a[start..end] ends sorted and permuted, nothing outside changes, and no comparison is counted |
| QuickSort.QuickSort | scripts/sort-algorithms.js:156-165 | sorted permutation, `comparisons` unchanged, every cell marked sorted |
| HeapSort.Largest | scripts/sort-algorithms.js:225-235 | the chosen cell is the node or one of its children inside the heap and is at least all three. The left child wins ties between the children, and the node wins ties with them |
| HeapSort.PickLargest | scripts/sort-algorithms.js:225-235 | the two `getValue` tests pick exactly the cell Largest describes; outside the heap the node itself |
| HeapSort.Heapify | scripts/sort-algorithms.js:224-243 | given heap order below `index`, sifting establishes it from `index` on. It only changes the node and cells in its subtree range, never a position at or beyond `size`. It permutes the values and counts no comparison |
| HeapSort.HeapRootMax | scripts/sort-algorithms.js:211-217 | the root of a max-heap holds its largest value |
| HeapSort.BuildHeap | scripts/sort-algorithms.js:205-208 | after the build loop a[parent] ≥ a[child] for every child inside the array |
| HeapSort.ShrunkHeap | scripts/sort-algorithms.js:212-217 | exchanging the root with the last heap cell keeps the heap order below the root of the shrunk heap |
| HeapSort.ExtractMax | scripts/sort-algorithms.js:211-218 | one extraction puts the current heap maximum at i and marks i sorted. It grows the settled suffix and repairs the smaller heap |
| HeapSort.ExtractAll | scripts/sort-algorithms.js:210-218 | after the extraction loop every cell but the first is settled and marked sorted |
| HeapSort.HeapSort | scripts/sort-algorithms.js:202-222 | sorted permutation, `comparisons` unchanged, every cell marked sorted |
| RadixSort.DigitPlaceValue | scripts/sort-algorithms.js:273 | the digit function equals floor(v / 10^d) mod 10 |
| RadixSort.BucketDigits | scripts/sort-algorithms.js:273-274 | every value in bucket b has digit b |
| RadixSort.CountDigits | scripts/sort-algorithms.js:270-275 | count[b] is the number of values whose digit is b |
| RadixSort.PrefixSums | scripts/sort-algorithms.js:277-280 | after the prefix loop, count[b] is the number of values whose digit is at most b |
| RadixSort.FillStep | scripts/sort-algorithms.js:283-290 | placing a[j-1] at count[digit]-1 and decrementing that count keeps every bucket's slot filled from the back in original order |
| RadixSort.FillOutput | scripts/sort-algorithms.js:282-290 | the output array is the buckets in digit order, each in its original order |
| RadixSort.WriteAll | scripts/sort-algorithms.js:292-295 | the copy-back loop writes the output, keeps the classes and moves no counter |
| RadixSort.CountingSortByDigit | scripts/sort-algorithms.js:265-296 | one pass leaves exactly the stable bucket order by digit d and moves no counter |
| RadixSort.ByDigitPermutation | scripts/sort-algorithms.js:265-296 | a pass permutes the values |
| RadixSort.ByDigitOrdered | scripts/sort-algorithms.js:265-296 | after a pass the digits are in non-decreasing order |
| RadixSort.ByDigitStable | scripts/sort-algorithms.js:265-296 | a pass is stable: the values with digit b keep their relative order |
| RadixSort.ByDigitRefines | scripts/sort-algorithms.js:253-255 | if the values were ordered by their lowest k digits, a pass on digit k orders them by their lowest k+1 digits |
| RadixSort.DigitCount | scripts/sort-algorithms.js:251 | for m > 0 the digit count c satisfies 10^(c-1) ≤ m < 10^c, as floor(log10 m)+1 does. For m ≤ 0 no pass runs |
| RadixSort.MaxValue | scripts/sort-algorithms.js:248 | the maximum is an element and bounds every element |
| RadixSort.KeyCoversValue | scripts/sort-algorithms.js:251-255 | once the key covers every digit of the maximum, ordering by the key is ordering by value |
| RadixSort.RadixPasses | scripts/sort-algorithms.js:253-255 | after passes on digits 0..p-1 the values are a permutation ordered by their p lowest digits |
| RadixSort.RadixSort | scripts/sort-algorithms.js:246-263 | for non-negative values: sorted permutation, both counters unchanged, every cell marked sorted |
| ShellSort.Knuth | scripts/sort-algorithms.js:304-307 | every gap of the sequence 1, 4, 13, ... is at least 1 |
| ShellSort.ShellGaps | scripts/sort-algorithms.js:302-308 | the gap list is Knuth's sequence in reverse. Every gap is below n, each gap is 3·next+1, the list strictly decreases, it is empty exactly when n ≤ 1 and otherwise ends in 1 |
| ShellSort.ShiftingStep | scripts/sort-algorithms.js:317-322 | moving the value one gap below the hole up keeps the gapped-insertion invariant with the hole one gap lower |
| ShellSort.ShiftingDone | scripts/sort-algorithms.js:324 | dropping the key into the hole makes a[..i+1] gap-ordered and keeps the values |
| ShellSort.ShiftChain | scripts/sort-algorithms.js:317-322 | the inner loop stops at the chain's end or at the first value not above the key, without counting |
| ShellSort.GapInsert | scripts/sort-algorithms.js:312-325 | one middle iteration extends gap order to a[..i+1], permutes, leaves cells after i alone and counts nothing |
| ShellSort.ShellPass | scripts/sort-algorithms.js:311-326 | one pass leaves every pair `gap` apart in order |
| ShellSort.GapOneSorted | scripts/sort-algorithms.js:310-327 | gap order with gap 1 is sortedness, and the last gap is 1 |
| ShellSort.ShellSort | scripts/sort-algorithms.js:299-335 | sorted permutation, both counters unchanged, every cell marked sorted |
| ExchangeSorts.SinkPass | scripts/sort-algorithms.js:360-366 | the backward pass carries the minimum of [lo, hi] to lo. It only permutes that segment, compares hi-lo times, pays one inversion per swap, and reports a swap exactly when one happened |
| ExchangeSorts.CocktailForward | scripts/sort-algorithms.js:347-358 | a forward pass that leaves the window maximum at `end` settles that cell |
| ExchangeSorts.CocktailBackward | scripts/sort-algorithms.js:360-368 | a backward pass that leaves the window minimum at `start` settles that cell |
| ExchangeSorts.CocktailDone | scripts/sort-algorithms.js:355 | a pass without a swap over the open window means the whole array is sorted |
| ExchangeSorts.ForwardRound | scripts/sort-algorithms.js:344-358 | the forward half of a round either finds the array sorted or shrinks the window from above, paying one inversion per swap |
| ExchangeSorts.BackwardRound | scripts/sort-algorithms.js:357-368 | the backward half shrinks the window from below and finds the array sorted when it makes no swap |
| ExchangeSorts.CocktailSort | scripts/sort-algorithms.js:338-377 | sorted permutation, exactly as many swaps as inverted pairs, every cell marked sorted |
| ExchangeSorts.GnomeStep | scripts/sort-algorithms.js:385-392 | at the front or past an ordered pair, the gnome steps forward without a swap. After an inverted pair it exchanges the pair, removing one inversion, and steps back. A comparison is counted except at index 0 |
| ExchangeSorts.StepBack | scripts/sort-algorithms.js:387-389 | the gnome's exchange counts one swap and removes one inversion |
| ExchangeSorts.GnomeSort | scripts/sort-algorithms.js:380-401 | sorted permutation, exactly as many swaps as inverted pairs, at least that many comparisons, every cell marked sorted |
| ExchangeSorts.CombShrink | scripts/sort-algorithms.js:411 | the new gap is floor(gap·10/13) and is smaller than any gap above 1 |
| ExchangeSorts.CombPass | scripts/sort-algorithms.js:417-422 | a gapped pass compares n-gap times and reports a swap exactly when one happened. Otherwise every pair `gap` apart was in order. With gap 1 each swap pays one inversion |
| ExchangeSorts.CombSort | scripts/sort-algorithms.js:404-431 | sorted permutation, every cell marked sorted |
| Engine.RunAlgorithm | scripts/app.js:304-329 | exactly the eight ids of the `switch` dispatch. Each leaves a sorted permutation, fully marked, with that sort's counter effects. Any other id changes nothing |
| Controller.PermutedPageValues | scripts/app.js:245-251 | a rearrangement of values in 1..100 holds values in 1..100 |
| Controller.GenerateRandomArray | scripts/app.js:245-251 | exactly `size` values, each in 1..100, each equal to floor(100·draw)+1 |
| Controller.Render | scripts/app.js:254-274 | one unmarked cell per value, counters untouched |
| Controller.ResetMetrics | scripts/app.js:522-527 | both counters become zero and nothing else changes |
| Controller.ResetMetricsIdempotent | scripts/app.js:522-527 | resetting the counters twice is resetting them once |
| Controller.Fresh | scripts/app.js:233-242 | the board `generateArray` leaves: the given values, no cell marked, both counters zero |
| Controller.RenderThenResetIsFresh | scripts/app.js:238-239 | `renderArray` followed by `resetMetrics` gives the fresh board, whatever board was shown before |
| Controller.GenerateArray | scripts/app.js:233-242 | the original copy equals the new board's array. The board is fresh, with zero counters and no marks. The state is valid and the flags are kept |
| Controller.TogglePause | scripts/app.js:352-353 | the pause flag flips and nothing else changes |
| Controller.TogglePauseTwice | scripts/app.js:352-353 | toggling twice is the identity |
| Controller.ResetArray | scripts/app.js:366-372 | the board's array becomes the original copy, with zero counters and no sorted mark. The flags are kept and validity is preserved |
| Controller.ResetArrayIdempotent | scripts/app.js:366-372 | resetting twice is resetting once |
| Controller.ResetRestoresGenerated | scripts/app.js:233-242 | whatever happened to the board since `generateArray`, `resetArray` brings back exactly the state `generateArray` left |
| Controller.Admit | scripts/app.js:280-288 | the start is refused with "no algorithm" exactly when the selection is empty, and as busy exactly when a selection is made while a sort is running |
| Controller.BeginRun | scripts/app.js:290-294 | an admitted start sets the running flag, clears the pause flag and zeroes both counters. Cells, values and the original copy are unchanged, and validity is kept |
| Controller.RunningRefusesStart | scripts/app.js:285-294 | once a run has begun, every start with a selected algorithm is refused as busy |
| Controller.Finally | scripts/app.js:343-344 | the `finally` clause clears the running flag and keeps the board the run ended with |
| Controller.FinallyReleases | scripts/app.js:285-288 | after the `finally` clause, whatever board the run left, the next start with a selected algorithm is admitted |
| Controller.EndRun | scripts/app.js:331-349 | a completed run marks every cell sorted. A run that threw leaves the board exactly as the sort left it. In both cases the running flag ends false, the pause flag and the original copy are kept, and the state is valid when the board is still a rearrangement of the original copy |
| Controller.StartSorting | scripts/app.js:277-349 | an empty selection, or a sort already running, leaves the state unchanged. Otherwise the run begins with zero counters and the selected sort runs, or nothing runs for an unknown id. Every cell ends marked sorted, the running and pause flags end false, the valid-state invariant and the original copy are kept, and each dispatched id leaves the board sorted with its counter effects. Selection sort swaps at most n-1 times |
| Scenarios.BubbleScenario | scripts/sort-algorithms.js:10-26 | bubble sort on [5,3,8,1,9,2] gives [1,2,3,5,8,9] with 15 comparisons and 8 swaps |
| Scenarios.ScenarioInversions | scripts/sort-algorithms.js:13-18 | [5,3,8,1,9,2] has 8 inverted pairs |
| Scenarios.InsertionScenario | scripts/sort-algorithms.js:72-77 | insertion sort on [4,4,4] swaps nothing, because the strict `>` never fires on equal values |

## Left out

- cycleSort (scripts/sort-algorithms.js:434-489): its rotate loop never updates `item`, so on [3,1,2] it swaps cells 0 and 1 back and forth forever. It has no sortedness or termination property to state, and the page never dispatches it.
- Pacing and pause: the awaited delays, the `wait` polling and the pause checks are timers. Every `await` is one sequential step. The pause flag is modelled only as the value `togglePause` flips, because a paused run only waits.
- Controller.StartSorting: never takes the `catch` branch, because no step of the model can fail: every accessor call is bounds-checked, and only the DOM and audio calls could throw, which are not modelled. The failing path is stated separately by `Controller.EndRun` with `failed` true.
- Controller.StartSorting: runs the sort as one step, with no handler interleaved. On the page the reset button stays enabled during a run (scripts/app.js:297-299 disable only the sort and generate buttons), and Ctrl+R presses it (scripts/ui.js:41-45). `Helper` caches the cells when it is built (scripts/helper.js:9-14), so after a mid-run `resetArray` the sort keeps reading the detached cells while writing `state.array`. The array can then stop being a rearrangement of the original copy. Reasoning from the text only: shell sort on [2,1,3] with a reset between `setValue(1, 2)` and `setValue(0, 1)` ends with [1,1,3]. The validity invariant is therefore proved only for handlers that run between sorts.
- Floating point: `Math.log10`, `Math.pow` and `Math.floor(gap / 1.3)` are replaced by integer digit counting, powers of ten and `gap * 10 / 13`.
- Randomness: `Math.random()` draws are parameters of `GenerateRandomArray` and `Shuffle`.
- DOM, sound and visuals: cell heights, `playSound`, notifications, buttons and the visual effects (`highlightRange`, `unhighlightRange`, `resetCells`, `animateCompletion`, `celebrateCompletion`, `waveEffect`, `rippleEffect`, `explosionEffect`) have no effect on the array or the counters.
- Wall-clock metrics: `startTime`, `performance.now`, `getStats` and `exportData`.
- scripts/ui.js and `getAlgorithmInfo`: user-interface glue and display strings.
- Controller.StartSorting: requires the valid-state invariant. The page maintains it, and radix sort needs non-negative values.
- Engine.RunAlgorithm: requires non-negative values, which radix sort needs. With negative values the source would index its count array with a negative digit.
- RadixSort.RadixSort: requires non-negative values, for the same reason.
- ElementarySorts.SelectionSort: states at most n-1 swaps, not the exact number of rounds whose minimum was out of place.
- QuickSort.Partition: states only that at least one swap is counted, not the exact number.
- QuickSort.QuickSort: does not state a swap count.
- HeapSort.HeapSort: does not state a swap count.
- ExchangeSorts.CocktailSort: states only that the comparison count does not decrease. The exact count depends on when the loop stops.
- ExchangeSorts.GnomeSort: states a lower bound on comparisons, at least one per swap, not the exact count.
- ExchangeSorts.CombSort: states only that the counters do not decrease. Swaps across a gap larger than one can remove several inverted pairs at once.
