# SortLab sorting core in Dafny

SortLab is a web app that teaches sorting algorithms. It has two front ends, each with its own sort engines.

- **Recorded engines** (`src/utils/sortingAlgorithms.ts`): bubble, selection, insertion, merge, quick and heap sort.
  - Each sorts a private copy of the input. It records a `SortStep` after every comparison, exchange and milestone.
  - A step holds a frozen snapshot of the array plus the indices being compared, exchanged or already sorted, and the pivot.
  - Each engine returns the list of steps together with its comparison and swap counters.
- **Visualizer page** (`src/pages/Visualizer.tsx`): plays those steps back.
  - It parses the comma-separated input and refuses an empty list or one longer than 50.
  - It runs the selected engine and steps a cursor through the result on a timer, with play/pause, reset and a speed slider.
  - It assembles the record that is exported as CSV.
- **Streaming engines** (`algorithms/sorting.js`): the same six sorts, in place on the caller's array. They report progress through two callbacks:
  - `updateStats(comparisons, swaps)`;
  - `visualize(array, highlighted)`.
- **Plain page** (`main.js`): drives the streaming engines.
  - It enables the sort button only when there is input, an algorithm is chosen and no sort is running.
  - It validates the comma-separated tokens.
  - It escapes text for HTML with `escapeHtml`.

Each engine is modelled as imperative Dafny over an `array<int>`, with loop invariants:
- A recorded engine takes its input as a value and allocates its own working array.
- A streaming engine `modifies` the caller's array and returns its callbacks as an event trace.

Helpers that the source writes as closures (`merge`, `partition`, `heapify`) become methods. They thread the working array, the step list and the counters.

Quick sort's Lomuto recursion is also written as functions on values (module `Lomuto`). Both quick sort engines are proved to compute exactly those functions. The two engines differ only in which exchanges they count. That the reference recursion sorts and permutes its input is proved about the functions themselves (`RecordedQuick.QuickRunSorts`, `QuickRunSorted`).

Heap sort is likewise written as functions on values (module `HeapOrder`): one `heapify`, the heap construction, the extraction loop and the whole sort, each with its comparisons and sifting exchanges. Both heap sort engines are proved to compute exactly those functions, and the heap and sortedness properties are proved once, about the functions.

`Engines.Produced` and `MainPage.StreamedBy` state, per algorithm, the final tag and counters that the selected engine produces. `MainPage.EnginesAgree` compares the two families on the same input.

The Visualizer page is a class whose fields are the React state. Each event handler, and each firing of the playback timer, is one method. The plain page is also a class: its fields are the module state of `main.js` and the sort button's `disabled` flag.

Insertion and merge sort record snapshots that are not permutations of the input:
- insertion sort records the array between shifting `array[j]` up and placing the key, so a value appears twice;
- merge sort records the array while it copies runs back, so values can also appear twice.

The model proves, for every unsorted input, that some recorded snapshot of these two engines is not a permutation of the input (`RecordedInsertion.InsertionSort`, `RecordedMerge.MergeSort`). For the other four engines it proves that every snapshot is a permutation of the input.

## Model

| member | source | states |
|---|---|---|
| RecordedBubble.BubbleSort | src/utils/sortingAlgorithms.ts:16-44 | first snapshot is the input, last is it sorted, every snapshot is a permutation of it; final `sorted` tag is 0..n-1; comparisons = n(n-1)/2 = number of comparing steps; swaps = number of inversions of the input |
| RecordedBubble.Passes | src/utils/sortingAlgorithms.ts:25-38 | after the outer loop the array is sorted, every exchange so far removed one inversion, and n(n-1)/2 comparisons were made |
| RecordedBubble.Pass | src/utils/sortingAlgorithms.ts:26-37 | pass i leaves the largest i+1 elements sorted at the end, no smaller than anything before them, after n-i-1 comparisons |
| RecordedBubble.CompareAdjacent | src/utils/sortingAlgorithms.ts:27-34 | one recorded comparison; a[j], a[j+1] end in order, holding the same two values, the rest untouched |
| RecordedBubble.Ordered | src/utils/sortingAlgorithms.ts:30-31 | compare-and-exchange: the pair ends ordered with the same two values, same multiset, other cells unchanged |
| RecordedBubble.BubbleStep | src/utils/sortingAlgorithms.ts:26-35 | a compare-and-exchange at j carries the running maximum of the prefix to j+1 |
| Ordering.InversionsSwapped | src/utils/sortingAlgorithms.ts:30-32 | exchanging an adjacent out-of-order pair removes exactly one inversion |
| Ordering.PairsClosedForm | src/utils/sortingAlgorithms.ts:25-26 | the nested loops' comparison count satisfies 2·Pairs(n) = n(n-1) |
| RecordedSelection.SelectionSort | src/utils/sortingAlgorithms.ts:46-83 | first/last snapshot and permutation of every snapshot; final `sorted` tag 0..n-1, but [-1] for empty input; comparisons = n(n-1)/2; at most n-1 swaps, none on sorted input |
| RecordedSelection.Rounds | src/utils/sortingAlgorithms.ts:56-79 | the outer loop sorts the array with n(n-1)/2 comparisons, at most n-1 swaps, none when already sorted; `sorted` holds 0..n-2 |
| RecordedSelection.Round | src/utils/sortingAlgorithms.ts:57-75 | round i extends the sorted, partitioned prefix to i+1 with n-i-1 comparisons and at most one swap; leaves a sorted array untouched |
| RecordedSelection.Scan | src/utils/sortingAlgorithms.ts:57-66 | minIdx is the first position of the minimum of a[i..]; n-i-1 comparisons recorded |
| RecordedSelection.Place | src/utils/sortingAlgorithms.ts:68-72 | exchanges a[i] and a[minIdx], counting a swap only when they differ |
| RecordedSelection.SelectStep | src/utils/sortingAlgorithms.ts:68-75 | placing the first minimum at i keeps the prefix sorted and partitioned; on sorted input the minimum is already at i |
| RecordedInsertion.InsertionSort | src/utils/sortingAlgorithms.ts:85-119 | first snapshot is the input, last is it sorted; `sorted` tag 0..n-1 (just [0] for empty input); swaps = inversions of the input; comparing steps = swaps + n-1; counted comparisons = inversions + n-1 - drops exactly, a drop being a round whose key is below everything before it (its loop runs off the front and skips the final test); on unsorted input some snapshot is not a permutation |
| RecordedInsertion.Rounds | src/utils/sortingAlgorithms.ts:95-115 | after all rounds the whole array is sorted and logged, with comparisons + drops = swaps + n-1 and swaps ≤ comparisons ≤ swaps + n-1 |
| RecordedInsertion.Round | src/utils/sortingAlgorithms.ts:96-114 | round i inserts a[i] into the sorted prefix, leaves a[i+1..] alone, and keeps comparisons + drops = swaps + i, adding a drop exactly when a[i] is below everything before it |
| RecordedInsertion.Sink | src/utils/sortingAlgorithms.ts:101-109 | the shift loop stops at the first j with a[j] ≤ key, after i-1-j shifts, one comparison per shift |
| RecordedInsertion.Shift | src/utils/sortingAlgorithms.ts:102-108 | one shift: a[j+1] := a[j], with one comparison and one swap recorded |
| RecordedInsertion.Overwritten | src/utils/sortingAlgorithms.ts:105-107 | the snapshot recorded right after a shift is not a permutation of the array with the key in its gap |
| RecordedInsertion.Settled | src/utils/sortingAlgorithms.ts:112 | writing the key into the gap leaves a[0..i] sorted |
| RecordedInsertion.AllInserted | src/utils/sortingAlgorithms.ts:95-118 | after the last round the array is sorted and recorded, and swaps = inversions of the input |
| RecordedInsertion.DropDecided | src/utils/sortingAlgorithms.ts:101-112 | the shifting runs off the front (j = -1, no final comparison) exactly when the key is below everything before it; the cells after i are untouched |
| Ordering.SortedNoDrops | src/utils/sortingAlgorithms.ts:101-111 | sorted input has no drops, so every round makes its final comparison |
| Ordering.DescendingAllDrops | src/utils/sortingAlgorithms.ts:101-111 | in strictly descending input every round after the first is a drop |
| Ordering.BelowAllPermuted | src/utils/sortingAlgorithms.ts:96-114 | whether a round drops depends only on the multiset of the prefix before it, so it can be read off the input |
| RecordedMerge.MergeSort | src/utils/sortingAlgorithms.ts:121-186 | first/last snapshot; `sorted` tag 0..n-1; comparisons = comparing steps ≤ swaps = Writes(0, n-1); on unsorted input some snapshot is not a permutation |
| RecordedMerge.SortRange | src/utils/sortingAlgorithms.ts:172-179 | `mergeSortHelper(left, right)` sorts a[left..right], touches nothing else, writes exactly Writes(left, right) cells |
| RecordedMerge.Writes | src/utils/sortingAlgorithms.ts:172-179 | a range of two or more cells costs at least one write per cell |
| RecordedMerge.WritesAdded | src/utils/sortingAlgorithms.ts:173-177 | the write counts of the two halves plus one merge add up to the count of the range |
| RecordedMerge.MergeRuns | src/utils/sortingAlgorithms.ts:130-170 | `merge` writes the `<=`-merge of the two runs over a[left..right], one swap per cell, at most right-left comparisons, then tags the range sorted |
| RecordedMerge.Interleave | src/utils/sortingAlgorithms.ts:136-150 | the main loop takes i+j elements with one comparison and one write each, until one run is empty |
| RecordedMerge.Take | src/utils/sortingAlgorithms.ts:137-149 | one step takes from the left run exactly when its head is ≤ the right run's head |
| RecordedMerge.DrainLeft | src/utils/sortingAlgorithms.ts:152-158 | copies what is left of the left run, one write each |
| RecordedMerge.DrainRight | src/utils/sortingAlgorithms.ts:160-166 | copies what is left of the right run, one write each |
| RecordedMerge.Write | src/utils/sortingAlgorithms.ts:141-148 | one write a[k] := v recorded with a `swapping` tag |
| RecordedMerge.Combined | src/utils/sortingAlgorithms.ts:173-177 | two sorted halves merged give a sorted range with the same multiset, the outside unchanged |
| RecordedMerge.Finished | src/utils/sortingAlgorithms.ts:181-182 | a sorted final array completes the shared contract; an unsorted input left a non-permutation snapshot behind |
| Ordering.MergedMultiset | src/utils/sortingAlgorithms.ts:136-166 | the merge is a permutation of the two runs together |
| Ordering.MergedSorted | src/utils/sortingAlgorithms.ts:136-166 | merging two sorted runs gives a sorted run |
| Ordering.MergedInOrder | src/utils/sortingAlgorithms.ts:140-142 | when the left run precedes the right one, ties included, the merge is their concatenation (stability of `<=`) |
| RecordedQuick.QuickSort | src/utils/sortingAlgorithms.ts:188-235 | first/last snapshot, every snapshot a permutation; `sorted` tag 0..n-1; the final array, comparisons and swaps are those of the Lomuto reference recursion |
| RecordedQuick.SortRange | src/utils/sortingAlgorithms.ts:222-228 | `quickSortHelper(low, high)` sorts a[low..high], keeps the rest, and matches the reference recursion's array and counters |
| RecordedQuick.Sides | src/utils/sortingAlgorithms.ts:225-226 | the two recursive calls after a partition sort the range, keep the rest, and match the reference recursion's array and counters |
| RecordedQuick.RightSide | src/utils/sortingAlgorithms.ts:226 | the second recursive call, after a sorted left side, completes the range as the reference recursion does |
| RecordedQuick.Partition | src/utils/sortingAlgorithms.ts:197-220 | the pivot a[high] lands at p = low + #(smaller elements); smaller before, the rest after; array and exchange count equal the reference partition; high-low comparisons |
| RecordedQuick.Scan | src/utils/sortingAlgorithms.ts:200-214 | the `for j` loop ends in the state of the reference partition loop, with one comparison per j |
| RecordedQuick.Iterate | src/utils/sortingAlgorithms.ts:202-213 | one loop iteration keeps the scanning invariant and adds one comparison |
| RecordedQuick.Visit | src/utils/sortingAlgorithms.ts:203-213 | one iteration performs exactly the reference step, exchanging only when i ≠ j |
| RecordedQuick.PlacePivot | src/utils/sortingAlgorithms.ts:216-218 | exchanges a[i+1] and a[high] and counts one swap |
| RecordedQuick.LomutoStep | src/utils/sortingAlgorithms.ts:202-213 | the reference step keeps the block invariant: smaller elements before `end`, the rest in [end, j) |
| RecordedQuick.PivotPlaced | src/utils/sortingAlgorithms.ts:216-219 | placing the pivot yields the split and equals the reference partition |
| RecordedQuick.Conquered | src/utils/sortingAlgorithms.ts:222-228 | sorted sides around a placed pivot make a sorted range, and the counters add up as in the reference recursion |
| RecordedQuick.AdvancedPermutes | src/utils/sortingAlgorithms.ts:206-212 | one step of the reference partition loop exchanges two cells or none, so it permutes the array |
| RecordedQuick.LoopScans | src/utils/sortingAlgorithms.ts:202-214 | the reference partition loop ends with the elements below the pivot in [low, end) and the rest in [end, high), as a permutation of its input |
| RecordedQuick.PartitionedSplits | src/utils/sortingAlgorithms.ts:197-220 | the reference `partition` puts the pivot at low + #(smaller elements), smaller ones before it and the rest after, permutes the array and keeps everything outside [low, high] |
| RecordedQuick.QuickRunSorts | src/utils/sortingAlgorithms.ts:222-228 | the reference `quickSortHelper(low, high)` sorts [low, high], permutes the array and keeps everything outside the range |
| RecordedQuick.SidesSorted | src/utils/sortingAlgorithms.ts:223-227 | one level of the reference recursion: a partition followed by two sorted sides sorts the whole range |
| RecordedQuick.Conquers | src/utils/sortingAlgorithms.ts:224-226 | a partitioned range whose lower side and then upper side are sorted in place is sorted, and the whole is a permutation of the original |
| RecordedQuick.QuickRunSorted | src/utils/sortingAlgorithms.ts:230 | the reference quick sort of the whole array returns it sorted and permuted |
| Lomuto.PartitionMoves | src/utils/sortingAlgorithms.ts:206-212 | the recorded partition exchanges at most p-low times, and fewer when the range's first element is already below the pivot |
| Lomuto.SwapsCompared | algorithms/sorting.js:163-166 | on the same input the streaming quick sort counts at least as many swaps as the recorded one, strictly more when a[low] < a[high] |
| Lomuto.Partitioned | src/utils/sortingAlgorithms.ts:197-220 | the reference `partition` on values: same length, the pivot's place lies in [low, high]; what it places where is `RecordedQuick.PartitionedSplits` |
| Lomuto.QuickRun | src/utils/sortingAlgorithms.ts:222-228 | the reference `quickSortHelper` on values, with its comparisons and both swap counts: same length; that it sorts is `RecordedQuick.QuickRunSorts` |
| RecordedHeap.HeapSort | src/utils/sortingAlgorithms.ts:237-296 | first/last snapshot, every snapshot a permutation; `sorted` tag 0..n-1; the last array and the comparisons are those of the heap sort reference run `HeapRun`, and swaps = (n-1 root exchanges) + its sifting exchanges; n-1 ≤ swaps ≤ n-1 + comparisons; inputs of size ≤ 1: no comparisons, no swaps, two steps |
| RecordedHeap.BuildHeap | src/utils/sortingAlgorithms.ts:277-279 | the heapify pass from n/2-1 down to 0 leaves exactly the array and counters of the reference construction `BuildTo`, a max-heap with swaps ≤ comparisons; nothing is recorded for n ≤ 1 |
| RecordedHeap.Extract | src/utils/sortingAlgorithms.ts:281-290 | the extraction loop sorts the heap and ends with the array and counters of the reference `ExtractTo`, plus one root exchange per position |
| RecordedHeap.ExtractOne | src/utils/sortingAlgorithms.ts:282-289 | moving the root to i and re-heapifying [0, i) is exactly the reference extraction step: the loop state for i becomes the state for i-1 |
| RecordedHeap.Heapify | src/utils/sortingAlgorithms.ts:246-273 | `heapify(n, i)` leaves exactly the array and counters of the reference `SiftDown`, touching only [i, n); a leaf records nothing |
| RecordedHeap.BuildOne | src/utils/sortingAlgorithms.ts:277-279 | one `heapify(n, k-1)` of the first loop is exactly the reference construction step from k to k-1 |
| HeapOrder.LargestOf | src/utils/sortingAlgorithms.ts:247-265 | the chosen node is i or a child below n that beats a[i], and no child below n exceeds it |
| HeapOrder.SiftDown | src/utils/sortingAlgorithms.ts:246-273 | the reference `heapify`: same length; a leaf is left as it is with no comparison |
| HeapOrder.SiftDownPermutes | src/utils/sortingAlgorithms.ts:246-273 | sifting permutes the array, changes only cells in [i, n), and makes no more exchanges than comparisons |
| HeapOrder.SiftDownHeap | src/utils/sortingAlgorithms.ts:246-273 | sifting down the one violation at i leaves [lo, n) a max-heap |
| HeapOrder.BuildTo | src/utils/sortingAlgorithms.ts:277-279 | the reference heap construction from node k down: same length; `BuildToPermutes` and `BuildToHeap` state what it does |
| HeapOrder.ExtractTo | src/utils/sortingAlgorithms.ts:281-290 | the reference extraction loop down to position i + 1: same length; `ExtractToPermutes` and `ExtractToSorted` state what it does |
| HeapOrder.HeapRun | src/utils/sortingAlgorithms.ts:275-290 | the whole reference heap sort: same length, and an array of at most one element is returned as it is with no comparison or exchange |
| HeapOrder.BuildToPermutes | src/utils/sortingAlgorithms.ts:277-279 | the reference construction permutes the array with no more exchanges than comparisons |
| HeapOrder.BuildToHeap | src/utils/sortingAlgorithms.ts:277-279 | after heapifying nodes down to k, every node from k on is a max-heap node |
| HeapOrder.ExtractToPermutes | src/utils/sortingAlgorithms.ts:281-290 | the reference extraction permutes the array with no more exchanges than comparisons |
| HeapOrder.ExtractToSorted | src/utils/sortingAlgorithms.ts:281-290 | after extracting positions down to i + 1 the prefix [0, i] is a heap and the suffix is sorted, each element no smaller than the prefix |
| HeapOrder.ExtractToSortsHeap | src/utils/sortingAlgorithms.ts:281-290 | extracting every position of a max-heap sorts it |
| HeapOrder.HeapRunPermutes | src/utils/sortingAlgorithms.ts:237-296 | the whole reference heap sort permutes its input with no more exchanges than comparisons |
| HeapOrder.HeapRunSorted | src/utils/sortingAlgorithms.ts:237-296 | the whole reference heap sort returns its input sorted |
| HeapOrder.SiftStep | src/utils/sortingAlgorithms.ts:267-271 | exchanging a node with its larger child moves the one violation down to the child |
| HeapOrder.RootExtracted | src/utils/sortingAlgorithms.ts:282-284 | exchanging the root with the last heap cell keeps the sorted suffix and leaves one violation at the root |
| HeapOrder.PartedKept | src/utils/sortingAlgorithms.ts:282-289 | sifting inside the heap keeps the suffix sorted and no smaller than the heap |
| Ordering.HeapRootMax | src/utils/sortingAlgorithms.ts:282 | the root of a max-heap is its largest element |
| Engines.Name | src/utils/sortingAlgorithms.ts:298-305 | every display name ends in " Sort" |
| Engines.Lookup | src/utils/sortingAlgorithms.ts:298-305 | a found entry has the looked-up key; a missing key belongs to no entry |
| Engines.LookupKey | src/utils/sortingAlgorithms.ts:298-305 | every entry is found under its own key |
| Engines.Run | src/utils/sortingAlgorithms.ts:298-305 | whichever engine runs, the result meets the shared contract, and it carries the selected engine's own final tag and counters (`Produced`) |
| Engines.Key | src/utils/sortingAlgorithms.ts:298-305 | every entry has a non-empty key |
| Engines.BubbleOnFiveThreeOne | src/utils/sortingAlgorithms.ts:16-44 | bubble sort on [5, 3, 1] ends with [1, 3, 5] after 3 comparisons and 3 swaps |
| StreamingBubble.BubbleSort | algorithms/sorting.js:3-24 | sorts the caller's array in place (a permutation); the reported counters step by one; comparisons = n(n-1)/2, swaps = inversions; no callback for n ≤ 1 |
| StreamingBubble.Pass | algorithms/sorting.js:9-22 | one pass moves the prefix maximum to n-i-1 with n-i-1 comparisons |
| StreamingBubble.CompareAdjacent | algorithms/sorting.js:10-21 | one comparison, and an exchange exactly when a[j] > a[j+1] |
| StreamingSelection.SelectionSort | algorithms/sorting.js:26-53 | sorts in place; comparisons = n(n-1)/2; at most n-1 swaps; a sorted array is left untouched with no swaps |
| StreamingSelection.Round | algorithms/sorting.js:31-52 | round i extends the sorted, partitioned prefix with n-i-1 comparisons |
| StreamingSelection.Scan | algorithms/sorting.js:32-43 | finds the first minimum of a[i..] with n-i-1 comparisons |
| StreamingSelection.Place | algorithms/sorting.js:45-51 | exchanges only when minIdx ≠ i, reporting exactly then |
| StreamingInsertion.InsertionSort | algorithms/sorting.js:55-83 | sorts in place; swaps = inversions; comparisons = inversions + n-1 - drops exactly; swaps ≤ comparisons ≤ swaps + n-1; sorted input: no swaps and n-1 comparisons |
| StreamingInsertion.Round | algorithms/sorting.js:60-82 | round i leaves a[0..i] sorted and a[i+1..] alone, and keeps comparisons + drops = swaps + i, adding a drop exactly when a[i] is below everything before it |
| StreamingInsertion.Sink | algorithms/sorting.js:64-78 | the `while (j >= 0)` loop stops at the first a[j] ≤ key; a comparison per shift plus one for the stop |
| StreamingInsertion.Shift | algorithms/sorting.js:70-74 | one shift a[j+1] := a[j] with one swap |
| StreamingMerge.MergeSort | algorithms/sorting.js:85-147 | sorts in place; swaps = Writes(0, n-1) ≥ comparisons; no callback for n ≤ 1 |
| StreamingMerge.SortRange | algorithms/sorting.js:137-144 | sorts a[left..right] in place, touches nothing else, writes Writes(left, right) cells |
| StreamingMerge.MergeRuns | algorithms/sorting.js:89-135 | writes the `<=`-merge of the two runs over the range, one swap per cell, at most right-left comparisons |
| StreamingMerge.Interleave | algorithms/sorting.js:98-114 | the main loop until one run is empty, one comparison and one write per element |
| StreamingMerge.DrainLeft | algorithms/sorting.js:116-124 | copies the rest of the left run |
| StreamingMerge.DrainRight | algorithms/sorting.js:126-134 | copies the rest of the right run |
| StreamingQuick.QuickSort | algorithms/sorting.js:149-191 | sorts in place; the final array, comparisons and swaps are those of the Lomuto reference recursion (streaming count) |
| StreamingQuick.SortRange | algorithms/sorting.js:182-188 | `quickSortHelper` sorts the range like the reference recursion; an empty range reports nothing |
| StreamingQuick.Sides | algorithms/sorting.js:185-186 | the two recursive calls finish the range as the reference recursion does |
| StreamingQuick.Partition | algorithms/sorting.js:153-180 | the pivot lands at p = low + #(smaller); array equals the reference partition; high-low comparisons and p-low+1 swaps |
| StreamingQuick.Scan | algorithms/sorting.js:157-171 | the loop ends in the reference loop's state with one swap per smaller element |
| StreamingQuick.Visit | algorithms/sorting.js:158-170 | one iteration is the reference step; a smaller element is always exchanged and counted, even with itself |
| StreamingQuick.PlacePivot | algorithms/sorting.js:173-177 | exchanges a[i+1] and a[high], one swap |
| StreamingHeap.HeapSort | algorithms/sorting.js:193-249 | sorts in place; the final array and the comparisons are those of the reference `HeapRun`, and swaps = n-1 + its sifting exchanges; n-1 ≤ swaps ≤ n-1 + comparisons; no callback, no counts for n ≤ 1 |
| StreamingHeap.BuildHeap | algorithms/sorting.js:236-238 | ends with exactly the array and counters of the reference construction `BuildTo`: a max-heap with swaps ≤ comparisons |
| StreamingHeap.Extract | algorithms/sorting.js:240-248 | sorts the heap, ending with the array and counters of the reference `ExtractTo` plus one root exchange per position |
| StreamingHeap.ExtractOne | algorithms/sorting.js:241-247 | root to i, re-heapify [0, i): exactly the reference extraction step, the loop state for i becomes the state for i-1 |
| StreamingHeap.Heapify | algorithms/sorting.js:198-234 | leaves exactly the array and counters of the reference `SiftDown`, touching only [i, n); a leaf reports nothing |
| StreamingHeap.BuildOne | algorithms/sorting.js:236-238 | one `heapify(n, k-1)` of the first loop is exactly the reference construction step from k to k-1 |
| StreamingHeap.Largest | algorithms/sorting.js:199-223 | picks the reference `LargestOf`: i or a larger child below n, no child exceeding it; one comparison per child present |
| StreamTrace.CountedReports | algorithms/sorting.js:10-18 | the reported counters never decrease, never exceed the final ones, one report per increment, and the last report is the final pair |
| Playback.Visualizer.constructor | src/pages/Visualizer.tsx:11-18 | the initial state: bubble selected, sample input, no result, cursor 0, paused, speed 500 |
| Playback.Visualizer.Tick | src/pages/Visualizer.tsx:20-33 | paused or without a result nothing changes; before the last step the cursor advances by exactly one; at the last step playing stops; the cursor stays in [0, steps-1] |
| Playback.Visualizer.RunToRest | src/pages/Visualizer.tsx:20-33 | the effect re-running while playing always terminates, and a playing run stops exactly at the last step |
| Playback.Visualizer.PlayPause | src/pages/Visualizer.tsx:70-77 | nothing without a result; at the last step the cursor returns to 0; playing is toggled |
| Playback.Visualizer.Reset | src/pages/Visualizer.tsx:79-82 | cursor 0, paused, result kept |
| Playback.Visualizer.SetSpeed | src/pages/Visualizer.tsx:175 | only the speed changes, never the cursor or playing |
| Playback.Visualizer.Select | src/pages/Visualizer.tsx:119-122 | the algorithm changes unless playing (the control is disabled) |
| Playback.Visualizer.Type | src/pages/Visualizer.tsx:137-142 | the input changes unless playing |
| Playback.Visualizer.HandleSort | src/pages/Visualizer.tsx:42-68 | while playing nothing happens; an empty parse or more than 50 numbers changes no state; otherwise the input is stored, cursor 0, paused, and the shown result starts from the input and is the one the selected engine produces on it |
| Playback.Visualizer.Load | src/pages/Visualizer.tsx:55-63 | the accepted branch: stored input, cursor 0, paused, and the result the selected engine produces on the input |
| Playback.Visualizer.Export | src/pages/Visualizer.tsx:84-99 | no record without a result; otherwise arraySize = input length, sortedArray = last step's array, the counters and the selected algorithm's name |
| Playback.Visualizer.ExportSorted | src/pages/Visualizer.tsx:91-97 | the exported sortedArray is always the exported input sorted, of length arraySize |
| TextInput.ParseInput | src/pages/Visualizer.tsx:35-40 | at most one number per comma-separated token, each the parse of some trimmed token |
| TextInput.Parsed | src/pages/Visualizer.tsx:38-39 | at most one number per token, each the parse of one of the tokens |
| TextInput.Contribution | src/pages/Visualizer.tsx:38-39 | a token contributes its number exactly when `parseInt` of it trimmed is not NaN |
| TextInput.ParsedConcat | src/pages/Visualizer.tsx:36-39 | token order is kept: parsing a + b gives a's numbers then b's |
| TextInput.ParsedEach | src/pages/Visualizer.tsx:38-39 | when every token parses, the k-th number is the k-th token's |
| TextInput.ParsedNone | src/pages/Visualizer.tsx:38-39 | when no token parses the result is empty |
| TextInput.ParseInputJoined | src/pages/Visualizer.tsx:36-39 | parsing comma-free chunks joined by commas reads them chunk by chunk |
| TextInput.Split | src/pages/Visualizer.tsx:37 | `split(',')` yields at least one token and no token holds the separator |
| TextInput.SplitJoin | src/pages/Visualizer.tsx:37 | joining the tokens with the separator gives the input back |
| TextInput.JoinSplit | src/pages/Visualizer.tsx:37 | separator-free tokens are recovered exactly from their join |
| TextInput.Trim | src/pages/Visualizer.tsx:38 | `trim` returns the slice left after dropping white space at both ends: the dropped parts are all white space, the ends of the slice are not |
| TextInput.TrimBlank | main.js:121 | the trimmed string is empty exactly when the input is all white space; a string without white space at its ends is its own trim |
| TextInput.TrimIdempotent | main.js:146 | trimming twice is trimming once |
| MainPage.Entity | main.js:274-280 | the five special characters map to their entities, every other character to itself; no entity holds < > " ' |
| MainPage.EscapeHtml | main.js:273-282 | the output holds no < > " '; text without any of the five special characters is returned unchanged |
| MainPage.EntityLength | main.js:274-280 | each entity is 4 (&), 3 (<, >) or 5 (", ') characters longer than the character it replaces |
| MainPage.EscapedLength | main.js:273-282 | output length = input length + 4·#& + 3·#< + 3·#> + 5·#" + 5·#' |
| MainPage.EscapeConcat | main.js:281 | escaping distributes over concatenation: characters are handled in order, each on its own |
| MainPage.UnescapeEntity | main.js:274-280 | decoding an escaped character gives the character back |
| MainPage.UnescapeEscape | main.js:273-282 | decoding the five entities in the output gives the original text back |
| MainPage.EscapeInjective | main.js:273-282 | two different texts never escape to the same output |
| MainPage.SortEnabledIff | main.js:121-124 | the button is enabled iff some input character is not white space, an algorithm is selected and no sort is running |
| MainPage.NonBlank | main.js:148 | the kept tokens are non-empty and trimmed, no more of them than tokens, and every kept character comes from some token |
| MainPage.NonBlankConcat | main.js:148 | filtering a concatenation filters each part and concatenates the results, so a blank token never disturbs the tokens around it |
| MainPage.NonBlankOne | main.js:148 | a single token is kept, trimmed, exactly when its trim is non-empty; with `NonBlankConcat` this fixes `NonBlank` on every list |
| MainPage.NonBlankTrimmed | main.js:148 | tokens that are already trimmed and non-blank pass unchanged |
| MainPage.NonBlankDropsLast | main.js:148 | a blank token after trimmed ones is dropped and they are kept |
| MainPage.NonBlankSkips | main.js:148 | a blank token between two runs of trimmed tokens is dropped and every token around it kept, in order |
| MainPage.NonBlankKeeps | main.js:148 | without blank tokens every token is kept, trimmed, in order |
| MainPage.Tokens | main.js:146-148 | the kept tokens are trimmed, non-empty and comma-free, no more of them than comma-separated pieces; blank input gives none |
| MainPage.TokensPieces | main.js:146-148 | typing comma-free pieces separated by commas, the outer two trimmed and non-blank, yields exactly `NonBlank` of the pieces, blank pieces included |
| MainPage.TokensSkipBlank | main.js:146-148 | a blank entry between numbers (`1, ,2`) is skipped and every token around it kept, in order |
| MainPage.TokensJoin | main.js:146-148 | typing trimmed, non-blank, comma-free tokens separated by commas gives back exactly those tokens |
| MainPage.Validate | main.js:144-158 | rejected as NaN iff some kept token does not convert; too few iff all convert but fewer than 2; otherwise the converted tokens in order |
| MainPage.Stream | algorithms/sorting.js:251-258 | whichever streaming engine the key selects sorts the array in place and reports that engine's own counters (`StreamedBy`) |
| MainPage.EnginesAgree | algorithms/sorting.js:251-258 | on the same input the streaming and recorded engines of an algorithm agree on comparisons (merge excepted) and on swaps for bubble, insertion, merge and heap; heap and quick sort end on the same array; streaming quick sort counts at least as many swaps |
| MainPage.Page.constructor | main.js:7-9 | nothing selected, no data, not sorting, the button disabled |
| MainPage.Page.UpdateUI | main.js:116-124 | the button's disabled flag becomes the negation of the enable rule; nothing else changes |
| MainPage.Page.SelectAlgorithm | main.js:88-91 | the algorithm changes and the button follows the rule |
| MainPage.Page.Type | main.js:93-95 | the input changes and the button follows the rule |
| MainPage.Page.StartSort | main.js:144-197 | runs only while the sort button is enabled, as its click is its only trigger; rejected input changes nothing; accepted numbers become the data, the run starts with the button disabled, and an unknown key ends it at once |
| MainPage.Page.FinishSort | main.js:196-209 | the data ends sorted, a permutation of what it was, and the returned counters are the selected engine's; sorting ends and the button is recomputed |

## Left out

- Timing is not modelled: `performance.now()`, `executionTime`, `delay` and the playback `setTimeout`. Each firing of the playback timer is one call of `Tick`, and `speed` is only stored.
- The page's own `isSorting` state is not modelled. The recorded engines return without waiting on anything, so `handleSort` in src/pages/Visualizer.tsx runs as one step and `isSorting` is false between events. Its `catch` branch is unreachable here because the engines never throw.
- Rendering is not modelled:
  - the DOM, React components, the canvas, the flowchart and complexity tables;
  - `renderVisualization`'s final call and the third argument of `visualize`, which is always `false`;
  - `alert` and `console.error` texts. Only which rejection happened is modelled.
- JavaScript numbers are modelled as integers. `parseInt` and `Number` are parameters (`parse`, `toNumber`) returning `None` for NaN. Their exact grammar is not modelled: hex prefixes, decimals, exponents, Infinity and -0.
- CSV serialisation is not modelled: Papa, Blob, the download, the `join(', ')` formatting and the floating-point memory estimate. `Export` keeps the arrays themselves.
- `generateRandomData` is random and is not modelled. Nor are code display, code tabs and the comparison section.
- Between `StartSort` and `FinishSort` the streaming engine runs as one step. Its intermediate callbacks appear only in the returned trace, and the page state is not updated while it runs.
- StreamingBubble.BubbleSort: the contract constrains the `Stats` events of the trace, not the snapshots and highlights of its `Show` events.
- StreamingSelection.SelectionSort: the contract constrains the `Stats` events of the trace, not the snapshots and highlights of its `Show` events.
- StreamingInsertion.InsertionSort: the contract constrains the `Stats` events of the trace, not the snapshots and highlights of its `Show` events.
- StreamingMerge.MergeSort: the contract constrains the `Stats` events of the trace, not the snapshots and highlights of its `Show` events.
- StreamingQuick.QuickSort: the contract constrains the `Stats` events of the trace, not the snapshots and highlights of its `Show` events.
- StreamingHeap.HeapSort: the contract constrains the `Stats` events of the trace, not the snapshots and highlights of its `Show` events.
- RecordedBubble.BubbleSort: the contract states the `comparing`, `swapping` and final `sorted` tags through the counters and the last step. It does not describe the highlight lists of each intermediate step. The same holds for the other recorded engines.
- The exported record's algorithm name is `Engines.Name(selected)`, the algorithm selected at export time. The select is enabled again once playback pauses, so this can name a different algorithm from the one that produced the result, as it does in the source.
