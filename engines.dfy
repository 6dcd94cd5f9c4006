/** The `algorithms` table of src/utils/sortingAlgorithms.ts: the six recorded
    engines under their keys and display names. */
module Engines {
  import opened Ordering
  import opened SortSteps
  import RecordedBubble
  import RecordedSelection
  import RecordedInsertion
  import RecordedMerge
  import RecordedQuick
  import RecordedHeap
  import Lomuto
  import HeapOrder

  datatype Algorithm = Bubble | Selection | Insertion | Merge | Quick | Heap

  /** The table's key for each entry. */
  function Key(alg: Algorithm): (k: string)
    ensures k != []
  {
    match alg
    case Bubble => "bubble"
    case Selection => "selection"
    case Insertion => "insertion"
    case Merge => "merge"
    case Quick => "quick"
    case Heap => "heap"
  }

  /** The display name: the key capitalised, followed by " Sort". */
  function Name(alg: Algorithm): (name: string)
    ensures |name| > 5 && name[|name| - 5..] == " Sort"
  {
    match alg
    case Bubble => "Bubble Sort"
    case Selection => "Selection Sort"
    case Insertion => "Insertion Sort"
    case Merge => "Merge Sort"
    case Quick => "Quick Sort"
    case Heap => "Heap Sort"
  }

  /** Looking an entry up by key, as `algorithms[key]` does; an unknown key
      has no entry. */
  function Lookup(key: string): (r: Option<Algorithm>)
    ensures r.Some? ==> Key(r.value) == key
    ensures r.None? ==> forall alg: Algorithm :: Key(alg) != key
  {
    if key == "bubble" then Some(Bubble)
    else if key == "selection" then Some(Selection)
    else if key == "insertion" then Some(Insertion)
    else if key == "merge" then Some(Merge)
    else if key == "quick" then Some(Quick)
    else if key == "heap" then Some(Heap)
    else None
  }

  /** Each entry is found under its own key, so no two entries share a key. */
  lemma LookupKey(alg: Algorithm)
    ensures Lookup(Key(alg)) == Some(alg)
  {
    match alg
    case Bubble =>
    case Selection => assert Key(alg)[0] != "bubble"[0];
    case Insertion => assert Key(alg)[0] != "bubble"[0] && Key(alg)[0] != "selection"[0];
    case Merge =>
    case Quick =>
    case Heap =>
  }

  /** What the record of `alg` on `arr` says about the engine that made it:
      the final step's `sorted` tag and the counters each engine produces
      (bubble and selection compare every pair, bubble and insertion swap
      once per inversion, merge writes every merged range, quick sort and
      heap sort follow their reference runs). */
  predicate Produced(alg: Algorithm, arr: seq<int>, r: SortResult)
  {
    && r.steps != []
    && match alg
       case Bubble =>
         && Last(r.steps).sorted == Range(0, |arr|)
         && r.comparisons == Pairs(|arr|) && r.swaps == Inversions(arr)
       case Selection =>
         && Last(r.steps).sorted == (if |arr| == 0 then [-1] else Range(0, |arr|))
         && r.comparisons == Pairs(|arr|)
         && (|arr| >= 1 ==> r.swaps <= |arr| - 1)
         && (Sorted(arr) ==> r.swaps == 0)
       case Insertion =>
         && Last(r.steps).sorted == Range(0, if |arr| == 0 then 1 else |arr|)
         && r.swaps == Inversions(arr)
         && r.comparisons + Drops(arr) == r.swaps + (if |arr| == 0 then 0 else |arr| - 1)
       case Merge =>
         && Last(r.steps).sorted == Range(0, |arr|)
         && r.swaps == RecordedMerge.Writes(0, |arr| - 1) && r.comparisons <= r.swaps
       case Quick =>
         && Last(r.steps).sorted == Range(0, |arr|)
         && Last(r.steps).snapshot == Lomuto.QuickRun(arr, 0, |arr| - 1).arr
         && r.comparisons == Lomuto.QuickRun(arr, 0, |arr| - 1).comparisons
         && r.swaps == Lomuto.QuickRun(arr, 0, |arr| - 1).recordedSwaps
       case Heap =>
         && Last(r.steps).sorted == Range(0, |arr|)
         && Last(r.steps).snapshot == HeapOrder.HeapRun(arr).arr
         && r.comparisons == HeapOrder.HeapRun(arr).comparisons
         && r.swaps == (if |arr| == 0 then 0 else |arr| - 1) + HeapOrder.HeapRun(arr).sifts
  }

  /** `algorithms[key].fn(arr)`: whichever engine runs, the first step holds
      the input, the last one holds it sorted, every snapshot has the input's
      length and the swap counter equals the number of `swapping` steps; the
      record carries the selected engine's own tag and counters. */
  method Run(alg: Algorithm, arr: seq<int>) returns (r: SortResult)
    ensures Recorded(arr, r)
    ensures Produced(alg, arr, r)
    ensures alg != Insertion ==> r.comparisons == CountComparing(r.steps)
    ensures alg !in {Insertion, Merge} ==> SnapshotsPermute(r.steps, multiset(arr))
  {
    match alg
    case Bubble => r := RecordedBubble.BubbleSort(arr);
    case Selection => r := RecordedSelection.SelectionSort(arr);
    case Insertion => r := RecordedInsertion.InsertionSort(arr);
    case Merge => r := RecordedMerge.MergeSort(arr);
    case Quick => r := RecordedQuick.QuickSort(arr);
    case Heap => r := RecordedHeap.HeapSort(arr);
  }

  /** Bubble sort on [5, 3, 1]: three comparisons and three swaps. */
  method BubbleOnFiveThreeOne() returns (r: SortResult)
    ensures r.comparisons == 3 && r.swaps == 3
    ensures r.steps != [] && Last(r.steps).snapshot == [1, 3, 5]
  {
    r := RecordedBubble.BubbleSort([5, 3, 1]);
    assert Pairs(3) == 3;
    FiveThreeOneInversions();
    SortedUnique(Last(r.steps).snapshot, [5, 3, 1]);
  }

  lemma FiveThreeOneInversions()
    ensures Inversions([5, 3, 1]) == 3
  {
    assert [5, 3, 1][1..] == [3, 1] && [3, 1][1..] == [1];
    assert Smaller(5, [3, 1]) == 2;
  }

  /** The only sorted permutation of [5, 3, 1] is [1, 3, 5]. */
  lemma SortedUnique(s: seq<int>, input: seq<int>)
    requires input == [5, 3, 1] && Sorted(s) && multiset(s) == multiset(input)
    ensures s == [1, 3, 5]
  {
    assert |s| == 3 by {
      assert |multiset(s)| == |s|;
    }
    assert s[0] in multiset(input) && s[1] in multiset(input) && s[2] in multiset(input);
    assert multiset(s)[1] == 1 && multiset(s)[3] == 1 && multiset(s)[5] == 1;
    assert s == [s[0], s[1], s[2]];
  }
}
