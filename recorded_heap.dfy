/** `heapSort` of src/utils/sortingAlgorithms.ts: builds a max-heap by sifting
    down every inner node from the last one to the root, then repeatedly
    exchanges the root with the last heap cell, records the grown sorted
    suffix and sifts the new root down in the shrunken heap. */
module RecordedHeap {
  import opened Ordering
  import opened SortSteps
  import opened HeapOrder

  method HeapSort(arr: seq<int>) returns (r: SortResult)
    ensures Recorded(arr, r)
    ensures SnapshotsPermute(r.steps, multiset(arr))
    ensures Last(r.steps).sorted == Range(0, |arr|)
    ensures r.comparisons == CountComparing(r.steps)
    ensures |arr| >= 1 ==> |arr| - 1 <= r.swaps <= |arr| - 1 + r.comparisons
    ensures |arr| <= 1 ==> r.comparisons == 0 && r.swaps == 0 && |r.steps| == 2
    ensures Last(r.steps).snapshot == HeapRun(arr).arr
    ensures r.comparisons == HeapRun(arr).comparisons
    ensures r.swaps == (if |arr| == 0 then 0 else |arr| - 1) + HeapRun(arr).sifts
  {
    var a := new int[|arr|](k requires 0 <= k < |arr| => arr[k]);
    assert a[..] == arr;
    var steps := [Step(a[..])];
    Started(arr, Step(a[..]));
    var comparisons, swaps;
    steps, comparisons, swaps := BuildHeap(a, arr, steps);
    steps, comparisons, swaps := Extract(a, arr, steps, comparisons, swaps);
    HeapRunPermutes(arr);
    var last := Step(a[..], sorted := Range(0, a.Length));
    Noted(a[..], arr, steps, comparisons, swaps, last);
    steps := Push(steps, last);
    Concluded(a[..], arr, steps, comparisons, swaps);
    r := SortResult(steps, comparisons, swaps);
  }

  /** The first `for` loop: `heapify(n, i)` for i from n/2 - 1 down to 0
      (k stands for i + 1); afterwards the whole array is a max-heap. */
  method BuildHeap(a: array<int>, ghost arr: seq<int>, steps0: seq<Step>)
    returns (steps: seq<Step>, comparisons: nat, swaps: nat)
    requires Tracked(a[..], arr, steps0, 0, 0)
    modifies a
    ensures Tracked(a[..], arr, steps, comparisons, swaps)
    ensures Heap(a[..], 0, a.Length)
    ensures swaps <= comparisons
    ensures a.Length <= 1 ==> comparisons == 0 && steps == steps0
    ensures a[..] == BuildTo(old(a[..]), 0).arr
    ensures comparisons == BuildTo(old(a[..]), 0).comparisons
    ensures swaps == BuildTo(old(a[..]), 0).sifts
  {
    var n := a.Length;
    steps, comparisons, swaps := steps0, 0, 0;
    var k := n / 2;
    while k > 0
      invariant 0 <= k && 2 * k <= n
      invariant 2 * k + 1 >= n ==> steps == steps0
      invariant Building(a[..], arr, steps, comparisons, swaps, old(a[..]), k)
    {
      steps, comparisons, swaps := BuildOne(a, k, arr, steps, comparisons, swaps, old(a[..]));
      k := k - 1;
    }
    BuildToHeap(old(a[..]), 0);
    BuildToPermutes(old(a[..]), 0);
  }

  /** The state of the first loop once it has sifted nodes down to k: the
      bookkeeping of the recorded steps, and the array and counts that
      `BuildTo` gives for the loop's starting array. */
  ghost predicate Building(a: seq<int>, arr: seq<int>, steps: seq<Step>, comparisons: nat, swaps: nat, start: seq<int>, k: nat)
  {
    && Tracked(a, arr, steps, comparisons, swaps)
    && 2 * k <= |start| == |a|
    && a == BuildTo(start, k).arr
    && comparisons == BuildTo(start, k).comparisons
    && swaps == BuildTo(start, k).sifts
  }

  /** One iteration of the first loop: `heapify(n, k - 1)`. */
  method BuildOne(a: array<int>, k: int, ghost arr: seq<int>, steps0: seq<Step>, comparisons0: nat, swaps0: nat,
                  ghost start: seq<int>)
    returns (steps: seq<Step>, comparisons: nat, swaps: nat)
    requires 0 < k
    requires Building(a[..], arr, steps0, comparisons0, swaps0, start, k)
    modifies a
    ensures Building(a[..], arr, steps, comparisons, swaps, start, k - 1)
  {
    BuildStep(start, k, SiftDown(a[..], a.Length, k - 1));
    steps, comparisons, swaps := Heapify(a, a.Length, k - 1, arr, steps0, comparisons0, swaps0);
  }

  /** The second `for` loop: for i from n - 1 down to 1, move the root to
      position i, record the sorted suffix n-1, ..., i, and restore the heap
      on [0, i). */
  method Extract(a: array<int>, ghost arr: seq<int>, steps0: seq<Step>, comparisons0: nat, swaps0: nat)
    returns (steps: seq<Step>, comparisons: nat, swaps: nat)
    requires Tracked(a[..], arr, steps0, comparisons0, swaps0)
    requires Heap(a[..], 0, a.Length) && swaps0 <= comparisons0
    modifies a
    ensures Tracked(a[..], arr, steps, comparisons, swaps) && Sorted(a[..])
    ensures a.Length >= 1 ==> a.Length - 1 <= swaps <= a.Length - 1 + comparisons
    ensures a.Length <= 1 ==> steps == steps0 && comparisons == comparisons0 && swaps == swaps0
    ensures a.Length >= 1 ==> a[..] == ExtractTo(old(a[..]), 0).arr
    ensures a.Length >= 1 ==> comparisons == comparisons0 + ExtractTo(old(a[..]), 0).comparisons
    ensures a.Length >= 1 ==> swaps == swaps0 + (a.Length - 1) + ExtractTo(old(a[..]), 0).sifts
  {
    var n := a.Length;
    steps, comparisons, swaps := steps0, comparisons0, swaps0;
    if n == 0 {
      return;
    }
    var i := n - 1;
    while i > 0
      invariant 0 <= i < n
      invariant i == n - 1 ==> steps == steps0
      invariant Extracting(a[..], arr, steps, comparisons, swaps, old(a[..]), comparisons0, swaps0, i)
    {
      steps, comparisons, swaps := ExtractOne(a, i, arr, steps, comparisons, swaps, old(a[..]), comparisons0, swaps0);
      i := i - 1;
    }
    ExtractToSortsHeap(old(a[..]));
    ExtractToPermutes(old(a[..]), 0);
  }

  /** The state of the second loop once it has handled positions down to i + 1:
      the bookkeeping of the recorded steps, and the array and counts that
      `ExtractTo` gives for the loop's starting heap, on top of the counts
      `base` and `exchanges` the loop started from and one exchange per
      position handled. */
  ghost predicate Extracting(a: seq<int>, arr: seq<int>, steps: seq<Step>, comparisons: nat, swaps: nat,
                             heap: seq<int>, base: nat, exchanges: nat, i: nat)
  {
    && Tracked(a, arr, steps, comparisons, swaps)
    && i < |heap| == |a|
    && a == ExtractTo(heap, i).arr
    && comparisons == base + ExtractTo(heap, i).comparisons
    && swaps == exchanges + (|a| - 1 - i) + ExtractTo(heap, i).sifts
  }

  /** One iteration of the second loop, at position i. */
  method ExtractOne(a: array<int>, i: int, ghost arr: seq<int>, steps0: seq<Step>, comparisons0: nat, swaps0: nat,
                    ghost heap: seq<int>, ghost base: nat, ghost exchanges: nat)
    returns (steps: seq<Step>, comparisons: nat, swaps: nat)
    requires 0 < i
    requires Extracting(a[..], arr, steps0, comparisons0, swaps0, heap, base, exchanges, i)
    modifies a
    ensures Extracting(a[..], arr, steps, comparisons, swaps, heap, base, exchanges, i - 1)
  {
    var n := a.Length;
    ghost var before := a[..];
    ExtractStep(heap, i, SiftDown(Exchange(before, 0, i), i, 0));
    a[0], a[i] := a[i], a[0];
    assert a[..] == Swap(before, 0, i) == Exchange(before, 0, i);
    Exchanged(before, arr, steps0, comparisons0, swaps0, 0, i, Step(a[..], swapping := [0, i]));
    steps, comparisons, swaps := Push(steps0, Step(a[..], swapping := [0, i])), comparisons0, swaps0 + 1;
    var done := Step(a[..], sorted := Countdown(n - 1, n - i));
    Noted(a[..], arr, steps, comparisons, swaps, done);
    steps := Push(steps, done);
    steps, comparisons, swaps := Heapify(a, i, 0, arr, steps, comparisons, swaps);
  }

  /** `heapify(n, i)`: compares node i with its children below n and, while
      a child beats it, exchanges them and continues from that child; this
      is `SiftDown` on the array, which also changes only cells in [i, n). */
  method Heapify(a: array<int>, n: int, i: int, ghost arr: seq<int>, steps0: seq<Step>, comparisons0: nat, swaps0: nat)
    returns (steps: seq<Step>, comparisons: nat, swaps: nat)
    requires 0 <= i < n <= a.Length
    requires Tracked(a[..], arr, steps0, comparisons0, swaps0)
    modifies a
    ensures Tracked(a[..], arr, steps, comparisons, swaps)
    ensures Kept(old(a[..]), a[..], i, n - 1)
    ensures 2 * i + 1 >= n ==> steps == steps0
    ensures a[..] == SiftDown(old(a[..]), n, i).arr
    ensures comparisons == comparisons0 + SiftDown(old(a[..]), n, i).comparisons
    ensures swaps == swaps0 + SiftDown(old(a[..]), n, i).sifts
    decreases n - i
  {
    steps, comparisons, swaps := steps0, comparisons0, swaps0;
    var largest := i;
    var left, right := 2 * i + 1, 2 * i + 2;
    if left < n {
      var look := Step(a[..], comparing := [left, largest]);
      Noted(a[..], arr, steps, comparisons, swaps, look);
      steps, comparisons := Push(steps, look), comparisons + 1;
      if a[left] > a[largest] {
        largest := left;
      }
    }
    if right < n {
      var look := Step(a[..], comparing := [right, largest]);
      Noted(a[..], arr, steps, comparisons, swaps, look);
      steps, comparisons := Push(steps, look), comparisons + 1;
      if a[right] > a[largest] {
        largest := right;
      }
    }
    assert largest == LargestOf(a[..], n, i);
    if largest != i {
      ghost var before := a[..];
      a[i], a[largest] := a[largest], a[i];
      assert a[..] == Swap(before, i, largest) == Exchange(before, i, largest);
      Exchanged(before, arr, steps, comparisons, swaps, i, largest, Step(a[..], swapping := [i, largest]));
      steps, swaps := Push(steps, Step(a[..], swapping := [i, largest])), swaps + 1;
      steps, comparisons, swaps := Heapify(a, n, largest, arr, steps, comparisons, swaps);
    }
    SiftDownPermutes(old(a[..]), n, i);
  }
}
