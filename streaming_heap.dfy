/** `heapSort` of algorithms/sorting.js: the same heap construction and
    extraction as the recorded engine on the caller's array; every comparison
    of a child with the running largest and every exchange is counted,
    reported and shown, and nothing is marked sorted. */
module StreamingHeap {
  import opened Ordering
  import opened StreamTrace
  import opened HeapOrder

  method HeapSort(arr: array<int>) returns (trace: seq<Event>, comparisons: nat, swaps: nat)
    modifies arr
    ensures Sorted(arr[..]) && multiset(arr[..]) == multiset(old(arr[..]))
    ensures Counted(trace, comparisons, swaps)
    ensures arr.Length >= 1 ==> arr.Length - 1 <= swaps <= arr.Length - 1 + comparisons
    ensures arr.Length <= 1 ==> trace == [] && comparisons == 0 && swaps == 0
    ensures arr[..] == HeapRun(old(arr[..])).arr
    ensures comparisons == HeapRun(old(arr[..])).comparisons
    ensures swaps == (if arr.Length == 0 then 0 else arr.Length - 1) + HeapRun(old(arr[..])).sifts
  {
    ghost var a0 := arr[..];
    trace, comparisons, swaps := BuildHeap(arr, a0);
    trace, comparisons, swaps := Extract(arr, a0, trace, comparisons, swaps);
  }

  /** The first `for` loop: `heapify(arr, n, i)` for i from n/2 - 1 down to
      0 (k stands for i + 1); afterwards the whole array is a max-heap. */
  method BuildHeap(a: array<int>, ghost a0: seq<int>) returns (trace: seq<Event>, comparisons: nat, swaps: nat)
    requires a[..] == a0
    modifies a
    ensures Streamed(a[..], a0, trace, comparisons, swaps)
    ensures Heap(a[..], 0, a.Length) && swaps <= comparisons
    ensures a.Length <= 1 ==> trace == [] && comparisons == 0
    ensures a[..] == BuildTo(old(a[..]), 0).arr
    ensures comparisons == BuildTo(old(a[..]), 0).comparisons && swaps == BuildTo(old(a[..]), 0).sifts
  {
    var n := a.Length;
    trace, comparisons, swaps := [], 0, 0;
    var k := n / 2;
    while k > 0
      invariant 0 <= k && 2 * k <= n
      invariant 2 * k + 1 >= n ==> trace == []
      invariant Building(a[..], a0, trace, comparisons, swaps, old(a[..]), k)
    {
      trace, comparisons, swaps := BuildOne(a, k, a0, trace, comparisons, swaps, old(a[..]));
      k := k - 1;
    }
    BuildToHeap(old(a[..]), 0);
    BuildToPermutes(old(a[..]), 0);
  }

  /** The state of the first loop once it has sifted nodes down to k: the
      array is what `BuildTo` makes of the loop's starting array, and the
      trace has reported the counts `BuildTo` gives. */
  ghost predicate Building(a: seq<int>, a0: seq<int>, trace: seq<Event>, comparisons: nat, swaps: nat, start: seq<int>, k: nat)
  {
    && Streamed(a, a0, trace, comparisons, swaps)
    && 2 * k <= |start| == |a|
    && a == BuildTo(start, k).arr
    && comparisons == BuildTo(start, k).comparisons
    && swaps == BuildTo(start, k).sifts
  }

  /** One iteration of the first loop: `heapify(arr, n, k - 1)`. */
  method BuildOne(a: array<int>, k: int, ghost a0: seq<int>, trace0: seq<Event>, comparisons0: nat, swaps0: nat,
                  ghost start: seq<int>)
    returns (trace: seq<Event>, comparisons: nat, swaps: nat)
    requires 0 < k
    requires Building(a[..], a0, trace0, comparisons0, swaps0, start, k)
    modifies a
    ensures Building(a[..], a0, trace, comparisons, swaps, start, k - 1)
  {
    BuildStep(start, k, SiftDown(a[..], a.Length, k - 1));
    trace, comparisons, swaps := Heapify(a, a.Length, k - 1, a0, trace0, comparisons0, swaps0);
  }

  /** The second `for` loop: for i from n - 1 down to 1, exchange the root
      with a[i] and sift the new root down in [0, i). */
  method Extract(a: array<int>, ghost a0: seq<int>, trace0: seq<Event>, comparisons0: nat, swaps0: nat)
    returns (trace: seq<Event>, comparisons: nat, swaps: nat)
    requires Streamed(a[..], a0, trace0, comparisons0, swaps0)
    requires Heap(a[..], 0, a.Length) && swaps0 <= comparisons0
    modifies a
    ensures Streamed(a[..], a0, trace, comparisons, swaps) && Sorted(a[..])
    ensures a.Length >= 1 ==> a.Length - 1 <= swaps <= a.Length - 1 + comparisons
    ensures a.Length <= 1 ==> trace == trace0 && comparisons == comparisons0 && swaps == swaps0
    ensures a.Length >= 1 ==> a[..] == ExtractTo(old(a[..]), 0).arr
    ensures a.Length >= 1 ==> comparisons == comparisons0 + ExtractTo(old(a[..]), 0).comparisons
    ensures a.Length >= 1 ==> swaps == swaps0 + (a.Length - 1) + ExtractTo(old(a[..]), 0).sifts
  {
    var n := a.Length;
    trace, comparisons, swaps := trace0, comparisons0, swaps0;
    if n == 0 {
      return;
    }
    var i := n - 1;
    while i > 0
      invariant 0 <= i < n
      invariant i == n - 1 ==> trace == trace0
      invariant Extracting(a[..], a0, trace, comparisons, swaps, old(a[..]), comparisons0, swaps0, i)
    {
      trace, comparisons, swaps := ExtractOne(a, i, a0, trace, comparisons, swaps, old(a[..]), comparisons0, swaps0);
      i := i - 1;
    }
    ExtractToSortsHeap(old(a[..]));
    ExtractToPermutes(old(a[..]), 0);
  }

  /** The state of the second loop once it has handled positions down to i + 1:
      the array and counts that `ExtractTo` gives for the loop's starting
      heap, on top of the counts `base` and `exchanges` the loop started from
      and one exchange per position handled, all reported in the trace. */
  ghost predicate Extracting(a: seq<int>, a0: seq<int>, trace: seq<Event>, comparisons: nat, swaps: nat,
                             heap: seq<int>, base: nat, exchanges: nat, i: nat)
  {
    && Streamed(a, a0, trace, comparisons, swaps)
    && i < |heap| == |a|
    && a == ExtractTo(heap, i).arr
    && comparisons == base + ExtractTo(heap, i).comparisons
    && swaps == exchanges + (|a| - 1 - i) + ExtractTo(heap, i).sifts
  }

  /** One iteration of the second loop, at position i. */
  method ExtractOne(a: array<int>, i: int, ghost a0: seq<int>, trace0: seq<Event>, comparisons0: nat, swaps0: nat,
                    ghost heap: seq<int>, ghost base: nat, ghost exchanges: nat)
    returns (trace: seq<Event>, comparisons: nat, swaps: nat)
    requires 0 < i
    requires Extracting(a[..], a0, trace0, comparisons0, swaps0, heap, base, exchanges, i)
    modifies a
    ensures Extracting(a[..], a0, trace, comparisons, swaps, heap, base, exchanges, i - 1)
  {
    ghost var before := a[..];
    ExtractStep(heap, i, SiftDown(Exchange(before, 0, i), i, 0));
    a[0], a[i] := a[i], a[0];
    assert a[..] == Swap(before, 0, i) == Exchange(before, 0, i);
    SwapShown(trace0, comparisons0, swaps0, a[..], [0, i]);
    comparisons, swaps := comparisons0, swaps0 + 1;
    trace := trace0 + [Stats(comparisons, swaps), Show(a[..], [0, i])];
    trace, comparisons, swaps := Heapify(a, i, 0, a0, trace, comparisons, swaps);
  }

  /** `heapify(arr, n, i)`: compares node i with its children below n and,
      while a child beats it, exchanges them and continues from that child;
      this is `SiftDown` on the array, which also changes only cells in
      [i, n). */
  method Heapify(a: array<int>, n: int, i: int, ghost a0: seq<int>, trace0: seq<Event>, comparisons0: nat, swaps0: nat)
    returns (trace: seq<Event>, comparisons: nat, swaps: nat)
    requires 0 <= i < n <= a.Length
    requires Streamed(a[..], a0, trace0, comparisons0, swaps0)
    modifies a
    ensures Streamed(a[..], a0, trace, comparisons, swaps)
    ensures Kept(old(a[..]), a[..], i, n - 1)
    ensures 2 * i + 1 >= n ==> trace == trace0
    ensures a[..] == SiftDown(old(a[..]), n, i).arr
    ensures comparisons == comparisons0 + SiftDown(old(a[..]), n, i).comparisons
    ensures swaps == swaps0 + SiftDown(old(a[..]), n, i).sifts
    decreases n - i
  {
    var largest;
    largest, trace, comparisons := Largest(a, n, i, a0, trace0, comparisons0, swaps0);
    swaps := swaps0;
    if largest != i {
      ghost var before := a[..];
      a[i], a[largest] := a[largest], a[i];
      assert a[..] == Swap(before, i, largest) == Exchange(before, i, largest);
      SwapShown(trace, comparisons, swaps, a[..], [i, largest]);
      swaps := swaps + 1;
      trace := trace + [Stats(comparisons, swaps), Show(a[..], [i, largest])];
      trace, comparisons, swaps := Heapify(a, n, largest, a0, trace, comparisons, swaps);
    }
    SiftDownPermutes(old(a[..]), n, i);
  }

  /** The two comparisons of `heapify`: the index of the largest of a[i] and
      its children below n, preferring the earlier one on ties. */
  method Largest(a: array<int>, n: int, i: int, ghost a0: seq<int>, trace0: seq<Event>, comparisons0: nat, swaps: nat)
    returns (largest: int, trace: seq<Event>, comparisons: nat)
    requires 0 <= i < n <= a.Length
    requires Streamed(a[..], a0, trace0, comparisons0, swaps)
    ensures Streamed(a[..], a0, trace, comparisons, swaps)
    ensures largest == i || ((largest == 2 * i + 1 || largest == 2 * i + 2) && largest < n && a[i] < a[largest])
    ensures 2 * i + 1 < n ==> a[2 * i + 1] <= a[largest]
    ensures 2 * i + 2 < n ==> a[2 * i + 2] <= a[largest]
    ensures largest == LargestOf(a[..], n, i)
    ensures comparisons == comparisons0 + Probes(n, i)
    ensures 2 * i + 1 >= n ==> trace == trace0
  {
    trace, comparisons := trace0, comparisons0;
    largest := i;
    var left, right := 2 * i + 1, 2 * i + 2;
    if left < n {
      CompareShown(trace, comparisons, swaps, a[..], [left, largest]);
      comparisons := comparisons + 1;
      trace := trace + [Stats(comparisons, swaps), Show(a[..], [left, largest])];
      if a[left] > a[largest] {
        largest := left;
      }
    }
    if right < n {
      CompareShown(trace, comparisons, swaps, a[..], [right, largest]);
      comparisons := comparisons + 1;
      trace := trace + [Stats(comparisons, swaps), Show(a[..], [right, largest])];
      if a[right] > a[largest] {
        largest := right;
      }
    }
  }
}
