/** `bubbleSort` of algorithms/sorting.js: the same passes as the recorded
    engine, on the caller's array, reporting each comparison and each exchange
    through `updateStats` and showing the pair after each. */
module StreamingBubble {
  import opened Ordering
  import opened StreamTrace
  import RecordedBubble

  /** The shared state, plus: every exchange so far removed one inversion. */
  ghost predicate Progress(a: seq<int>, a0: seq<int>, trace: seq<Event>, c: nat, s: nat)
  {
    Streamed(a, a0, trace, c, s) && s + Inversions(a) == Inversions(a0)
  }

  method BubbleSort(arr: array<int>) returns (trace: seq<Event>, comparisons: nat, swaps: nat)
    modifies arr
    ensures Sorted(arr[..]) && multiset(arr[..]) == multiset(old(arr[..]))
    ensures Counted(trace, comparisons, swaps)
    ensures comparisons == Pairs(arr.Length) && swaps == Inversions(old(arr[..]))
    ensures arr.Length <= 1 ==> trace == []
  {
    ghost var a0 := arr[..];
    var n := arr.Length;
    trace, comparisons, swaps := [], 0, 0;
    var i := 0;
    while i < n - 1
      invariant 0 <= i <= n && (n >= 1 ==> i <= n - 1)
      invariant Progress(arr[..], a0, trace, comparisons, swaps)
      invariant SortedBetween(arr[..], n - i, n) && Parted(arr[..], n - i)
      invariant comparisons == Pairs(n) - Pairs(n - i)
      invariant n <= 1 ==> trace == []
    {
      trace, comparisons, swaps := Pass(arr, i, a0, trace, comparisons, swaps);
      i := i + 1;
    }
    assert n <= 1 || (SortedBetween(arr[..], 1, n) && Parted(arr[..], 1));
    SortedNoInversions(arr[..]);
  }

  /** The inner `for j` loop of pass i. */
  method Pass(a: array<int>, i: nat, ghost a0: seq<int>, trace0: seq<Event>, comparisons0: nat, swaps0: nat)
    returns (trace: seq<Event>, comparisons: nat, swaps: nat)
    requires i < a.Length - 1
    requires Progress(a[..], a0, trace0, comparisons0, swaps0)
    requires SortedBetween(a[..], a.Length - i, a.Length) && Parted(a[..], a.Length - i)
    modifies a
    ensures Progress(a[..], a0, trace, comparisons, swaps)
    ensures SortedBetween(a[..], a.Length - i - 1, a.Length) && Parted(a[..], a.Length - i - 1)
    ensures comparisons == comparisons0 + (a.Length - i - 1)
  {
    var n := a.Length;
    trace, comparisons, swaps := trace0, comparisons0, swaps0;
    var j := 0;
    while j < n - i - 1
      invariant 0 <= j <= n - i - 1
      invariant Progress(a[..], a0, trace, comparisons, swaps)
      invariant RecordedBubble.Bubbling(a[..], j, n - i)
      invariant comparisons == comparisons0 + j
    {
      ghost var before := a[..];
      trace, comparisons, swaps := CompareAdjacent(a, j, a0, trace, comparisons, swaps);
      RecordedBubble.BubbleStep(before, j, n - i);
      j := j + 1;
    }
    RecordedBubble.BubbleDone(a[..], n - i);
  }

  /** One iteration: report and show the comparison of a[j] and a[j+1], then
      exchange them, report and show again when a[j] > a[j+1]. */
  method CompareAdjacent(a: array<int>, j: nat, ghost a0: seq<int>, trace0: seq<Event>, comparisons0: nat, swaps0: nat)
    returns (trace: seq<Event>, comparisons: nat, swaps: nat)
    requires j + 1 < a.Length
    requires Progress(a[..], a0, trace0, comparisons0, swaps0)
    modifies a
    ensures Progress(a[..], a0, trace, comparisons, swaps)
    ensures a[..] == RecordedBubble.Ordered(old(a[..]), j)
    ensures comparisons == comparisons0 + 1
  {
    CompareShown(trace0, comparisons0, swaps0, a[..], [j, j + 1]);
    comparisons, swaps := comparisons0 + 1, swaps0;
    trace := trace0 + [Stats(comparisons, swaps), Show(a[..], [j, j + 1])];
    if a[j] > a[j + 1] {
      ghost var before := a[..];
      a[j], a[j + 1] := a[j + 1], a[j];
      assert a[..] == Swap(before, j, j + 1);
      InversionsSwapped(before, j);
      SwapShown(trace, comparisons, swaps, a[..], [j, j + 1]);
      swaps := swaps + 1;
      trace := trace + [Stats(comparisons, swaps), Show(a[..], [j, j + 1])];
    }
  }
}
