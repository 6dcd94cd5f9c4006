/** `quickSort` of algorithms/sorting.js: the same Lomuto recursion as the
    recorded engine on the caller's array, but partition exchanges (and
    counts, reports and shows) every smaller element, also when it is
    exchanged with itself, and never marks the pivot. */
module StreamingQuick {
  import opened Ordering
  import opened StreamTrace
  import opened Lomuto
  import RecordedQuick

  method QuickSort(arr: array<int>) returns (trace: seq<Event>, comparisons: nat, swaps: nat)
    modifies arr
    ensures Sorted(arr[..]) && multiset(arr[..]) == multiset(old(arr[..]))
    ensures Counted(trace, comparisons, swaps)
    ensures arr[..] == QuickRun(old(arr[..]), 0, arr.Length - 1).arr
    ensures comparisons == QuickRun(old(arr[..]), 0, arr.Length - 1).comparisons
    ensures swaps == QuickRun(old(arr[..]), 0, arr.Length - 1).streamingSwaps
    ensures arr.Length <= 1 ==> trace == []
  {
    ghost var a0 := arr[..];
    trace, comparisons, swaps := SortRange(arr, 0, arr.Length - 1, a0, [], 0, 0);
  }

  /** `quickSortHelper(low, high)`: sorts a[low..high], touches nothing
      outside it, and streams nothing for a range of fewer than two. */
  method SortRange(a: array<int>, low: int, high: int, ghost a0: seq<int>, trace0: seq<Event>, comparisons0: nat, swaps0: nat)
    returns (trace: seq<Event>, comparisons: nat, swaps: nat)
    requires 0 <= low <= high + 1 <= a.Length
    requires Streamed(a[..], a0, trace0, comparisons0, swaps0)
    modifies a
    ensures Streamed(a[..], a0, trace, comparisons, swaps)
    ensures SortedBetween(a[..], low, high + 1) && Kept(old(a[..]), a[..], low, high)
    ensures a[..] == QuickRun(old(a[..]), low, high).arr
    ensures comparisons == comparisons0 + QuickRun(old(a[..]), low, high).comparisons
    ensures swaps == swaps0 + QuickRun(old(a[..]), low, high).streamingSwaps
    ensures low >= high ==> trace == trace0
    decreases high - low, 1
  {
    if low < high {
      var p;
      p, trace, comparisons, swaps := Partition(a, low, high, a0, trace0, comparisons0, swaps0);
      trace, comparisons, swaps := Sides(a, low, p, high, old(a[..]), a0, trace, comparisons0, comparisons, swaps0, swaps);
    } else {
      trace, comparisons, swaps := trace0, comparisons0, swaps0;
      assert Kept(a[..], a[..], low, high);
    }
  }

  /** The two recursive calls of `quickSortHelper(low, high)` after
      partition has split the range at p. */
  method Sides(a: array<int>, low: int, p: int, high: int, ghost s0: seq<int>, ghost a0: seq<int>, trace0: seq<Event>,
      ghost c0: nat, comparisons0: nat, ghost w0: nat, swaps0: nat)
    returns (trace: seq<Event>, comparisons: nat, swaps: nat)
    requires 0 <= low < high < |s0| == a.Length
    requires Streamed(a[..], a0, trace0, comparisons0, swaps0) && multiset(s0) == multiset(a[..])
    requires Partitioned(s0, low, high).arr == a[..] && Partitioned(s0, low, high).end == p
    requires RecordedQuick.Split(a[..], low, p, high) && Kept(s0, a[..], low, high)
    requires comparisons0 == c0 + (high - low) && swaps0 == w0 + 1 + (p - low)
    modifies a
    ensures Streamed(a[..], a0, trace, comparisons, swaps)
    ensures SortedBetween(a[..], low, high + 1) && Kept(s0, a[..], low, high)
    ensures a[..] == QuickRun(s0, low, high).arr
    ensures comparisons == c0 + QuickRun(s0, low, high).comparisons
    ensures swaps == w0 + QuickRun(s0, low, high).streamingSwaps
    decreases high - low, 0
  {
    ghost var s1 := a[..];
    trace, comparisons, swaps := SortRange(a, low, p - 1, a0, trace0, comparisons0, swaps0);
    ghost var l := QuickRun(s1, low, p - 1);
    ghost var s2 := a[..];
    trace, comparisons, swaps := SortRange(a, p + 1, high, a0, trace, comparisons, swaps);
    ghost var r := QuickRun(s2, p + 1, high);
    ghost var s3 := a[..];
    assert multiset(s1) == multiset(s2) == multiset(s3);
    RecordedQuick.Conquered(s0, s1, s2, s3, low, p, high);
    assert comparisons == c0 + (high - low) + l.comparisons + r.comparisons;
    assert swaps == w0 + 1 + (p - low) + l.streamingSwaps + r.streamingSwaps;
  }

  /** `partition(low, high)`: the reference partition, with one comparison
      per other element of the range and one swap per smaller element plus
      the pivot's. */
  method Partition(a: array<int>, low: int, high: int, ghost a0: seq<int>, trace0: seq<Event>, comparisons0: nat, swaps0: nat)
    returns (p: int, trace: seq<Event>, comparisons: nat, swaps: nat)
    requires 0 <= low < high < a.Length
    requires Streamed(a[..], a0, trace0, comparisons0, swaps0)
    modifies a
    ensures Streamed(a[..], a0, trace, comparisons, swaps)
    ensures RecordedQuick.Split(a[..], low, p, high) && Kept(old(a[..]), a[..], low, high)
    ensures a[p] == old(a[high]) && p == low + Smaller(old(a[high]), old(a[low..high]))
    ensures Partitioned(old(a[..]), low, high).arr == a[..] && Partitioned(old(a[..]), low, high).end == p
    ensures comparisons == comparisons0 + (high - low)
    ensures swaps == swaps0 + 1 + (p - low)
  {
    ghost var s0 := a[..];
    var i;
    ghost var moved;
    i, moved, trace, comparisons, swaps := Scan(a, low, high, s0, a0, trace0, comparisons0, swaps0);
    ghost var st := Loop(a[..], i, moved);
    trace, swaps := PlacePivot(a, i, high, a0, trace, comparisons, swaps);
    RecordedQuick.PivotPlaced(st, s0, low, high);
    p := i;
  }

  /** The `for j` loop of partition; i stands for the source's i + 1. */
  method Scan(a: array<int>, low: int, high: int, ghost s0: seq<int>, ghost a0: seq<int>, trace0: seq<Event>, comparisons0: nat, swaps0: nat)
    returns (i: int, ghost moved: nat, trace: seq<Event>, comparisons: nat, swaps: nat)
    requires 0 <= low < high < a.Length && a[..] == s0
    requires Streamed(a[..], a0, trace0, comparisons0, swaps0)
    modifies a
    ensures RecordedQuick.Scanning(Loop(a[..], i, moved), s0, low, high, high)
    ensures Streamed(a[..], a0, trace, comparisons, swaps)
    ensures comparisons == comparisons0 + (high - low)
    ensures swaps == swaps0 + (i - low)
  {
    trace, comparisons, swaps := trace0, comparisons0, swaps0;
    i, moved := low, 0;
    var j := low;
    assert s0[low..low] == [];
    while j < high
      invariant RecordedQuick.Scanning(Loop(a[..], i, moved), s0, low, j, high)
      invariant Streamed(a[..], a0, trace, comparisons, swaps)
      invariant comparisons == comparisons0 + (j - low)
      invariant swaps == swaps0 + (i - low)
    {
      ghost var st := Loop(a[..], i, moved);
      ghost var next := Advanced(st, j, high);
      i, trace, comparisons, swaps := Visit(a, i, j, high, a0, trace, comparisons, swaps);
      moved := next.moved;
      RecordedQuick.LomutoStep(st, Loop(a[..], i, moved), s0, low, j, high);
      j := j + 1;
    }
  }

  /** One iteration of the `for j` loop: count, report and show the
      comparison of a[j] with the pivot; if a[j] is smaller, grow the smaller
      block by exchanging a[j] to its end, and count, report and show that
      exchange even when it is an exchange of a cell with itself. */
  method Visit(a: array<int>, b0: int, j: int, high: int, ghost a0: seq<int>, trace0: seq<Event>, comparisons0: nat, swaps0: nat)
    returns (b: int, trace: seq<Event>, comparisons: nat, swaps: nat)
    requires 0 <= b0 <= j < high < a.Length
    requires Streamed(a[..], a0, trace0, comparisons0, swaps0)
    modifies a
    ensures forall moved: nat {:trigger Loop(old(a[..]), b0, moved)} ::
      Advanced(Loop(old(a[..]), b0, moved), j, high).arr == a[..] && Advanced(Loop(old(a[..]), b0, moved), j, high).end == b
    ensures Streamed(a[..], a0, trace, comparisons, swaps)
    ensures comparisons == comparisons0 + 1
    ensures swaps == swaps0 + (b - b0)
  {
    CompareShown(trace0, comparisons0, swaps0, a[..], [j, high]);
    comparisons, swaps := comparisons0 + 1, swaps0;
    trace := trace0 + [Stats(comparisons, swaps), Show(a[..], [j, high])];
    b := b0;
    if a[j] < a[high] {
      ghost var before := a[..];
      var t := a[b];
      a[b] := a[j];
      a[j] := t;
      assert a[..] == Swap(before, b, j) == before[b := before[j]][j := before[b]];
      SwapShown(trace, comparisons, swaps, a[..], [b, j]);
      swaps := swaps + 1;
      trace := trace + [Stats(comparisons, swaps), Show(a[..], [b, j])];
      b := b + 1;
    }
  }

  /** The exchange of a[i + 1] with the pivot after the loop. */
  method PlacePivot(a: array<int>, b: int, high: int, ghost a0: seq<int>, trace0: seq<Event>, comparisons: nat, swaps0: nat)
    returns (trace: seq<Event>, swaps: nat)
    requires 0 <= b <= high < a.Length
    requires Streamed(a[..], a0, trace0, comparisons, swaps0)
    modifies a
    ensures a[..] == Swap(old(a[..]), b, high)
    ensures Streamed(a[..], a0, trace, comparisons, swaps) && swaps == swaps0 + 1
  {
    ghost var before := a[..];
    var t := a[b];
    a[b] := a[high];
    a[high] := t;
    assert a[..] == Swap(before, b, high);
    SwapShown(trace0, comparisons, swaps0, a[..], [b, high]);
    swaps := swaps0 + 1;
    trace := trace0 + [Stats(comparisons, swaps), Show(a[..], [b, high])];
  }
}
