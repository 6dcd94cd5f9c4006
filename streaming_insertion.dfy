/** `insertionSort` of algorithms/sorting.js: round i lifts out key = arr[i]
    and, while j >= 0, reports and shows the comparison of arr[j] with the key
    (the one that fails included), shifting and reporting each larger element;
    the final placement of the key is shown but not counted. */
module StreamingInsertion {
  import opened Ordering
  import opened StreamTrace
  import RecordedInsertion

  /** About the array `l` as it would be with the key put back: it is a
      permutation of the original, each shift so far removed one inversion,
      and the trace reported the counters. */
  ghost predicate Progress(l: seq<int>, a0: seq<int>, trace: seq<Event>, c: nat, s: nat)
  {
    Streamed(l, a0, trace, c, s) && s + Inversions(l) == Inversions(a0)
  }

  method InsertionSort(arr: array<int>) returns (trace: seq<Event>, comparisons: nat, swaps: nat)
    modifies arr
    ensures Sorted(arr[..]) && multiset(arr[..]) == multiset(old(arr[..]))
    ensures Counted(trace, comparisons, swaps)
    ensures swaps == Inversions(old(arr[..]))
    ensures swaps <= comparisons <= swaps + (if arr.Length == 0 then 0 else arr.Length - 1)
    ensures comparisons + Drops(old(arr[..])) == swaps + (if arr.Length == 0 then 0 else arr.Length - 1)
    ensures Sorted(old(arr[..])) ==> swaps == 0 && comparisons == (if arr.Length == 0 then 0 else arr.Length - 1)
    ensures arr.Length <= 1 ==> trace == []
  {
    ghost var a0 := arr[..];
    var n := arr.Length;
    trace, comparisons, swaps := [], 0, 0;
    ghost var drops := 0;
    var i := 1;
    while i < n
      invariant 1 <= i && (n >= 1 ==> i <= n)
      invariant Progress(arr[..], a0, trace, comparisons, swaps)
      invariant SortedBetween(arr[..], 0, if n == 0 then 0 else i)
      invariant RecordedInsertion.Tally(comparisons, swaps, drops, i)
      invariant n <= 1 ==> trace == []
      invariant n > 0 ==> arr[i..] == a0[i..]
      invariant drops == DropsTo(a0, if n == 0 then 0 else i)
    {
      ghost var before := arr[..];
      trace, comparisons, swaps, drops := Round(arr, i, a0, trace, comparisons, swaps, drops);
      BelowAllPermuted(before, a0, i);
      assert arr[i + 1..] == before[i + 1..] == before[i..][1..] == a0[i + 1..];
      i := i + 1;
    }
    SortedNoInversions(arr[..]);
    if Sorted(a0) {
      SortedNoInversions(a0);
    }
  }

  /** One round of the outer loop; `drops` counts the rounds whose key went
      all the way to the front, where no failing comparison was made. */
  method Round(a: array<int>, i: nat, ghost a0: seq<int>, trace0: seq<Event>, comparisons0: nat, swaps0: nat, ghost drops0: nat)
    returns (trace: seq<Event>, comparisons: nat, swaps: nat, ghost drops: nat)
    requires 1 <= i < a.Length
    requires Progress(a[..], a0, trace0, comparisons0, swaps0) && SortedBetween(a[..], 0, i)
    requires RecordedInsertion.Tally(comparisons0, swaps0, drops0, i)
    modifies a
    ensures Progress(a[..], a0, trace, comparisons, swaps) && SortedBetween(a[..], 0, i + 1)
    ensures RecordedInsertion.Tally(comparisons, swaps, drops, i + 1)
    ensures a[i + 1..] == old(a[i + 1..])
    ensures drops == drops0 + (if BelowAll(old(a[..]), i) then 1 else 0)
  {
    ghost var a1 := a[..];
    var key := a[i];
    var j;
    j, trace, comparisons, swaps := Sink(a, i, key, a0, trace0, comparisons0, swaps0);
    drops := if j >= 0 then drops0 else drops0 + 1;
    RecordedInsertion.DropDecided(a1, a[..], j, i, key);
    ghost var l := RecordedInsertion.Lifted(a[..], j, key);
    a[j + 1] := key;
    assert a[..] == l;
    RecordedInsertion.Settled(l, j, i, key);
    Shown(trace, comparisons, swaps, a[..], [j + 1]);
    trace := trace + [Show(a[..], [j + 1])];
  }

  /** The state of round i with the gap at j+1. */
  ghost predicate Sinking(a: seq<int>, j: int, i: nat, key: int, a0: seq<int>, trace: seq<Event>, c: nat, s: nat)
  {
    && -1 <= j < i < |a|
    && Progress(RecordedInsertion.Lifted(a, j, key), a0, trace, c, s)
    && RecordedInsertion.Gap(RecordedInsertion.Lifted(a, j, key), j, i, key)
  }

  /** The `while (j >= 0)` loop: every test of `arr[j] > key` is counted,
      reported and shown; a successful one shifts, a failing one breaks. */
  method Sink(a: array<int>, i: nat, key: int, ghost a0: seq<int>, trace0: seq<Event>, comparisons0: nat, swaps0: nat)
    returns (j: int, trace: seq<Event>, comparisons: nat, swaps: nat)
    requires 1 <= i < a.Length && a[i] == key
    requires Progress(a[..], a0, trace0, comparisons0, swaps0) && SortedBetween(a[..], 0, i)
    modifies a
    ensures Sinking(a[..], j, i, key, a0, trace, comparisons, swaps)
    ensures j >= 0 ==> a[j] <= key
    ensures swaps == swaps0 + (i - 1 - j)
    ensures comparisons == comparisons0 + (swaps - swaps0) + (if j >= 0 then 1 else 0)
    ensures RecordedInsertion.Shifted(old(a[..]), a[..], j, i)
  {
    j := i - 1;
    trace, comparisons, swaps := trace0, comparisons0, swaps0;
    assert RecordedInsertion.Lifted(a[..], j, key) == a[..];
    while j >= 0
      invariant Sinking(a[..], j, i, key, a0, trace, comparisons, swaps)
      invariant swaps == swaps0 + (i - 1 - j)
      invariant comparisons == comparisons0 + (swaps - swaps0)
      invariant RecordedInsertion.Shifted(old(a[..]), a[..], j, i)
    {
      CompareShown(trace, comparisons, swaps, a[..], [j, j + 1]);
      comparisons := comparisons + 1;
      trace := trace + [Stats(comparisons, swaps), Show(a[..], [j, j + 1])];
      if a[j] > key {
        ghost var before := a[..];
        trace, swaps := Shift(a, i, j, key, a0, trace, comparisons, swaps);
        RecordedInsertion.ShiftedMore(old(a[..]), before, j, i);
        j := j - 1;
      } else {
        break;
      }
    }
  }

  /** `arr[j + 1] = arr[j]; swaps++; updateStats(...)`: the gap moves one
      place left, an exchange with the key in the lifted array. */
  method Shift(a: array<int>, i: nat, j: nat, key: int, ghost a0: seq<int>, trace0: seq<Event>, comparisons: nat, swaps0: nat)
    returns (trace: seq<Event>, swaps: nat)
    requires Sinking(a[..], j, i, key, a0, trace0, comparisons, swaps0) && a[j] > key
    modifies a
    ensures a[..] == old(a[..])[j + 1 := old(a[j])]
    ensures Sinking(a[..], j - 1, i, key, a0, trace, comparisons, swaps)
    ensures swaps == swaps0 + 1
  {
    ghost var before := a[..];
    a[j + 1] := a[j];
    RecordedInsertion.GapMoved(before, j, key);
    InversionsSwapped(RecordedInsertion.Lifted(before, j, key), j);
    RecordedInsertion.ShiftedGap(before, j, i, key);
    Swapped(trace0, comparisons, swaps0);
    swaps := swaps0 + 1;
    trace := trace0 + [Stats(comparisons, swaps)];
  }
}
