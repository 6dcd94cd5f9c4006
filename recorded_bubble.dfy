/** `bubbleSort` of src/utils/sortingAlgorithms.ts: sorts a private copy of the
    input with adjacent exchanges and records a step after every comparison,
    every exchange and every finished pass. */
module RecordedBubble {
  import opened Ordering
  import opened SortSteps

  /** The shared bookkeeping, plus: every exchange so far removed one inversion. */
  ghost predicate Progress(a: seq<int>, arr: seq<int>, steps: seq<Step>, comparisons: nat, swaps: nat)
  {
    Tracked(a, arr, steps, comparisons, swaps) && swaps + Inversions(a) == Inversions(arr)
  }

  method BubbleSort(arr: seq<int>) returns (r: SortResult)
    ensures Recorded(arr, r)
    ensures SnapshotsPermute(r.steps, multiset(arr))
    ensures Last(r.steps).sorted == Range(0, |arr|)
    ensures r.comparisons == CountComparing(r.steps) == Pairs(|arr|)
    ensures r.swaps == Inversions(arr)
  {
    var a := new int[|arr|](k requires 0 <= k < |arr| => arr[k]);
    assert a[..] == arr;
    var steps, comparisons, swaps := Passes(a, arr);
    var last := Step(a[..], sorted := Range(0, a.Length));
    Noted(a[..], arr, steps, comparisons, swaps, last);
    steps := Push(steps, last);
    Concluded(a[..], arr, steps, comparisons, swaps);
    SortedNoInversions(a[..]);
    r := SortResult(steps, comparisons, swaps);
  }

  /** The outer `for i` loop: pass i leaves the i+1 largest elements sorted
      at the end of the array and records that with a `sorted` step. */
  method Passes(a: array<int>, ghost arr: seq<int>) returns (steps: seq<Step>, comparisons: nat, swaps: nat)
    requires a[..] == arr
    modifies a
    ensures Progress(a[..], arr, steps, comparisons, swaps)
    ensures Sorted(a[..])
    ensures comparisons == Pairs(a.Length)
  {
    var n := a.Length;
    steps := [Step(a[..])];
    Started(arr, Step(a[..]));
    comparisons, swaps := 0, 0;
    var i := 0;
    while i < n - 1
      invariant 0 <= i <= n && (n >= 1 ==> i <= n - 1)
      invariant Progress(a[..], arr, steps, comparisons, swaps)
      invariant SortedBetween(a[..], n - i, n) && Parted(a[..], n - i)
      invariant comparisons == Pairs(n) - Pairs(n - i)
    {
      steps, comparisons, swaps := Pass(a, i, arr, steps, comparisons, swaps);
      var done := Step(a[..], sorted := Countdown(n - 1, i + 1));
      Noted(a[..], arr, steps, comparisons, swaps, done);
      steps := Push(steps, done);
      i := i + 1;
    }
    assert n <= 1 || (SortedBetween(a[..], 1, n) && Parted(a[..], 1));
  }

  /** The inner `for j` loop of pass i: compares each adjacent pair of
      a[0..n-i) and exchanges it when out of order, which carries the largest
      element of that prefix to position n-i-1. */
  method Pass(a: array<int>, i: nat, ghost arr: seq<int>, steps0: seq<Step>, comparisons0: nat, swaps0: nat)
    returns (steps: seq<Step>, comparisons: nat, swaps: nat)
    requires i < a.Length - 1
    requires Progress(a[..], arr, steps0, comparisons0, swaps0)
    requires SortedBetween(a[..], a.Length - i, a.Length) && Parted(a[..], a.Length - i)
    modifies a
    ensures Progress(a[..], arr, steps, comparisons, swaps)
    ensures SortedBetween(a[..], a.Length - i - 1, a.Length) && Parted(a[..], a.Length - i - 1)
    ensures comparisons == comparisons0 + (a.Length - i - 1)
  {
    var n := a.Length;
    steps, comparisons, swaps := steps0, comparisons0, swaps0;
    var j := 0;
    while j < n - i - 1
      invariant 0 <= j <= n - i - 1
      invariant Progress(a[..], arr, steps, comparisons, swaps)
      invariant Bubbling(a[..], j, n - i)
      invariant comparisons == comparisons0 + j
    {
      ghost var before := a[..];
      steps, comparisons, swaps := CompareAdjacent(a, j, arr, steps, comparisons, swaps);
      BubbleStep(before, j, n - i);
      j := j + 1;
    }
    BubbleDone(a[..], n - i);
  }

  /** One iteration of the inner loop: record the comparison of a[j] and
      a[j+1], and exchange and record them when a[j] > a[j+1]. */
  method CompareAdjacent(a: array<int>, j: nat, ghost arr: seq<int>, steps0: seq<Step>, comparisons0: nat, swaps0: nat)
    returns (steps: seq<Step>, comparisons: nat, swaps: nat)
    requires j + 1 < a.Length
    requires Progress(a[..], arr, steps0, comparisons0, swaps0)
    modifies a
    ensures Progress(a[..], arr, steps, comparisons, swaps)
    ensures a[..] == Ordered(old(a[..]), j)
    ensures comparisons == comparisons0 + 1
  {
    Noted(a[..], arr, steps0, comparisons0, swaps0, Step(a[..], comparing := [j, j + 1]));
    comparisons := comparisons0 + 1;
    steps := Push(steps0, Step(a[..], comparing := [j, j + 1]));
    swaps := swaps0;
    if a[j] > a[j + 1] {
      ghost var before := a[..];
      a[j], a[j + 1] := a[j + 1], a[j];
      assert a[..] == Swap(before, j, j + 1);
      Exchanged(before, arr, steps, comparisons, swaps, j, j + 1, Step(a[..], swapping := [j, j + 1]));
      InversionsSwapped(before, j);
      swaps := swaps + 1;
      steps := Push(steps, Step(a[..], swapping := [j, j + 1]));
    }
  }

  /** Compare-and-exchange of positions j and j+1: afterwards s[j] <= s[j+1]. */
  function Ordered(s: seq<int>, j: nat): (r: seq<int>)
    requires j + 1 < |s|
    ensures |r| == |s| && multiset(r) == multiset(s)
    ensures r[j] <= r[j + 1] && {r[j], r[j + 1]} == {s[j], s[j + 1]}
    ensures forall k :: 0 <= k < |s| && k != j && k != j + 1 ==> r[k] == s[k]
  {
    if s[j] > s[j + 1] then Swap(s, j, j + 1) else s
  }

  /** The state inside pass i (m = n-i): s[j] is the largest of s[0..j], and
      the last n-m elements are sorted and no smaller than anything before. */
  predicate Bubbling(s: seq<int>, j: nat, m: nat)
  {
    && j < m <= |s|
    && (forall k :: 0 <= k < j ==> s[k] <= s[j])
    && SortedBetween(s, m, |s|) && Parted(s, m)
  }

  /** A compare-and-exchange at j moves the running maximum to j+1. */
  lemma BubbleStep(s: seq<int>, j: nat, m: nat)
    requires Bubbling(s, j, m) && j + 1 < m
    ensures Bubbling(Ordered(s, j), j + 1, m)
  {
    var r := Ordered(s, j);
    forall k, l | 0 <= k < m <= l < |r| ensures r[k] <= r[l] {
      assert r[k] in {s[j], s[j + 1]} || r[k] == s[k];
    }
  }

  /** At the end of a pass the maximum has joined the sorted suffix. */
  lemma BubbleDone(s: seq<int>, m: nat)
    requires m >= 1 && Bubbling(s, m - 1, m)
    ensures SortedBetween(s, m - 1, |s|) && Parted(s, m - 1)
  {
  }
}
