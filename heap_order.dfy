/** The heap sort shared by both engine variants, as functions on values:
    one `heapify` call, the heap construction, the extraction loop and the
    whole sort, each with the comparisons it makes and the exchanges its
    sifting makes. Both engines compare and exchange exactly as these
    functions do; the n - 1 exchanges that move the root out are counted on
    top of the sifting ones. */
module HeapOrder {
  import opened Ordering

  /** What a stretch of heap sort leaves: the array, the comparisons of a
      child with the running largest, and the exchanges made by sifting. */
  datatype Sifted = Sifted(arr: seq<int>, comparisons: nat, sifts: nat)

  /** The destructuring exchange of positions i and j. */
  function Exchange(s: seq<int>, i: nat, j: nat): (r: seq<int>)
    requires i < |s| && j < |s|
    ensures |r| == |s|
  {
    s[i := s[j]][j := s[i]]
  }

  /** How many children of node i lie below n, each compared once. */
  function Probes(n: int, i: int): nat
  {
    if 2 * i + 2 < n then 2 else if 2 * i + 1 < n then 1 else 0
  }

  /** The `largest` of `heapify(n, i)`: the left child if it beats s[i], then
      the right child if it beats the one chosen so far; ties keep the
      earlier candidate. */
  function LargestOf(s: seq<int>, n: int, i: int): (c: int)
    requires 0 <= i < n <= |s|
    ensures c == i || ((c == 2 * i + 1 || c == 2 * i + 2) && c < n && s[i] < s[c])
    ensures 2 * i + 1 < n ==> s[2 * i + 1] <= s[c]
    ensures 2 * i + 2 < n ==> s[2 * i + 2] <= s[c]
  {
    var l := if 2 * i + 1 < n && s[2 * i + 1] > s[i] then 2 * i + 1 else i;
    if 2 * i + 2 < n && s[2 * i + 2] > s[l] then 2 * i + 2 else l
  }

  /** `heapify(n, i)`: compare, exchange node i with its largest child when
      that child beats it, and continue from the child. Every exchange
      follows at least one comparison, and a leaf costs nothing. */
  function SiftDown(s: seq<int>, n: int, i: int): (r: Sifted)
    requires 0 <= i < n <= |s|
    ensures |r.arr| == |s|
    ensures 2 * i + 1 >= n ==> r == Sifted(s, 0, 0)
    decreases n - i
  {
    var c := LargestOf(s, n, i);
    if c == i then Sifted(s, Probes(n, i), 0)
    else
      var rest := SiftDown(Exchange(s, i, c), n, c);
      Sifted(rest.arr, Probes(n, i) + rest.comparisons, 1 + rest.sifts)
  }

  /** The first loop after it has sifted nodes |s|/2 - 1 down to k: each
      `heapify(n, i)` works on the whole array as the previous one left it. */
  function BuildTo(s: seq<int>, k: nat): (r: Sifted)
    requires 2 * k <= |s|
    ensures |r.arr| == |s|
    decreases |s| - 2 * k
  {
    if 2 * k + 1 >= |s| then Sifted(s, 0, 0)
    else
      var p := BuildTo(s, k + 1);
      var h := SiftDown(p.arr, |s|, k);
      Sifted(h.arr, p.comparisons + h.comparisons, p.sifts + h.sifts)
  }

  /** The second loop after it has handled positions |s| - 1 down to i + 1:
      each one exchanges the root with that position and then runs
      `heapify(position, 0)`. The root exchanges are not among the sifts. */
  function ExtractTo(s: seq<int>, i: nat): (r: Sifted)
    requires 0 < |s| && i < |s|
    ensures |r.arr| == |s|
    decreases |s| - i
  {
    if i == |s| - 1 then Sifted(s, 0, 0)
    else
      var p := ExtractTo(s, i + 1);
      var h := SiftDown(Exchange(p.arr, 0, i + 1), i + 1, 0);
      Sifted(h.arr, p.comparisons + h.comparisons, p.sifts + h.sifts)
  }

  /** The whole heap sort: construction, then extraction down to position 0. */
  function HeapRun(s: seq<int>): (r: Sifted)
    ensures |r.arr| == |s|
    ensures |s| <= 1 ==> r == Sifted(s, 0, 0)
  {
    var b := BuildTo(s, 0);
    if s == [] then b
    else
      var e := ExtractTo(b.arr, 0);
      Sifted(e.arr, b.comparisons + e.comparisons, b.sifts + e.sifts)
  }

  /** Sifting permutes the array and changes only cells in [i, n), and every
      exchange follows a comparison. */
  lemma {:induction false} SiftDownPermutes(s: seq<int>, n: int, i: int)
    requires 0 <= i < n <= |s|
    ensures multiset(SiftDown(s, n, i).arr) == multiset(s)
    ensures Kept(s, SiftDown(s, n, i).arr, i, n - 1)
    ensures SiftDown(s, n, i).sifts <= SiftDown(s, n, i).comparisons
    decreases n - i
  {
    var c := LargestOf(s, n, i);
    if c != i {
      SiftDownPermutes(Exchange(s, i, c), n, c);
      assert Exchange(s, i, c) == Swap(s, i, c);
    }
  }

  /** The heap construction permutes the array. */
  lemma {:induction false} BuildToPermutes(s: seq<int>, k: nat)
    requires 2 * k <= |s|
    ensures multiset(BuildTo(s, k).arr) == multiset(s)
    ensures BuildTo(s, k).sifts <= BuildTo(s, k).comparisons
    decreases |s| - 2 * k
  {
    if 2 * k + 1 < |s| {
      BuildToPermutes(s, k + 1);
      SiftDownPermutes(BuildTo(s, k + 1).arr, |s|, k);
    }
  }

  /** The extraction loop permutes the array. */
  lemma {:induction false} ExtractToPermutes(s: seq<int>, i: nat)
    requires 0 < |s| && i < |s|
    ensures multiset(ExtractTo(s, i).arr) == multiset(s)
    ensures ExtractTo(s, i).sifts <= ExtractTo(s, i).comparisons
    decreases |s| - i
  {
    if i < |s| - 1 {
      ExtractToPermutes(s, i + 1);
      var p := ExtractTo(s, i + 1).arr;
      SiftDownPermutes(Exchange(p, 0, i + 1), i + 1, 0);
      assert Exchange(p, 0, i + 1) == Swap(p, 0, i + 1);
    }
  }

  /** Heap sort permutes its input, and sifting never exchanges more often
      than it compares. */
  lemma HeapRunPermutes(s: seq<int>)
    ensures multiset(HeapRun(s).arr) == multiset(s)
    ensures HeapRun(s).sifts <= HeapRun(s).comparisons
  {
    BuildToPermutes(s, 0);
    if s != [] {
      ExtractToPermutes(BuildTo(s, 0).arr, 0);
    }
  }

  /** One more iteration of the second loop, at position i. */
  lemma ExtractStep(s: seq<int>, i: nat, h: Sifted)
    requires 0 < i < |s| && |ExtractTo(s, i).arr| == |s|
    requires h == SiftDown(Exchange(ExtractTo(s, i).arr, 0, i), i, 0)
    ensures ExtractTo(s, i - 1) == Sifted(h.arr, ExtractTo(s, i).comparisons + h.comparisons, ExtractTo(s, i).sifts + h.sifts)
  {
  }

  /** One more iteration of the first loop, at node k - 1. */
  lemma BuildStep(s: seq<int>, k: nat, h: Sifted)
    requires 0 < k && 2 * k <= |s|
    requires h == SiftDown(BuildTo(s, k).arr, |s|, k - 1)
    ensures BuildTo(s, k - 1) == Sifted(h.arr, BuildTo(s, k).comparisons + h.comparisons, BuildTo(s, k).sifts + h.sifts)
  {
  }

  /** Node i is the only one that may break the heap order on [lo, n), and
      when it has a parent in the heap, its children are no larger than
      that parent. */
  ghost predicate Sifting(s: seq<int>, lo: int, n: int, i: int)
  {
    && 0 <= lo <= i < n <= |s|
    && HeapExcept(s, lo, n, i)
    && (lo < i ==>
         (2 * i + 1 < n ==> s[2 * i + 1] <= s[(i - 1) / 2]) &&
         (2 * i + 2 < n ==> s[2 * i + 2] <= s[(i - 1) / 2]))
  }

  /** Sifting node i down, when it is the only node out of order, restores
      the heap order on [lo, n). */
  lemma {:induction false} SiftDownHeap(s: seq<int>, lo: int, n: int, i: int)
    requires Sifting(s, lo, n, i)
    ensures Heap(SiftDown(s, n, i).arr, lo, n)
    decreases n - i
  {
    var c := LargestOf(s, n, i);
    if c == i {
      assert NodeOk(s, n, i);
    } else {
      var t := Exchange(s, i, c);
      assert t == Swap(s, i, c);
      SiftStep(s, lo, n, i, c);
      SiftDownHeap(t, lo, n, c);
    }
  }

  /** After the first loop has sifted nodes |s|/2 - 1 down to k, the heap
      order holds on [k, |s|); at k = 0 the whole array is a max-heap. */
  lemma {:induction false} BuildToHeap(s: seq<int>, k: nat)
    requires 2 * k <= |s|
    ensures Heap(BuildTo(s, k).arr, k, |s|)
    decreases |s| - 2 * k
  {
    if 2 * k + 1 < |s| {
      BuildToHeap(s, k + 1);
      var p := BuildTo(s, k + 1).arr;
      assert Sifting(p, k, |s|, k);
      SiftDownHeap(p, k, |s|, k);
    }
  }

  /** From a max-heap, after the second loop has handled positions |s| - 1
      down to i + 1: a heap on [0, i], a sorted suffix from i + 1, and no element
      of the heap above an element of the suffix. */
  lemma {:induction false} ExtractToSorted(s: seq<int>, i: nat)
    requires 0 < |s| && i < |s| && Heap(s, 0, |s|)
    ensures Heap(ExtractTo(s, i).arr, 0, i + 1)
    ensures SortedBetween(ExtractTo(s, i).arr, i + 1, |s|) && Parted(ExtractTo(s, i).arr, i + 1)
    decreases |s| - i
  {
    if i < |s| - 1 {
      ExtractToSorted(s, i + 1);
      var p := ExtractTo(s, i + 1).arr;
      var q := Exchange(p, 0, i + 1);
      assert q == Swap(p, 0, i + 1);
      RootExtracted(p, i + 1);
      SiftDownHeap(q, 0, i + 1, 0);
      SiftDownPermutes(q, i + 1, 0);
      PartedKept(q, SiftDown(q, i + 1, 0).arr, i + 1);
    }
  }

  /** The second loop, run to the end on a max-heap, sorts it. */
  lemma ExtractToSortsHeap(s: seq<int>)
    requires 0 < |s| && Heap(s, 0, |s|)
    ensures Sorted(ExtractTo(s, 0).arr)
  {
    ExtractToSorted(s, 0);
    var t := ExtractTo(s, 0).arr;
    forall k, l | 0 <= k < l < |t| ensures t[k] <= t[l] {
      if k > 0 {
        assert SortedBetween(t, 1, |t|);
      }
    }
  }

  /** Heap sort sorts: with `HeapRunPermutes`, its result is the sorted
      permutation of the input. */
  lemma HeapRunSorted(s: seq<int>)
    ensures Sorted(HeapRun(s).arr)
  {
    if |s| > 1 {
      BuildToHeap(s, 0);
      ExtractToSortsHeap(BuildTo(s, 0).arr);
    }
  }

  /** Exchanging node i with its larger child c (larger than a[i]) leaves c
      as the only node that may break the heap order. */
  lemma SiftStep(s: seq<int>, lo: int, n: int, i: int, c: int)
    requires Sifting(s, lo, n, i)
    requires c == 2 * i + 1 || c == 2 * i + 2
    requires c < n && s[i] < s[c]
    requires 2 * i + 1 < n ==> s[2 * i + 1] <= s[c]
    requires 2 * i + 2 < n ==> s[2 * i + 2] <= s[c]
    ensures Sifting(Swap(s, i, c), lo, n, c)
  {
    var t := Swap(s, i, c);
    forall p: nat | lo <= p < n && p != c ensures NodeOk(t, n, p) {
      if p != i && lo < i && p == (i - 1) / 2 {
        assert NodeOk(s, n, p);
      } else if p != i {
        assert NodeOk(s, n, p);
      }
    }
    assert NodeOk(s, n, c);
  }

  /** Moving the root of the heap on [0, i] to position i grows the sorted
      suffix by one and leaves a heap on [0, i) broken only at the root. */
  lemma RootExtracted(s: seq<int>, i: int)
    requires 0 < i < |s|
    requires Heap(s, 0, i + 1) && SortedBetween(s, i + 1, |s|) && Parted(s, i + 1)
    ensures Sifting(Swap(s, 0, i), 0, i, 0)
    ensures SortedBetween(Swap(s, 0, i), i, |s|) && Parted(Swap(s, 0, i), i)
  {
    var t := Swap(s, 0, i);
    forall k | 0 <= k <= i ensures s[k] <= s[0] {
      HeapRootMax(s, i + 1, k);
    }
    forall p: nat | 0 <= p < i && p != 0 ensures NodeOk(t, i, p) {
      assert NodeOk(s, i + 1, p);
    }
  }

  /** Permuting the prefix [0, m) in place keeps it below the suffix. */
  lemma PartedKept(s: seq<int>, t: seq<int>, m: int)
    requires 0 <= m <= |s| && Parted(s, m) && SortedBetween(s, m, |s|)
    requires Kept(s, t, 0, m - 1) && multiset(s) == multiset(t)
    ensures Parted(t, m) && SortedBetween(t, m, |t|)
  {
    RangeMultiset(s, t, 0, m);
    forall k, l | 0 <= k < m <= l < |t| ensures t[k] <= t[l] {
      assert t[k] == t[0..m][k];
      assert t[k] in multiset(s[0..m]);
      var k' :| 0 <= k' < m && s[0..m][k'] == t[k];
      assert s[k'] <= s[l];
    }
  }
}
