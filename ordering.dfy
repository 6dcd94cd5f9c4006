/** Order facts shared by both sort-engine variants: sortedness, the merge of two
    runs, the max-heap shape used by heap sort, and how bounds and multisets
    survive when a range of an array is permuted. */
module Ordering {

  /** Ascending order, duplicates allowed. */
  predicate Sorted(s: seq<int>)
  {
    forall i, j :: 0 <= i < j < |s| ==> s[i] <= s[j]
  }

  /** s[lo..hi) is in ascending order. */
  predicate SortedBetween(s: seq<int>, lo: int, hi: int)
    requires 0 <= lo && hi <= |s|
  {
    forall k, l :: lo <= k < l < hi ==> s[k] <= s[l]
  }

  /** No element before position m exceeds an element from position m on. */
  predicate Parted(s: seq<int>, m: int)
  {
    forall k, l :: 0 <= k < m <= l < |s| ==> s[k] <= s[l]
  }

  predicate AllBelow(s: seq<int>, bound: int)
  {
    forall k :: 0 <= k < |s| ==> s[k] < bound
  }

  predicate AllAtLeast(s: seq<int>, bound: int)
  {
    forall k :: 0 <= k < |s| ==> bound <= s[k]
  }

  /** The number of comparisons a quadratic sort makes on n elements:
      (n-1) + (n-2) + ... + 1. */
  function Pairs(n: nat): nat
  {
    if n == 0 then 0 else Pairs(n - 1) + n - 1
  }

  lemma {:induction false} PairsClosedForm(n: nat)
    ensures 2 * Pairs(n) == n * (n - 1)
  {
    if n > 0 {
      PairsClosedForm(n - 1);
      assert 2 * Pairs(n) == (n - 1) * (n - 2) + 2 * (n - 1);
    }
  }

  /** Two-run merge that takes from the left run when the heads are equal
      (`<=`), which is what keeps merge sort stable. */
  function Merged(xs: seq<int>, ys: seq<int>): (r: seq<int>)
    ensures |r| == |xs| + |ys|
    decreases |xs| + |ys|
  {
    if xs == [] then ys
    else if ys == [] then xs
    else if xs[0] <= ys[0] then [xs[0]] + Merged(xs[1..], ys)
    else [ys[0]] + Merged(xs, ys[1..])
  }

  /** The merge is a permutation of the two runs together. */
  lemma {:induction false} MergedMultiset(xs: seq<int>, ys: seq<int>)
    ensures multiset(Merged(xs, ys)) == multiset(xs) + multiset(ys)
    decreases |xs| + |ys|
  {
    if xs != [] && ys != [] {
      if xs[0] <= ys[0] {
        var t := Merged(xs[1..], ys);
        MergedMultiset(xs[1..], ys);
        assert multiset(Merged(xs, ys)) == multiset{xs[0]} + multiset(t);
        assert xs == [xs[0]] + xs[1..];
      } else {
        var t := Merged(xs, ys[1..]);
        MergedMultiset(xs, ys[1..]);
        assert multiset(Merged(xs, ys)) == multiset{ys[0]} + multiset(t);
        assert ys == [ys[0]] + ys[1..];
      }
    }
  }

  lemma {:induction false} MergedSorted(xs: seq<int>, ys: seq<int>)
    requires Sorted(xs) && Sorted(ys)
    ensures Sorted(Merged(xs, ys))
    decreases |xs| + |ys|
  {
    if xs != [] && ys != [] {
      if xs[0] <= ys[0] {
        MergedSorted(xs[1..], ys);
        HeadSorted(xs[0], xs[1..], ys);
      } else {
        MergedSorted(xs, ys[1..]);
        HeadSorted(ys[0], xs, ys[1..]);
      }
    }
  }

  /** A head no larger than anything in the two runs keeps their sorted merge sorted. */
  lemma HeadSorted(x: int, xs: seq<int>, ys: seq<int>)
    requires Sorted(Merged(xs, ys)) && AllAtLeast(xs + ys, x)
    ensures Sorted([x] + Merged(xs, ys))
  {
    var tail := Merged(xs, ys);
    MergedMultiset(xs, ys);
    AtLeastPermuted(xs + ys, tail, x);
  }

  /** When the whole left run already precedes the right run, the merge takes
      the left run first, ties included: this is the left preference of `<=`. */
  lemma {:induction false} MergedInOrder(xs: seq<int>, ys: seq<int>)
    requires forall i, j :: 0 <= i < |xs| && 0 <= j < |ys| ==> xs[i] <= ys[j]
    ensures Merged(xs, ys) == xs + ys
    decreases |xs|
  {
    if xs != [] && ys != [] {
      MergedInOrder(xs[1..], ys);
      assert xs == [xs[0]] + xs[1..];
    }
  }

  /** Exchange of positions i and j (the destructuring swap of the engines). */
  function Swap(s: seq<int>, i: nat, j: nat): (r: seq<int>)
    requires i < |s| && j < |s|
    ensures |r| == |s| && multiset(r) == multiset(s)
    ensures r[i] == s[j] && r[j] == s[i]
    ensures forall k :: 0 <= k < |s| && k != i && k != j ==> r[k] == s[k]
  {
    s[i := s[j]][j := s[i]]
  }

  // ---- bounds and multisets under permutation of a range ----

  /** s and t agree outside [lo, hi]. */
  ghost predicate Kept(s: seq<int>, t: seq<int>, lo: int, hi: int)
  {
    |s| == |t| && forall k :: 0 <= k < |s| && !(lo <= k <= hi) ==> s[k] == t[k]
  }

  lemma BelowPermuted(s: seq<int>, t: seq<int>, bound: int)
    requires multiset(s) == multiset(t) && AllBelow(s, bound)
    ensures AllBelow(t, bound)
  {
    forall k | 0 <= k < |t| ensures t[k] < bound {
      assert t[k] in multiset(s);
    }
  }

  lemma AtLeastPermuted(s: seq<int>, t: seq<int>, bound: int)
    requires multiset(s) == multiset(t) && AllAtLeast(s, bound)
    ensures AllAtLeast(t, bound)
  {
    forall k | 0 <= k < |t| ensures bound <= t[k] {
      assert t[k] in multiset(s);
    }
  }

  /** Two arrays that agree outside [lo, hi) and hold the same multiset hold the
      same multiset inside [lo, hi). */
  lemma RangeMultiset(s: seq<int>, t: seq<int>, lo: int, hi: int)
    requires 0 <= lo <= hi <= |s| == |t|
    requires multiset(s) == multiset(t)
    requires forall k :: 0 <= k < |s| && !(lo <= k < hi) ==> s[k] == t[k]
    ensures multiset(s[lo..hi]) == multiset(t[lo..hi])
  {
    assert s == s[..lo] + s[lo..hi] + s[hi..];
    assert t == t[..lo] + t[lo..hi] + t[hi..];
    assert s[..lo] == t[..lo];
    assert s[hi..] == t[hi..];
    assert multiset(s) == multiset(s[..lo]) + multiset(s[lo..hi]) + multiset(s[hi..]);
    assert multiset(t) == multiset(t[..lo]) + multiset(t[lo..hi]) + multiset(t[hi..]);
    assert multiset(s[lo..hi]) == multiset(s) - multiset(s[..lo]) - multiset(s[hi..]);
    assert multiset(t[lo..hi]) == multiset(t) - multiset(t[..lo]) - multiset(t[hi..]);
  }

  /** Replacing the range [lo, hi) by a permutation of itself keeps the
      multiset of the whole array. */
  lemma SpliceMultiset(s: seq<int>, t: seq<int>, lo: int, hi: int)
    requires 0 <= lo <= hi <= |s| == |t|
    requires multiset(s[lo..hi]) == multiset(t[lo..hi])
    requires forall k :: 0 <= k < |s| && !(lo <= k < hi) ==> s[k] == t[k]
    ensures multiset(s) == multiset(t)
  {
    assert s == s[..lo] + s[lo..hi] + s[hi..];
    assert t == t[..lo] + t[lo..hi] + t[hi..];
    assert s[..lo] == t[..lo];
    assert s[hi..] == t[hi..];
  }

  // ---- max-heap over the index range [lo, n) ----

  /** Node p is no smaller than those of its children that lie below n. */
  predicate NodeOk(s: seq<int>, n: int, p: nat)
    requires n <= |s|
  {
    (2 * p + 1 < n ==> s[2 * p + 1] <= s[p]) &&
    (2 * p + 2 < n ==> s[2 * p + 2] <= s[p])
  }

  /** Every node in [lo, n) except `hole` satisfies the heap order. */
  predicate HeapExcept(s: seq<int>, lo: nat, n: int, hole: int)
    requires n <= |s|
  {
    forall p: nat :: lo <= p < n && p != hole ==> NodeOk(s, n, p)
  }

  predicate Heap(s: seq<int>, lo: nat, n: int)
    requires n <= |s|
  {
    HeapExcept(s, lo, n, -1)
  }

  /** In a max-heap the root is the largest element. */
  lemma {:induction false} HeapRootMax(s: seq<int>, n: int, k: nat)
    requires n <= |s| && Heap(s, 0, n) && k < n
    ensures s[k] <= s[0]
  {
    if k > 0 {
      var parent := (k - 1) / 2;
      HeapRootMax(s, n, parent);
      assert NodeOk(s, n, parent);
    }
  }

  // ---- inversions: what an adjacent exchange removes ----

  /** The number of elements of s smaller than x. */
  function Smaller(x: int, s: seq<int>): nat
  {
    if s == [] then 0 else (if s[0] < x then 1 else 0) + Smaller(x, s[1..])
  }

  /** The number of pairs i < j with s[i] > s[j]. */
  function Inversions(s: seq<int>): nat
  {
    if s == [] then 0 else Smaller(s[0], s[1..]) + Inversions(s[1..])
  }

  /** Counting one more element at the end. */
  lemma {:induction false} SmallerAppended(x: int, s: seq<int>, v: int)
    ensures Smaller(x, s + [v]) == Smaller(x, s) + (if v < x then 1 else 0)
  {
    if s != [] {
      SmallerAppended(x, s[1..], v);
      assert (s + [v])[1..] == s[1..] + [v];
    }
  }

  lemma {:induction false} SmallerSwapped(x: int, s: seq<int>, j: nat)
    requires j + 1 < |s|
    ensures Smaller(x, s[j := s[j + 1]][j + 1 := s[j]]) == Smaller(x, s)
  {
    var t := s[j := s[j + 1]][j + 1 := s[j]];
    if j == 0 {
      assert t[2..] == s[2..];
      assert t[1..][1..] == t[2..] && s[1..][1..] == s[2..];
    } else {
      SmallerSwapped(x, s[1..], j - 1);
      assert t[1..] == s[1..][j - 1 := s[j + 1]][j := s[j]];
    }
  }

  /** Exchanging an adjacent out-of-order pair removes exactly one inversion. */
  lemma {:induction false} InversionsSwapped(s: seq<int>, j: nat)
    requires j + 1 < |s| && s[j + 1] < s[j]
    ensures Inversions(s[j := s[j + 1]][j + 1 := s[j]]) + 1 == Inversions(s)
  {
    var t := s[j := s[j + 1]][j + 1 := s[j]];
    if j == 0 {
      assert t[2..] == s[2..];
      assert t[1..][1..] == t[2..] && s[1..][1..] == s[2..];
    } else {
      InversionsSwapped(s[1..], j - 1);
      assert t[1..] == s[1..][j - 1 := s[j + 1]][j := s[j]];
      SmallerSwapped(s[0], s[1..], j - 1);
    }
  }

  lemma {:induction false} SortedNoInversions(s: seq<int>)
    requires Sorted(s)
    ensures Inversions(s) == 0
  {
    if s != [] {
      SortedNoInversions(s[1..]);
      NoneSmaller(s[0], s[1..]);
    }
  }

  lemma {:induction false} NoneSmaller(x: int, s: seq<int>)
    requires forall k :: 0 <= k < |s| ==> x <= s[k]
    ensures Smaller(x, s) == 0
  {
    if s != [] {
      NoneSmaller(x, s[1..]);
    }
  }

  /** An out-of-order pair is an inversion, so an unsorted sequence has one. */
  lemma {:induction false} UnsortedInversions(s: seq<int>)
    requires !Sorted(s)
    ensures Inversions(s) > 0
  {
    var i, j :| 0 <= i < j < |s| && s[i] > s[j];
    PairInversion(s, i, j);
  }

  lemma {:induction false} PairInversion(s: seq<int>, i: nat, j: nat)
    requires i < j < |s| && s[j] < s[i]
    ensures Inversions(s) > 0
  {
    if i == 0 {
      SmallerAt(s[0], s[1..], j - 1);
    } else {
      PairInversion(s[1..], i - 1, j - 1);
    }
  }

  lemma {:induction false} SmallerAt(x: int, s: seq<int>, k: nat)
    requires k < |s| && s[k] < x
    ensures Smaller(x, s) > 0
  {
    if k > 0 {
      SmallerAt(x, s[1..], k - 1);
    }
  }

  // ---- drops: the insertion rounds whose key goes all the way to the front ----

  /** s[i] is smaller than every element before it. */
  predicate BelowAll(s: seq<int>, i: nat)
    requires i < |s|
  {
    forall k :: 0 <= k < i ==> s[i] < s[k]
  }

  /** The number of positions 1 <= i < m whose element is smaller than every
      element before it. */
  function DropsTo(s: seq<int>, m: nat): (d: nat)
    requires m <= |s|
    ensures d <= (if m == 0 then 0 else m - 1)
  {
    if m <= 1 then 0 else DropsTo(s, m - 1) + (if BelowAll(s, m - 1) then 1 else 0)
  }

  function Drops(s: seq<int>): nat
  {
    DropsTo(s, |s|)
  }

  /** In a sorted sequence no element is below the first one. */
  lemma {:induction false} SortedNoDrops(s: seq<int>, m: nat)
    requires m <= |s| && Sorted(s)
    ensures DropsTo(s, m) == 0
  {
    if m > 1 {
      SortedNoDrops(s, m - 1);
      assert s[0] <= s[m - 1];
    }
  }

  /** In a strictly descending sequence every element after the first is a
      drop. */
  lemma {:induction false} DescendingAllDrops(s: seq<int>, m: nat)
    requires m <= |s|
    requires forall i, j :: 0 <= i < j < |s| ==> s[i] > s[j]
    ensures DropsTo(s, m) == if m == 0 then 0 else m - 1
  {
    if m > 1 {
      DescendingAllDrops(s, m - 1);
      assert BelowAll(s, m - 1);
    }
  }

  /** Whether s[i] is below everything before it depends only on the
      multiset of the prefix. */
  lemma BelowAllPermuted(s: seq<int>, t: seq<int>, i: nat)
    requires i < |s| == |t| && multiset(s) == multiset(t) && s[i..] == t[i..]
    ensures BelowAll(s, i) <==> BelowAll(t, i)
  {
    assert s == s[..i] + s[i..] && t == t[..i] + t[i..];
    assert multiset(s) == multiset(s[..i]) + multiset(s[i..]);
    assert multiset(t) == multiset(t[..i]) + multiset(t[i..]);
    assert multiset(s[..i]) == multiset(s) - multiset(s[i..]);
    assert multiset(t[..i]) == multiset(t) - multiset(t[i..]);
    assert s[i] == s[i..][0] == t[i..][0] == t[i];
    BelowPrefix(s, t, i);
    BelowPrefix(t, s, i);
  }

  lemma BelowPrefix(s: seq<int>, t: seq<int>, i: nat)
    requires i < |s| == |t| && multiset(s[..i]) == multiset(t[..i]) && s[i] == t[i]
    ensures BelowAll(s, i) ==> BelowAll(t, i)
  {
    if BelowAll(s, i) {
      forall k | 0 <= k < i ensures t[i] < t[k] {
        assert t[..i][k] == t[k];
        assert t[k] in multiset(s[..i]);
        var m :| 0 <= m < i && s[..i][m] == t[k];
      }
    }
  }
}
