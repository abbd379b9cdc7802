/** Shell sort from scripts/sort-algorithms.js (`shellSort`): gapped
    insertion passes over Knuth's gaps 1, 4, 13, 40, ... taken from the
    largest below n down to 1. Elements are shifted with `setValue` rather
    than swapped and read with `getValue`, so neither counter moves. */
module ShellSort {
  import opened Orders
  import opened Accessor

  /** Knuth's gap sequence: 1, 4, 13, 40, ..., each three times the
      previous plus one. */
  function Knuth(k: nat): (g: nat)
    ensures g >= 1
  {
    if k == 0 then 1 else 3 * Knuth(k - 1) + 1
  }

  /** The gap list of `shellSort`: starting from 1, each gap is put in
      front of the list while it is below n. */
  method ShellGaps(n: nat) returns (gaps: seq<nat>)
    ensures forall m :: 0 <= m < |gaps| ==> gaps[m] == Knuth(|gaps| - 1 - m)
    ensures forall m :: 0 <= m < |gaps| ==> gaps[m] < n
    ensures Knuth(|gaps|) >= n
    ensures forall m :: 0 < m < |gaps| ==> gaps[m - 1] == 3 * gaps[m] + 1 && gaps[m] < gaps[m - 1]
    ensures |gaps| == 0 <==> n <= 1
    ensures |gaps| > 0 ==> gaps[|gaps| - 1] == 1
  {
    gaps := [];
    var gap := 1;
    while gap < n
      invariant gap == Knuth(|gaps|)
      invariant forall m :: 0 <= m < |gaps| ==> gaps[m] == Knuth(|gaps| - 1 - m)
      invariant forall m :: 0 <= m < |gaps| ==> gaps[m] < n
      invariant |gaps| > 0 ==> gaps[|gaps| - 1] == 1 && 1 < n
      decreases n - gap
    {
      gaps := [gap] + gaps;
      gap := gap * 3 + 1;
    }
  }

  /** Every pair `gap` apart inside a[..m] is in order. */
  predicate GapSorted(a: seq<int>, gap: nat, m: nat) {
    forall k :: 0 <= k && k + gap < m <= |a| ==> a[k] <= a[k + gap]
  }

  /** With gap 1, gap order over the whole array is order. */
  lemma GapOneSorted(a: seq<int>)
    requires GapSorted(a, 1, |a|)
    ensures Sorted(a)
  {
    forall k | 0 < k < |a|
      ensures a[k - 1] <= a[k]
    {
      assert (k - 1) + 1 < |a|;
    }
    AdjacentOrderedSorted(a);
  }

  /** The state of the inner loop while b[i] (the key) sinks along its
      chain i, i-gap, i-2gap, ...: c holds b with the chain shifted up by
      one gap above the hole j. Every gap pair up to i is in order except
      the two that touch the hole, the key is below the value just above
      the hole, and the values on either side of the hole are in order. */
  predicate Shifting(b: seq<int>, c: seq<int>, gap: nat, i: nat, j: nat, key: int) {
    && 0 < gap && j <= i < |b| == |c| && key == b[i]
    && multiset(c[j := key]) == multiset(b)
    && (forall k :: i < k < |c| ==> c[k] == b[k])
    && HoleOrder(c, gap, i, j, key)
  }

  /** The order part of Shifting. */
  predicate HoleOrder(c: seq<int>, gap: nat, i: nat, j: nat, key: int) {
    && 0 < gap && j <= i < |c|
    && (forall k :: 0 <= k && k + gap <= i && k != j && k + gap != j ==> c[k] <= c[k + gap])
    && (j + gap <= i ==> key < c[j + gap])
    && (gap <= j && j + gap <= i ==> c[j - gap] <= c[j + gap])
  }

  lemma ShiftingStart(b: seq<int>, gap: nat, i: nat)
    requires 0 < gap <= i < |b| && GapSorted(b, gap, i)
    ensures Shifting(b, b, gap, i, i, b[i])
  {
    assert b[i := b[i]] == b;
  }

  /** Moving the value below the hole up by one gap moves the hole down. */
  lemma ShiftingStep(b: seq<int>, c: seq<int>, gap: nat, i: nat, j: nat, key: int)
    requires Shifting(b, c, gap, i, j, key) && gap <= j && key < c[j - gap]
    ensures Shifting(b, c[j := c[j - gap]], gap, i, j - gap, key)
  {
    HoleOrderStep(c, gap, i, j, key);
    HoleMoves(c, j, j - gap, key);
  }

  lemma HoleOrderStep(c: seq<int>, gap: nat, i: nat, j: nat, key: int)
    requires HoleOrder(c, gap, i, j, key) && gap <= j && key < c[j - gap]
    ensures HoleOrder(c[j := c[j - gap]], gap, i, j - gap, key)
  {
    var c' := c[j := c[j - gap]];
    forall k | 0 <= k && k + gap <= i && k != j - gap && k + gap != j - gap
      ensures c'[k] <= c'[k + gap]
    {
      if k != j {
        assert c'[k] == c[k] && c'[k + gap] == c[k + gap];
      }
    }
  }

  /** Copying the value at q into the hole at p and opening the hole at q
      keeps the values, counting the key as sitting in the hole. */
  lemma HoleMoves(c: seq<int>, p: nat, q: nat, key: int)
    requires p < |c| && q < |c| && p != q
    ensures multiset(c[p := c[q]][q := key]) == multiset(c[p := key])
  {
    var x := c[p := key];
    assert c[p := c[q]][q := key] == x[p := x[q]][q := x[p]];
    SwapPermutes(x, p, q);
  }

  /** Dropping the key into the hole completes gap order up to i. */
  lemma ShiftingDone(b: seq<int>, c: seq<int>, gap: nat, i: nat, j: nat, key: int)
    requires Shifting(b, c, gap, i, j, key) && (j < gap || c[j - gap] <= key)
    ensures GapSorted(c[j := key], gap, i + 1)
    ensures multiset(c[j := key]) == multiset(b)
    ensures forall k :: i < k < |c| ==> c[j := key][k] == b[k]
  {
    var x := c[j := key];
    forall k | 0 <= k && k + gap < i + 1 <= |x|
      ensures x[k] <= x[k + gap]
    {
    }
  }

  lemma SwapPermutes(x: seq<int>, p: nat, q: nat)
    requires p < |x| && q < |x|
    ensures multiset(x[p := x[q]][q := x[p]]) == multiset(x)
  {
  }

  /** One iteration of `shellSort`'s middle loop: b[i] sinks along its
      chain until the value one gap below is not larger. */
  method GapInsert(s: Helper, gap: nat, i: nat) returns (t: Helper)
    requires 0 < gap <= i < |s.a| && GapSorted(s.a, gap, i)
    ensures |t.a| == |s.a| && GapSorted(t.a, gap, i + 1)
    ensures multiset(t.a) == multiset(s.a)
    ensures forall k :: i < k < |s.a| ==> t.a[k] == s.a[k]
    ensures t.comparisons == s.comparisons && t.swaps == s.swaps && SortedCells(t) == SortedCells(s)
  {
    var temp := GetValue(s, i);
    t := MarkCurrent(s, i);
    ShiftingStart(s.a, gap, i);
    var j;
    t, j := ShiftChain(s.a, t, gap, i, temp);
    ShiftingDone(s.a, t.a, gap, i, j, temp);
    t := SetValue(t, j, temp);
    t := Unmark(t, i);
  }

  /** The inner loop of `shellSort`: while the value one gap below the hole
      is larger than the key it moves up, and the hole moves down. It stops
      at the first chain value not above the key, or at the chain's end. */
  method ShiftChain(b: seq<int>, s: Helper, gap: nat, i: nat, key: int) returns (t: Helper, j: nat)
    requires Shifting(b, s.a, gap, i, i, key)
    ensures Shifting(b, t.a, gap, i, j, key) && (j < gap || t.a[j - gap] <= key)
    ensures t.comparisons == s.comparisons && t.swaps == s.swaps && SortedCells(t) == SortedCells(s)
  {
    t := s;
    j := i;
    while j >= gap && GetValue(t, j - gap) > key
      invariant Shifting(b, t.a, gap, i, j, key)
      invariant t.comparisons == s.comparisons && t.swaps == s.swaps && SortedCells(t) == SortedCells(s)
    {
      ShiftingStep(b, t.a, gap, i, j, key);
      t := ShiftDown(t, gap, j);
      j := j - gap;
    }
  }

  /** The body of the inner loop: highlight both cells and copy the value
      one gap below up into the hole. */
  method ShiftDown(s: Helper, gap: nat, j: nat) returns (t: Helper)
    requires gap <= j < |s.a|
    ensures t.a == s.a[j := s.a[j - gap]]
    ensures t.comparisons == s.comparisons && t.swaps == s.swaps && SortedCells(t) == SortedCells(s)
  {
    t := MarkComparing(s, j);
    t := MarkComparing(t, j - gap);
    t := SetValue(t, j, GetValue(t, j - gap));
  }

  /** One gapped insertion pass: afterwards every pair `gap` apart is in
      order. */
  method ShellPass(s: Helper, gap: nat) returns (t: Helper)
    requires 0 < gap
    ensures |t.a| == |s.a| && GapSorted(t.a, gap, |t.a|)
    ensures multiset(t.a) == multiset(s.a)
    ensures t.comparisons == s.comparisons && t.swaps == s.swaps && SortedCells(t) == SortedCells(s)
  {
    var n := Length(s);
    t := s;
    var i := gap;
    while i < n
      invariant |t.a| == n && (i <= n || n <= gap) && GapSorted(t.a, gap, if i <= n then i else n)
      invariant multiset(t.a) == multiset(s.a)
      invariant t.comparisons == s.comparisons && t.swaps == s.swaps && SortedCells(t) == SortedCells(s)
    {
      t := GapInsert(t, gap, i);
      i := i + 1;
    }
  }

  /** `shellSort`: one pass per gap, largest first, then every cell is
      marked sorted. The last gap is 1, which leaves the array sorted. */
  method ShellSort(s: Helper) returns (t: Helper)
    ensures Sorted(t.a) && multiset(t.a) == multiset(s.a)
    ensures t.comparisons == s.comparisons && t.swaps == s.swaps
    ensures AllMarkedSorted(t)
  {
    var n := Length(s);
    var gaps := ShellGaps(n);
    t := s;
    var idx := 0;
    while idx < |gaps|
      invariant idx <= |gaps| && |t.a| == n
      invariant 0 < idx ==> GapSorted(t.a, gaps[idx - 1], n)
      invariant multiset(t.a) == multiset(s.a)
      invariant t.comparisons == s.comparisons && t.swaps == s.swaps
    {
      t := ShellPass(t, gaps[idx]);
      idx := idx + 1;
    }
    if 0 < |gaps| {
      GapOneSorted(t.a);
    }
    t := MarkAllSorted(t);
  }
}
