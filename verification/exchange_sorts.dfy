/** Cocktail, gnome and comb sort from scripts/sort-algorithms.js. The run
    controller never dispatches them, but they are part of the algorithm
    engine and sort through the same accessor. */
module ExchangeSorts {
  import opened Orders
  import opened Accessor
  import opened ElementarySorts

  /** One right-to-left pass of adjacent compare-and-swap over the pairs
      (j, j+1), hi > j >= lo: the backward pass of `cocktailSort`. It carries
      the minimum of a[lo..hi] to position lo and only permutes that
      segment. */
  method SinkPass(s: Helper, lo: nat, hi: nat) returns (t: Helper, swapped: bool)
    requires lo <= hi < |s.a|
    ensures |t.a| == |s.a| && multiset(t.a) == multiset(s.a)
    ensures forall k :: 0 <= k < |s.a| && !(lo <= k <= hi) ==> t.a[k] == s.a[k]
    ensures forall k :: lo <= k <= hi ==> t.a[lo] <= t.a[k]
    ensures t.comparisons == s.comparisons + (hi - lo)
    ensures t.swaps + Inversions(t.a) == s.swaps + Inversions(s.a)
    ensures swapped <==> t.swaps > s.swaps
    ensures !swapped ==> t.a == s.a && InOrderBetween(s.a, lo, hi)
    ensures SortedCells(t) == SortedCells(s)
  {
    t := s;
    swapped := false;
    var j := hi;
    while j > lo
      invariant SinkState(s, t, lo, hi, j, swapped)
    {
      t, swapped := SinkStep(s, t, lo, hi, j, swapped);
      j := j - 1;
    }
  }

  /** Everything SinkPass knows after the pairs from j on: the scan state,
      the values, the counters and the swap flag. */
  predicate SinkState(s: Helper, t: Helper, lo: int, hi: int, j: int, swapped: bool) {
    && SinkScan(s.a, t.a, lo, hi, j)
    && multiset(t.a) == multiset(s.a)
    && t.comparisons == s.comparisons + (hi - j)
    && t.swaps + Inversions(t.a) == s.swaps + Inversions(s.a)
    && (swapped <==> t.swaps > s.swaps)
    && (!swapped ==> t.a == s.a && InOrderBetween(s.a, j, hi))
    && SortedCells(t) == SortedCells(s)
  }

  /** One iteration of the backward pass: compare the pair (j-1, j) and
      exchange it when inverted. */
  method SinkStep(s: Helper, t: Helper, lo: int, hi: int, j: int, swapped: bool)
    returns (t': Helper, swapped': bool)
    requires SinkState(s, t, lo, hi, j, swapped) && lo < j
    ensures SinkState(s, t', lo, hi, j - 1, swapped')
  {
    var exchanged;
    SinkScanStep(s.a, t.a, lo, hi, j);
    t', exchanged := CompareExchange(t, j - 1, j);
    swapped' := swapped;
    if exchanged {
      SwapAdjacentInversions(t.a, j - 1);
      swapped' := true;
    }
  }

  /** The state of a backward pass over [lo, hi] after the pairs from j on:
      cells outside the segment untouched, a[j] the minimum of a[j..hi]. */
  predicate SinkScan(s: seq<int>, a: seq<int>, lo: int, hi: int, j: int) {
    && 0 <= lo <= j <= hi < |s| == |a|
    && (forall k :: 0 <= k < |s| && !(lo <= k <= hi) ==> a[k] == s[k])
    && (forall k :: j <= k <= hi ==> a[j] <= a[k])
  }

  lemma SinkScanStep(s: seq<int>, a: seq<int>, lo: int, hi: int, j: int)
    requires SinkScan(s, a, lo, hi, j) && lo < j
    ensures SinkScan(s, if a[j - 1] > a[j] then a[j - 1 := a[j]][j := a[j - 1]] else a, lo, hi, j - 1)
    ensures a == s && a[j - 1] <= a[j] && InOrderBetween(s, j, hi) ==> InOrderBetween(s, j - 1, hi)
  {
  }

  /** What `cocktailSort` knows between rounds: the cells before `start` are
      in order and bounded by the rest, the cells after `end` are in order
      and bound everything before them. */
  predicate CocktailFrame(a: seq<int>, start: int, end: int) {
    && 0 <= start <= end + 1 <= |a|
    && LowSettled(a, start)
    && HighSettled(a, end)
  }

  /** The low half of CocktailFrame: a[..start] is in order and a[start-1]
      lies between it and the rest. */
  predicate LowSettled(a: seq<int>, start: int)
    requires 0 <= start <= |a|
  {
    && (forall k :: 0 < k <= start && k < |a| ==> a[k - 1] <= a[k])
    && (0 < start ==> forall p :: 0 <= p < start ==> a[p] <= a[start - 1])
    && (0 < start ==> forall q :: start <= q < |a| ==> a[start - 1] <= a[q])
  }

  /** The high half of CocktailFrame: a[end+1..] is in order and a[end+1]
      lies between the rest and it. */
  predicate HighSettled(a: seq<int>, end: int)
    requires -1 <= end < |a|
  {
    && (forall k :: end < k < |a| && 0 < k ==> a[k - 1] <= a[k])
    && (end + 1 < |a| ==> forall q :: end < q < |a| ==> a[end + 1] <= a[q])
    && (end + 1 < |a| ==> forall p :: 0 <= p <= end ==> a[p] <= a[end + 1])
  }

  /** b rearranges the window a[start..end] of a frame and leaves the rest
      alone, so every window cell of b still lies between the two settled
      neighbours of the window. */
  predicate Rearranged(a: seq<int>, b: seq<int>, start: nat, end: nat) {
    && start <= end < |a| == |b|
    && (forall k :: 0 <= k < |a| && !(start <= k <= end) ==> b[k] == a[k])
    && (0 < start ==> forall k :: start <= k <= end ==> a[start - 1] <= b[k])
    && (end + 1 < |a| ==> forall k :: start <= k <= end ==> b[k] <= a[end + 1])
  }

  lemma WindowRearranged(a: seq<int>, b: seq<int>, start: nat, end: nat)
    requires CocktailFrame(a, start, end) && start <= end && |b| == |a|
    requires forall k :: 0 <= k < |a| && !(start <= k <= end) ==> b[k] == a[k]
    requires multiset(b[start..end + 1]) == multiset(a[start..end + 1])
    ensures Rearranged(a, b, start, end)
  {
    if 0 < start {
      SegmentAtLeast(a, b, start, end, a[start - 1]);
    }
    if end + 1 < |a| {
      SegmentAtMost(a, b, start, end, a[end + 1]);
    }
  }

  /** A lower bound of a[lo..hi] bounds a rearrangement of that segment. */
  lemma SegmentAtLeast(a: seq<int>, b: seq<int>, lo: nat, hi: nat, bound: int)
    requires lo <= hi < |a| == |b| && multiset(b[lo..hi + 1]) == multiset(a[lo..hi + 1])
    requires forall k :: lo <= k <= hi ==> bound <= a[k]
    ensures forall k :: lo <= k <= hi ==> bound <= b[k]
  {
    assert forall k :: lo <= k <= hi ==> a[k] == a[lo..hi + 1][k - lo];
    PermutationBoundedBelow(a[lo..hi + 1], b[lo..hi + 1], bound);
    assert forall k :: lo <= k <= hi ==> b[k] == b[lo..hi + 1][k - lo];
  }

  /** An upper bound of a[lo..hi] bounds a rearrangement of that segment. */
  lemma SegmentAtMost(a: seq<int>, b: seq<int>, lo: nat, hi: nat, bound: int)
    requires lo <= hi < |a| == |b| && multiset(b[lo..hi + 1]) == multiset(a[lo..hi + 1])
    requires forall k :: lo <= k <= hi ==> a[k] <= bound
    ensures forall k :: lo <= k <= hi ==> b[k] <= bound
  {
    assert forall k :: lo <= k <= hi ==> a[k] == a[lo..hi + 1][k - lo];
    PermutationBoundedAbove(a[lo..hi + 1], b[lo..hi + 1], bound);
    assert forall k :: lo <= k <= hi ==> b[k] == b[lo..hi + 1][k - lo];
  }

  /** A forward pass that permutes a[start..end] and leaves its maximum at
      `end` settles that cell. */
  lemma CocktailForward(a: seq<int>, b: seq<int>, start: nat, end: nat)
    requires CocktailFrame(a, start, end) && start <= end && |b| == |a|
    requires forall k :: 0 <= k < |a| && !(start <= k <= end) ==> b[k] == a[k]
    requires multiset(b[start..end + 1]) == multiset(a[start..end + 1])
    requires forall k :: start <= k <= end ==> b[k] <= b[end]
    ensures CocktailFrame(b, start, end - 1)
  {
    WindowRearranged(a, b, start, end);
    LowKept(a, b, start, end);
    HighGrows(a, b, start, end);
  }

  lemma LowKept(a: seq<int>, b: seq<int>, start: nat, end: nat)
    requires CocktailFrame(a, start, end) && Rearranged(a, b, start, end)
    ensures LowSettled(b, start)
  {
  }

  lemma HighGrows(a: seq<int>, b: seq<int>, start: nat, end: nat)
    requires CocktailFrame(a, start, end) && Rearranged(a, b, start, end)
    requires forall k :: start <= k <= end ==> b[k] <= b[end]
    ensures HighSettled(b, end - 1)
  {
  }

  /** A backward pass that permutes a[start..end] and leaves its minimum at
      `start` settles that cell. */
  lemma CocktailBackward(a: seq<int>, b: seq<int>, start: nat, end: nat)
    requires CocktailFrame(a, start, end) && start <= end && |b| == |a|
    requires forall k :: 0 <= k < |a| && !(start <= k <= end) ==> b[k] == a[k]
    requires multiset(b[start..end + 1]) == multiset(a[start..end + 1])
    requires forall k :: start <= k <= end ==> b[start] <= b[k]
    ensures CocktailFrame(b, start + 1, end)
  {
    WindowRearranged(a, b, start, end);
    LowGrows(a, b, start, end);
    HighKept(a, b, start, end);
  }

  lemma LowGrows(a: seq<int>, b: seq<int>, start: nat, end: nat)
    requires CocktailFrame(a, start, end) && Rearranged(a, b, start, end)
    requires forall k :: start <= k <= end ==> b[start] <= b[k]
    ensures LowSettled(b, start + 1)
  {
  }

  lemma HighKept(a: seq<int>, b: seq<int>, start: nat, end: nat)
    requires CocktailFrame(a, start, end) && Rearranged(a, b, start, end)
    ensures HighSettled(b, end)
  {
  }

  /** A pass over a[start..end] that found every pair in order completes the
      order of the whole array. */
  lemma CocktailDone(a: seq<int>, start: int, end: int)
    requires CocktailFrame(a, start, end) && InOrderBetween(a, start, end)
    ensures Sorted(a)
  {
    assert AdjacentOrdered(a);
    AdjacentOrderedSorted(a);
  }

  /** `cocktailSort`: alternating forward and backward bubble passes over a
      shrinking window, until a pass makes no swap. Every swap exchanges an
      adjacent inverted pair, so exactly as many swaps as inversions are
      counted. */
  method CocktailSort(s: Helper) returns (t: Helper)
    ensures Sorted(t.a) && multiset(t.a) == multiset(s.a)
    ensures t.comparisons >= s.comparisons
    ensures t.swaps == s.swaps + Inversions(s.a)
    ensures AllMarkedSorted(t)
  {
    var n := Length(s);
    t := s;
    var swapped := true;
    var start := 0;
    var end := n as int - 1;
    while swapped
      invariant |t.a| == n && multiset(t.a) == multiset(s.a)
      invariant CocktailFrame(t.a, start, end)
      invariant !swapped ==> Sorted(t.a)
      invariant t.comparisons >= s.comparisons
      invariant t.swaps + Inversions(t.a) == s.swaps + Inversions(s.a)
      decreases Inversions(t.a)
    {
      t, swapped := ForwardRound(t, start, end);
      if !swapped {
        break;
      }
      end := end - 1;
      t, swapped := BackwardRound(t, start, end);
      start := start + 1;
    }
    InversionsZeroIffSorted(t.a);
    t := MarkAllSorted(t);
  }

  /** The forward half of an iteration of `cocktailSort`'s outer loop: a
      pass over [start, end] that either finds the array sorted or settles
      cell `end`. */
  method ForwardRound(s: Helper, start: nat, end: int) returns (t: Helper, swapped: bool)
    requires CocktailFrame(s.a, start, end)
    ensures |t.a| == |s.a| && multiset(t.a) == multiset(s.a)
    ensures t.comparisons >= s.comparisons
    ensures t.swaps + Inversions(t.a) == s.swaps + Inversions(s.a)
    ensures !swapped ==> t.a == s.a && Sorted(t.a)
    ensures swapped ==> t.swaps > s.swaps && start < end && CocktailFrame(t.a, start, end - 1)
    ensures SortedCells(t) == SortedCells(s)
  {
    t, swapped := BubblePass(s, start, end);
    if !swapped {
      CocktailDone(t.a, start, end);
    } else {
      SegmentMultiset(s.a, t.a, start, end + 1);
      CocktailForward(s.a, t.a, start, end);
    }
  }

  /** The backward half: a pass over [start, end] that settles cell `start`
      and, when it makes no swap, finds the array sorted. */
  method BackwardRound(s: Helper, start: nat, end: nat) returns (t: Helper, swapped: bool)
    requires CocktailFrame(s.a, start, end) && start <= end
    ensures |t.a| == |s.a| && multiset(t.a) == multiset(s.a)
    ensures t.comparisons >= s.comparisons && t.swaps >= s.swaps
    ensures t.swaps + Inversions(t.a) == s.swaps + Inversions(s.a)
    ensures CocktailFrame(t.a, start + 1, end)
    ensures !swapped ==> Sorted(t.a)
    ensures SortedCells(t) == SortedCells(s)
  {
    t, swapped := SinkPass(s, start, end);
    SegmentMultiset(s.a, t.a, start, end + 1);
    CocktailBackward(s.a, t.a, start, end);
    if !swapped {
      CocktailDone(s.a, start, end);
    }
  }

  /** `gnomeSort`: walks right past ordered neighbours and steps back after
      exchanging an inverted pair. Every swap exchanges an adjacent inverted
      pair, so exactly as many swaps as inversions are counted, each after
      a comparison that answered true. */
  method GnomeSort(s: Helper) returns (t: Helper)
    ensures Sorted(t.a) && multiset(t.a) == multiset(s.a)
    ensures t.swaps == s.swaps + Inversions(s.a)
    ensures t.comparisons >= s.comparisons + Inversions(s.a)
    ensures AllMarkedSorted(t)
  {
    var n := Length(s);
    t := s;
    var index := 0;
    while index < n
      invariant index <= n && |t.a| == n && multiset(t.a) == multiset(s.a)
      invariant forall k :: 0 < k < index ==> t.a[k - 1] <= t.a[k]
      invariant t.swaps + Inversions(t.a) == s.swaps + Inversions(s.a)
      invariant t.comparisons - s.comparisons >= t.swaps - s.swaps >= 0
      decreases Inversions(t.a), n - index
    {
      t, index := GnomeStep(t, index);
    }
    AdjacentOrderedSorted(t.a);
    InversionsZeroIffSorted(t.a);
    t := MarkAllSorted(t);
  }

  /** One iteration of `gnomeSort`'s loop: at the front, or past an ordered
      pair, the gnome steps forward; after an inverted pair it exchanges it
      and steps back. */
  method GnomeStep(s: Helper, index: nat) returns (t: Helper, next: nat)
    requires index < |s.a|
    requires forall k :: 0 < k < index ==> s.a[k - 1] <= s.a[k]
    ensures |t.a| == |s.a| && multiset(t.a) == multiset(s.a)
    ensures next <= |s.a| && forall k :: 0 < k < next ==> t.a[k - 1] <= t.a[k]
    ensures || (next == index + 1 && t.a == s.a && t.swaps == s.swaps)
            || (next + 1 == index && t.swaps == s.swaps + 1 && Inversions(t.a) + 1 == Inversions(s.a))
    ensures t.comparisons == s.comparisons + (if index == 0 then 0 else 1)
  {
    t := s;
    if index == 0 {
      next := index + 1;
    } else {
      var r := Compare(t, index - 1, index);
      t := r.1;
      if r.0 {
        t := StepBack(t, index);
        next := index - 1;
      } else {
        next := index + 1;
      }
    }
  }

  /** `gnomeSort`'s `swap(index, index - 1)` on an inverted pair: one swap
      counted, one inversion removed. */
  method StepBack(s: Helper, index: nat) returns (t: Helper)
    requires 0 < index < |s.a| && s.a[index - 1] > s.a[index]
    ensures t.a == s.a[index - 1 := s.a[index]][index := s.a[index - 1]]
    ensures multiset(t.a) == multiset(s.a)
    ensures t.comparisons == s.comparisons && t.swaps == s.swaps + 1
    ensures Inversions(t.a) + 1 == Inversions(s.a)
  {
    SwapAdjacentInversions(s.a, index - 1);
    t := Swap(s, index, index - 1);
    assert t.a == s.a[index - 1 := s.a[index]][index := s.a[index - 1]];
  }

  /** The integer form of `Math.floor(gap / 1.3)`: gap * 10 / 13. Every gap
      above 1 shrinks. */
  function CombShrink(gap: nat): (g: nat)
    ensures 1 < gap ==> g < gap
    ensures 13 * g <= 10 * gap < 13 * (g + 1)
  {
    gap * 10 / 13
  }

  /** One pass of `combSort` with the given gap: compares each i with
      i + gap and exchanges the inverted ones. A pass without a swap found
      every such pair in order; with gap 1 every swap removes exactly one
      inversion. */
  method CombPass(s: Helper, gap: nat) returns (t: Helper, swapped: bool)
    requires 1 <= gap
    ensures |t.a| == |s.a| && multiset(t.a) == multiset(s.a)
    ensures t.comparisons == s.comparisons + (if gap < |s.a| then |s.a| - gap else 0)
    ensures t.swaps >= s.swaps && (swapped <==> t.swaps > s.swaps)
    ensures !swapped ==> t.a == s.a && forall k :: 0 <= k < |s.a| - gap ==> s.a[k] <= s.a[k + gap]
    ensures gap == 1 ==> t.swaps + Inversions(t.a) == s.swaps + Inversions(s.a)
    ensures SortedCells(t) == SortedCells(s)
  {
    var n := Length(s);
    t := s;
    swapped := false;
    var i := 0;
    while i + gap < n
      invariant (if gap < n then i <= n - gap else i == 0) && |t.a| == n
      invariant multiset(t.a) == multiset(s.a)
      invariant t.comparisons == s.comparisons + i
      invariant t.swaps >= s.swaps && (swapped <==> t.swaps > s.swaps)
      invariant !swapped ==> t.a == s.a && forall k :: 0 <= k < i ==> s.a[k] <= s.a[k + gap]
      invariant gap == 1 ==> t.swaps + Inversions(t.a) == s.swaps + Inversions(s.a)
      invariant SortedCells(t) == SortedCells(s)
    {
      ghost var before := t.a;
      var exchanged;
      t, exchanged := CompareExchange(t, i, i + gap);
      if exchanged {
        if gap == 1 {
          SwapAdjacentInversions(before, i);
        }
        swapped := true;
      }
      i := i + 1;
    }
  }

  /** `combSort`: passes with a gap shrinking by 10/13 down to 1, then gap-1
      passes until one makes no swap. */
  method CombSort(s: Helper) returns (t: Helper)
    ensures Sorted(t.a) && multiset(t.a) == multiset(s.a)
    ensures t.swaps >= s.swaps && t.comparisons >= s.comparisons
    ensures AllMarkedSorted(t)
  {
    var n := Length(s);
    t := s;
    var gap := n;
    var sorted := false;
    while !sorted
      invariant |t.a| == n && multiset(t.a) == multiset(s.a)
      invariant sorted ==> Sorted(t.a)
      invariant t.swaps >= s.swaps && t.comparisons >= s.comparisons
      decreases if gap > 1 then gap else 1, Inversions(t.a), if sorted then 0 else 1
    {
      gap := CombShrink(gap);
      if gap <= 1 {
        gap := 1;
        sorted := true;
      }
      var swapped;
      t, swapped := CombPass(t, gap);
      if swapped {
        sorted := false;
      } else if sorted {
        assert AdjacentOrdered(t.a);
        AdjacentOrderedSorted(t.a);
      }
    }
    t := MarkAllSorted(t);
  }
}
