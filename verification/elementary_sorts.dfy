/** Bubble, selection and insertion sort from scripts/sort-algorithms.js,
    written against the accessor only. Each ends with every cell marked
    sorted and the values a sorted permutation of the input; the counters
    follow the exact pattern of accessor calls each algorithm makes. */
module ElementarySorts {
  import opened Orders
  import opened Accessor

  /** `bubbleSort`: n-1 passes of adjacent compare-and-swap over a shrinking
      prefix. Every pair of a pass is compared, so exactly n(n-1)/2
      comparisons are counted; each swap removes exactly one inversion. */
  method BubbleSort(s: Helper) returns (t: Helper)
    ensures Sorted(t.a) && multiset(t.a) == multiset(s.a)
    ensures t.comparisons == s.comparisons + |s.a| * (|s.a| - 1) / 2
    ensures t.swaps == s.swaps + Inversions(s.a)
    ensures AllMarkedSorted(t)
  {
    var n := Length(s);
    t := s;
    var i := 0;
    while i + 1 < n
      invariant i <= n && (n > 0 ==> i < n)
      invariant |t.a| == n && multiset(t.a) == multiset(s.a)
      invariant SettledSuffix(t.a, i)
      invariant t.comparisons == s.comparisons + ScanTotal(n, i)
      invariant t.swaps + Inversions(t.a) == s.swaps + Inversions(s.a)
      invariant forall k :: n - i <= k < n ==> k in SortedCells(t)
    {
      t := BubbleRound(t, i);
      i := i + 1;
    }
    t := MarkSorted(t, 0);
    ScanTotalClosedForm(n, i);
    SettledSuffixSorted(t.a, i);
    InversionsZeroIffSorted(t.a);
  }

  /** Pass i of `bubbleSort`'s outer loop: the pass over the unsettled
      prefix, then the sorted mark on the cell it settled. */
  method BubbleRound(s: Helper, i: nat) returns (t: Helper)
    requires i + 1 < |s.a| && SettledSuffix(s.a, i)
    requires forall k :: |s.a| - i <= k < |s.a| ==> k in SortedCells(s)
    ensures |t.a| == |s.a| && multiset(t.a) == multiset(s.a)
    ensures SettledSuffix(t.a, i + 1)
    ensures t.comparisons == s.comparisons + (|s.a| - i - 1)
    ensures t.swaps + Inversions(t.a) == s.swaps + Inversions(s.a)
    ensures forall k :: |s.a| - i - 1 <= k < |s.a| ==> k in SortedCells(t)
  {
    var m := |s.a| - i - 1;
    var swapped;
    t, swapped := BubblePass(s, 0, m);
    SegmentMultiset(s.a, t.a, 0, m + 1);
    SettledSuffixGrows(s.a, t.a, m);
    t := MarkSorted(t, m);
  }

  /** The last i cells are in order and none of the cells before them holds
      a larger value: what the first i passes of `bubbleSort` establish. */
  predicate SettledSuffix(a: seq<int>, i: nat) {
    && i <= |a|
    && (forall k :: |a| - i < k < |a| ==> a[k - 1] <= a[k])
    && (0 < i ==> forall p :: 0 <= p < |a| - i ==> a[p] <= a[|a| - i])
  }

  /** A pass that permutes the unsettled prefix a[..m+1] and carries its
      maximum to position m settles one more cell. */
  lemma SettledSuffixGrows(a: seq<int>, b: seq<int>, m: nat)
    requires m + 1 < |a| + 1 == |b| + 1 && SettledSuffix(a, |a| - m - 1)
    requires multiset(b[0..m + 1]) == multiset(a[0..m + 1])
    requires forall k :: m < k < |a| ==> b[k] == a[k]
    requires forall k :: 0 <= k <= m ==> b[k] <= b[m]
    ensures SettledSuffix(b, |a| - m)
  {
    if m + 1 < |a| {
      PermutationBoundedAbove(a[0..m + 1], b[0..m + 1], a[m + 1]);
      assert b[m] == b[0..m + 1][m];
    }
  }

  /** After n-1 passes the whole array is sorted. */
  lemma SettledSuffixSorted(a: seq<int>, i: nat)
    requires SettledSuffix(a, i) && i + 1 >= |a|
    ensures Sorted(a)
  {
    if 0 < |a| {
      assert |a| - i <= 1;
    }
    AdjacentOrderedSorted(a);
  }

  /** One left-to-right pass of adjacent compare-and-swap over the pairs
      (j, j+1), lo <= j < hi: the inner loop of `bubbleSort` (lo = 0) and
      the forward pass of `cocktailSort`. It counts one comparison per pair,
      carries the maximum of a[lo..hi] to position hi, and only permutes
      that segment. `swapped` reports whether any swap happened; a pass
      without one found every pair in order. */
  method BubblePass(s: Helper, lo: nat, hi: int) returns (t: Helper, swapped: bool)
    requires lo <= hi + 1 <= |s.a|
    ensures |t.a| == |s.a| && multiset(t.a) == multiset(s.a)
    ensures forall k :: 0 <= k < |s.a| && !(lo <= k <= hi) ==> t.a[k] == s.a[k]
    ensures forall k :: lo <= k <= hi ==> t.a[k] <= t.a[hi]
    ensures t.comparisons == s.comparisons + (if hi < lo then 0 else hi - lo)
    ensures t.swaps + Inversions(t.a) == s.swaps + Inversions(s.a)
    ensures swapped <==> t.swaps > s.swaps
    ensures swapped ==> lo < hi
    ensures !swapped ==> t.a == s.a && InOrderBetween(s.a, lo, hi)
    ensures SortedCells(t) == SortedCells(s)
  {
    t := s;
    swapped := false;
    if hi < lo {
      return;
    }
    var j := lo;
    while j < hi
      invariant BubbleState(s, t, lo, hi, j, swapped)
    {
      t, swapped := BubbleStep(s, t, lo, hi, j, swapped);
      j := j + 1;
    }
  }

  /** Everything BubblePass knows after the pairs before j: the scan state,
      the values, the counters and the swap flag. */
  predicate BubbleState(s: Helper, t: Helper, lo: int, hi: int, j: int, swapped: bool) {
    && BubbleScan(s.a, t.a, lo, hi, j)
    && multiset(t.a) == multiset(s.a)
    && t.comparisons == s.comparisons + (j - lo)
    && t.swaps + Inversions(t.a) == s.swaps + Inversions(s.a)
    && (swapped <==> t.swaps > s.swaps)
    && (swapped ==> lo < hi)
    && (!swapped ==> t.a == s.a && InOrderBetween(s.a, lo, j))
    && SortedCells(t) == SortedCells(s)
  }

  /** One iteration of the pass: compare the pair (j, j+1) and exchange it
      when inverted. */
  method BubbleStep(s: Helper, t: Helper, lo: int, hi: int, j: int, swapped: bool)
    returns (t': Helper, swapped': bool)
    requires BubbleState(s, t, lo, hi, j, swapped) && j < hi
    ensures BubbleState(s, t', lo, hi, j + 1, swapped')
  {
    var exchanged;
    BubbleScanStep(s.a, t.a, lo, hi, j);
    t', exchanged := CompareExchange(t, j, j + 1);
    swapped' := swapped;
    if exchanged {
      SwapAdjacentInversions(t.a, j);
      swapped' := true;
    }
  }

  /** Neighbours in a[lo..hi] are in order. */
  predicate InOrderBetween(a: seq<int>, lo: int, hi: int) {
    forall k :: lo < k <= hi && 0 < k < |a| ==> a[k - 1] <= a[k]
  }

  /** The state of a bubble pass over [lo, hi] after the pairs before j:
      cells outside the segment untouched, a[j] the maximum of a[lo..j]. */
  predicate BubbleScan(s: seq<int>, a: seq<int>, lo: int, hi: int, j: int) {
    && 0 <= lo <= j <= hi < |s| == |a|
    && (forall k :: 0 <= k < |s| && !(lo <= k <= hi) ==> a[k] == s[k])
    && (forall k :: lo <= k <= j ==> a[k] <= a[j])
  }

  lemma BubbleScanStep(s: seq<int>, a: seq<int>, lo: int, hi: int, j: int)
    requires BubbleScan(s, a, lo, hi, j) && j < hi
    ensures BubbleScan(s, if a[j] > a[j + 1] then a[j := a[j + 1]][j + 1 := a[j]] else a, lo, hi, j + 1)
    ensures a == s && a[j] <= a[j + 1] && InOrderBetween(s, lo, j) ==> InOrderBetween(s, lo, j + 1)
  {
  }

  /** The inner scan of `selectionSort`: compares the running minimum with
      every later cell. Because `compare` is strict, the minimum only moves
      to a strictly smaller value, so the leftmost minimum is chosen. */
  method SelectMinimum(s: Helper, i: nat) returns (minIndex: nat, t: Helper)
    requires i < |s.a|
    ensures i <= minIndex < |s.a|
    ensures forall k :: i <= k < |s.a| ==> s.a[minIndex] <= s.a[k]
    ensures forall k :: i <= k < minIndex ==> s.a[minIndex] < s.a[k]
    ensures t.a == s.a && t.swaps == s.swaps
    ensures t.comparisons == s.comparisons + (|s.a| - 1 - i)
    ensures SortedCells(t) == SortedCells(s)
  {
    var n := Length(s);
    t := s;
    minIndex := i;
    var j := i + 1;
    while j < n
      invariant i < j <= n
      invariant i <= minIndex < j
      invariant t.a == s.a && t.swaps == s.swaps
      invariant t.comparisons == s.comparisons + (j - 1 - i)
      invariant forall k :: i <= k < j ==> s.a[minIndex] <= s.a[k]
      invariant forall k :: i <= k < minIndex ==> s.a[minIndex] < s.a[k]
      invariant SortedCells(t) == SortedCells(s)
    {
      t := MarkCurrent(t, minIndex);
      t := MarkComparing(t, j);
      var r := Compare(t, minIndex, j);
      t := r.1;
      if r.0 {
        t := Unmark(t, minIndex);
        minIndex := j;
      }
      t := Unmark(t, j);
      j := j + 1;
    }
  }

  /** The exchange that ends a `selectionSort` pass: the minimum moves to
      position i, with a swap counted only when it was elsewhere. */
  method PlaceMinimum(s: Helper, i: nat, minIndex: nat) returns (t: Helper)
    requires i < |s.a| && minIndex < |s.a|
    ensures t.a == s.a[i := s.a[minIndex]][minIndex := s.a[i]]
    ensures multiset(t.a) == multiset(s.a)
    ensures t.comparisons == s.comparisons
    ensures t.swaps == s.swaps + (if minIndex != i then 1 else 0)
    ensures SortedCells(t) == SortedCells(s)
  {
    t := s;
    if minIndex != i {
      t := MarkSwapping(t, minIndex);
      t := MarkSwapping(t, i);
      t := Swap(t, minIndex, i);
    }
  }

  /** `selectionSort`: moves the leftmost minimum of the unsorted suffix to
      its front, swapping only when it is not already there. The last pass
      has nothing to scan, so at most n-1 swaps are counted. */
  method SelectionSort(s: Helper) returns (t: Helper)
    ensures Sorted(t.a) && multiset(t.a) == multiset(s.a)
    ensures t.comparisons == s.comparisons + |s.a| * (|s.a| - 1) / 2
    ensures t.swaps <= s.swaps + (if |s.a| == 0 then 0 else |s.a| - 1)
    ensures AllMarkedSorted(t)
  {
    var n := Length(s);
    t := s;
    var i := 0;
    while i < n
      invariant i <= n
      invariant |t.a| == n && multiset(t.a) == multiset(s.a)
      invariant SettledPrefix(t.a, i)
      invariant t.comparisons == s.comparisons + ScanTotal(n, i)
      invariant t.swaps <= s.swaps + i
      invariant 0 < n == i ==> t.swaps <= s.swaps + (n - 1)
      invariant forall k :: 0 <= k < i ==> k in SortedCells(t)
    {
      t := SelectionRound(t, i);
      i := i + 1;
    }
    ScanTotalClosedForm(n, i);
    AdjacentOrderedSorted(t.a);
  }

  /** One iteration of `selectionSort`'s outer loop: the first minimum of
      a[i..] is exchanged into cell i, which is then marked sorted. The
      last cell never needs an exchange. */
  method SelectionRound(s: Helper, i: nat) returns (t: Helper)
    requires i < |s.a| && SettledPrefix(s.a, i)
    ensures |t.a| == |s.a| && multiset(t.a) == multiset(s.a) && SettledPrefix(t.a, i + 1)
    ensures t.comparisons == s.comparisons + (|s.a| - 1 - i)
    ensures s.swaps <= t.swaps <= s.swaps + 1
    ensures i == |s.a| - 1 ==> t.swaps == s.swaps
    ensures SortedCells(t) == SortedCells(s) + {i}
  {
    var minIndex;
    minIndex, t := SelectMinimum(s, i);
    ghost var before := t.a;
    t := PlaceMinimum(t, i, minIndex);
    SettledPrefixGrows(before, t.a, i, minIndex);
    t := MarkSorted(t, i);
  }

  /** The first i cells are in order and none of the cells after them holds
      a smaller value: what the first i passes of `selectionSort` establish. */
  predicate SettledPrefix(a: seq<int>, i: nat) {
    && i <= |a|
    && (forall k :: 0 < k < i ==> a[k - 1] <= a[k])
    && (0 < i ==> forall q :: i <= q < |a| ==> a[i - 1] <= a[q])
  }

  /** Moving a minimum of the suffix to its front settles one more cell. */
  lemma SettledPrefixGrows(a: seq<int>, b: seq<int>, i: nat, m: nat)
    requires SettledPrefix(a, i) && i <= m < |a|
    requires forall q :: i <= q < |a| ==> a[m] <= a[q]
    requires b == a[i := a[m]][m := a[i]]
    ensures SettledPrefix(b, i + 1)
  {
  }

  /** `insertionSort`: sinks each element into the sorted prefix by adjacent
      swaps while its left neighbour is strictly greater. Values are read
      with `getValue`, so no comparison is counted, and each swap removes
      exactly one inversion. */
  method InsertionSort(s: Helper) returns (t: Helper)
    ensures Sorted(t.a) && multiset(t.a) == multiset(s.a)
    ensures t.comparisons == s.comparisons
    ensures t.swaps == s.swaps + Inversions(s.a)
    ensures AllMarkedSorted(t)
  {
    var n := Length(s);
    t := s;
    var i := 1;
    while i < n
      invariant 1 <= i && (n > 0 ==> i <= n)
      invariant |t.a| == n && multiset(t.a) == multiset(s.a)
      invariant forall k :: 0 < k < i && k < n ==> t.a[k - 1] <= t.a[k]
      invariant t.comparisons == s.comparisons
      invariant t.swaps + Inversions(t.a) == s.swaps + Inversions(s.a)
    {
      t := InsertOne(t, i);
      i := i + 1;
    }
    t := MarkAllSorted(t);
    AdjacentOrderedSorted(t.a);
    InversionsZeroIffSorted(t.a);
  }

  /** The state of `insertionSort`'s inner loop: the key sits at j+1, the
      cells before it and the shifted cells after it are in order, the cell
      before the key is at most the first shifted one, and every shifted
      cell is strictly greater than the key. */
  predicate Sinking(a: seq<int>, i: int, j: int, key: int) {
    && -1 <= j < i < |a|
    && a[j + 1] == key
    && (forall k :: 0 < k <= i && k != j + 1 && k != j + 2 ==> a[k - 1] <= a[k])
    && (0 <= j && j + 2 <= i ==> a[j] <= a[j + 2])
    && (j + 2 <= i ==> key < a[j + 2])
  }

  /** Exchanging the key with a strictly greater left neighbour keeps the
      sinking state one position further left. */
  lemma SinkingStep(a: seq<int>, i: int, j: int, key: int)
    requires Sinking(a, i, j, key) && 0 <= j && a[j] > key
    ensures Sinking(a[j := a[j + 1]][j + 1 := a[j]], i, j - 1, key)
  {
  }

  /** Once the key reaches the front or a left neighbour that is not
      greater, the first i+1 cells are in order. */
  lemma SinkingDone(a: seq<int>, i: int, j: int, key: int)
    requires Sinking(a, i, j, key) && (j < 0 || a[j] <= key)
    ensures forall k :: 0 < k <= i ==> a[k - 1] <= a[k]
  {
  }

  /** One iteration of `insertionSort`'s outer loop: the value at `i` sinks
      past every strictly greater neighbour of the ordered prefix before it. */
  method InsertOne(s: Helper, i: nat) returns (t: Helper)
    requires 0 < i < |s.a|
    requires forall k :: 0 < k < i ==> s.a[k - 1] <= s.a[k]
    ensures |t.a| == |s.a| && multiset(t.a) == multiset(s.a)
    ensures forall k :: 0 < k <= i ==> t.a[k - 1] <= t.a[k]
    ensures t.comparisons == s.comparisons
    ensures t.swaps + Inversions(t.a) == s.swaps + Inversions(s.a)
  {
    var key := GetValue(s, i);
    t := MarkCurrent(s, i);
    var j;
    t, j := SinkKey(t, i, key);
    SinkingDone(t.a, i, j, key);
    t := Unmark(t, i);
  }

  /** The inner loop of `insertionSort`: the key is exchanged with its left
      neighbour while that neighbour is strictly greater, and stops at the
      front or at the first neighbour that is not. */
  method SinkKey(s: Helper, i: nat, key: int) returns (t: Helper, j: int)
    requires Sinking(s.a, i, i - 1, key)
    ensures Sinking(t.a, i, j, key) && (j < 0 || t.a[j] <= key) && |t.a| == |s.a|
    ensures multiset(t.a) == multiset(s.a)
    ensures t.comparisons == s.comparisons
    ensures t.swaps + Inversions(t.a) == s.swaps + Inversions(s.a)
  {
    t := s;
    j := i - 1;
    while j >= 0 && GetValue(t, j) > key
      invariant Sinking(t.a, i, j, key) && |t.a| == |s.a|
      invariant multiset(t.a) == multiset(s.a)
      invariant t.comparisons == s.comparisons
      invariant t.swaps + Inversions(t.a) == s.swaps + Inversions(s.a)
      decreases j
    {
      SinkingStep(t.a, i, j, key);
      t := ExchangeDown(t, j);
      j := j - 1;
    }
  }

  /** The body of `insertionSort`'s inner loop: highlights cells j and j+1
      and exchanges their inverted values, removing one inversion. */
  method ExchangeDown(s: Helper, j: nat) returns (t: Helper)
    requires j + 1 < |s.a| && s.a[j] > s.a[j + 1]
    ensures t.a == s.a[j := s.a[j + 1]][j + 1 := s.a[j]]
    ensures multiset(t.a) == multiset(s.a)
    ensures t.comparisons == s.comparisons
    ensures t.swaps + Inversions(t.a) == s.swaps + Inversions(s.a)
  {
    t := MarkComparing(s, j);
    t := MarkComparing(t, j + 1);
    SwapAdjacentInversions(t.a, j);
    t := Swap(t, j, j + 1);
  }
}
