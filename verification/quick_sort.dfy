/** Quick sort from scripts/sort-algorithms.js (`quickSort`,
    `quickSortHelper`, `partition`): Lomuto partitioning around the last
    cell of the segment. Values are compared after `getValue`, never with
    `compare`, so the comparison counter never moves. */
module QuickSort {
  import opened Orders
  import opened Accessor

  /** The state of `partition`'s loop after the cells before j: a[start..i]
      are below the pivot, a[i+1..j-1] are not, the pivot still sits at
      `end`, and nothing outside [start, end] has moved. */
  predicate Lomuto(s: seq<int>, a: seq<int>, start: nat, end: nat, i: int, j: nat, pivot: int) {
    && start <= i + 1 <= j <= end < |s| == |a|
    && a[end] == pivot
    && (forall k :: start <= k <= i ==> a[k] < pivot)
    && (forall k :: i < k < j ==> a[k] >= pivot)
    && (forall k :: 0 <= k < |s| && !(start <= k <= end) ==> a[k] == s[k])
  }

  /** A cell not below the pivot joins the upper block where it is; a cell
      below it is exchanged with the first cell of the upper block (with
      itself when that block is empty). */
  lemma LomutoStep(s: seq<int>, a: seq<int>, start: nat, end: nat, i: int, j: nat, pivot: int)
    requires Lomuto(s, a, start, end, i, j, pivot) && j < end
    ensures a[j] >= pivot ==> Lomuto(s, a, start, end, i, j + 1, pivot)
    ensures a[j] < pivot ==> Lomuto(s, a[i + 1 := a[j]][j := a[i + 1]], start, end, i + 1, j + 1, pivot)
  {
  }

  /** One iteration of `partition`'s loop. */
  method PartitionStep(ghost s: Helper, r: Helper, start: nat, end: nat, i: int, j: nat, pivot: int)
    returns (t: Helper, i': int)
    requires Lomuto(s.a, r.a, start, end, i, j, pivot) && j < end
    ensures Lomuto(s.a, t.a, start, end, i', j + 1, pivot)
    ensures multiset(t.a) == multiset(r.a)
    ensures t.comparisons == r.comparisons && t.swaps >= r.swaps
  {
    LomutoStep(s.a, r.a, start, end, i, j, pivot);
    t := MarkComparing(r, j);
    i' := i;
    if GetValue(t, j) < pivot {
      i' := i + 1;
      if i' != j {
        t := MarkSwapping(t, i');
        t := Swap(t, i', j);
      }
      assert t.a == r.a[i + 1 := r.a[j]][j := r.a[i + 1]];
    } else {
      assert t.a == r.a;
    }
    t := Unmark(t, j);
  }

  /** `partition(start, end)`: returns the pivot's final position p. The
      pivot is the old a[end]; everything before p in the segment is
      strictly below it, everything after p is not, and nothing outside
      the segment moves. The closing `swap(i + 1, end)` is counted even
      when the two positions coincide. */
  method Partition(s: Helper, start: nat, end: nat) returns (t: Helper, p: nat)
    requires start <= end < |s.a|
    ensures start <= p <= end && |t.a| == |s.a|
    ensures t.a[p] == s.a[end]
    ensures forall k :: start <= k < p ==> t.a[k] < s.a[end]
    ensures forall k :: p < k <= end ==> t.a[k] >= s.a[end]
    ensures forall k :: 0 <= k < |s.a| && !(start <= k <= end) ==> t.a[k] == s.a[k]
    ensures multiset(t.a) == multiset(s.a)
    ensures t.comparisons == s.comparisons && t.swaps > s.swaps
  {
    var pivot := GetValue(s, end);
    var i := start - 1;
    t := MarkPivot(s, end);
    var j := start;
    while j < end
      invariant Lomuto(s.a, t.a, start, end, i, j, pivot)
      invariant multiset(t.a) == multiset(s.a)
      invariant t.comparisons == s.comparisons && t.swaps >= s.swaps
    {
      t, i := PartitionStep(s, t, start, end, i, j, pivot);
      j := j + 1;
    }
    t := PlacePivot(s, t, start, end, i, pivot);
    p := i + 1;
  }

  /** `swap(i + 1, end); unmark(end)`: the pivot moves between the two
      blocks. */
  method PlacePivot(ghost s: Helper, r: Helper, start: nat, end: nat, i: int, pivot: int) returns (t: Helper)
    requires Lomuto(s.a, r.a, start, end, i, end, pivot)
    ensures |t.a| == |s.a| && t.a[i + 1] == pivot
    ensures forall k :: start <= k <= i ==> t.a[k] < pivot
    ensures forall k :: i + 1 < k <= end ==> t.a[k] >= pivot
    ensures forall k :: 0 <= k < |s.a| && !(start <= k <= end) ==> t.a[k] == s.a[k]
    ensures multiset(t.a) == multiset(r.a)
    ensures t.comparisons == r.comparisons && t.swaps == r.swaps + 1
  {
    t := Swap(r, i + 1, end);
    t := Unmark(t, end);
  }

  /** `quickSortHelper(start, end)`: partitions the segment and sorts both
      sides of the pivot. */
  method QuickSortHelper(s: Helper, start: nat, end: int) returns (t: Helper)
    requires start <= end + 1 <= |s.a|
    ensures |t.a| == |s.a|
    ensures Sorted(t.a[start..end + 1])
    ensures multiset(t.a[start..end + 1]) == multiset(s.a[start..end + 1])
    ensures forall k :: 0 <= k < |s.a| && !(start <= k <= end) ==> t.a[k] == s.a[k]
    ensures t.comparisons == s.comparisons
    decreases end - start
  {
    t := s;
    if start < end {
      var p;
      t, p := Partition(t, start, end);
      ghost var parted := t.a;
      t := QuickSortHelper(t, start, p as int - 1);
      ghost var lower := t.a;
      t := QuickSortHelper(t, p + 1, end);
      SegmentMultiset(s.a, parted, start, end + 1);
      QuickCombine(parted, lower, t.a, start, p, end);
    }
  }

  /** Sorting the blocks on either side of a placed pivot sorts the whole
      segment and keeps its values. */
  lemma QuickCombine(parted: seq<int>, lower: seq<int>, c: seq<int>, start: nat, p: nat, end: nat)
    requires start <= p <= end < |parted| == |lower| == |c|
    requires forall k :: start <= k < p ==> parted[k] < parted[p]
    requires forall k :: p < k <= end ==> parted[k] >= parted[p]
    requires Sorted(lower[start..p]) && multiset(lower[start..p]) == multiset(parted[start..p])
    requires forall k :: 0 <= k < |parted| && !(start <= k <= p - 1) ==> lower[k] == parted[k]
    requires Sorted(c[p + 1..end + 1]) && multiset(c[p + 1..end + 1]) == multiset(lower[p + 1..end + 1])
    requires forall k :: 0 <= k < |parted| && !(p + 1 <= k <= end) ==> c[k] == lower[k]
    ensures Sorted(c[start..end + 1])
    ensures multiset(c[start..end + 1]) == multiset(parted[start..end + 1])
    ensures forall k :: 0 <= k < |parted| && !(start <= k <= end) ==> c[k] == parted[k]
  {
    assert c[start..p] == lower[start..p];
    assert lower[p + 1..end + 1] == parted[p + 1..end + 1];
    BlockBelow(parted, c, start, p, parted[p]);
    BlockAtLeast(parted, c, p + 1, end + 1, parted[p]);
    SortedAroundPivot(c, start, p, end);
    JoinAroundPivot(parted, c, start, p, end);
  }

  /** A block whose values are all below v is still so after it is
      permuted. */
  lemma BlockBelow(x: seq<int>, y: seq<int>, lo: nat, hi: nat, v: int)
    requires lo <= hi <= |x| && hi <= |y|
    requires multiset(x[lo..hi]) == multiset(y[lo..hi])
    requires forall k :: lo <= k < hi ==> x[k] < v
    ensures forall k :: lo <= k < hi ==> y[k] < v
  {
    assert forall k :: lo <= k < hi ==> x[k] == x[lo..hi][k - lo];
    PermutationBoundedAbove(x[lo..hi], y[lo..hi], v - 1);
    assert forall k :: lo <= k < hi ==> y[k] == y[lo..hi][k - lo];
  }

  /** A block whose values are all at least v is still so after it is
      permuted. */
  lemma BlockAtLeast(x: seq<int>, y: seq<int>, lo: nat, hi: nat, v: int)
    requires lo <= hi <= |x| && hi <= |y|
    requires multiset(x[lo..hi]) == multiset(y[lo..hi])
    requires forall k :: lo <= k < hi ==> v <= x[k]
    ensures forall k :: lo <= k < hi ==> v <= y[k]
  {
    assert forall k :: lo <= k < hi ==> x[k] == x[lo..hi][k - lo];
    PermutationBoundedBelow(x[lo..hi], y[lo..hi], v);
    assert forall k :: lo <= k < hi ==> y[k] == y[lo..hi][k - lo];
  }

  /** Permuting the blocks on either side of a fixed cell permutes the
      segment. */
  lemma JoinAroundPivot(x: seq<int>, y: seq<int>, start: nat, p: nat, end: nat)
    requires start <= p <= end < |x| == |y| && x[p] == y[p]
    requires multiset(x[start..p]) == multiset(y[start..p])
    requires multiset(x[p + 1..end + 1]) == multiset(y[p + 1..end + 1])
    ensures multiset(x[start..end + 1]) == multiset(y[start..end + 1])
  {
    assert x[start..end + 1] == x[start..p] + [x[p]] + x[p + 1..end + 1];
    assert y[start..end + 1] == y[start..p] + [y[p]] + y[p + 1..end + 1];
  }

  /** Two sorted blocks around a cell that bounds the first from above and
      the second from below form one sorted segment. */
  lemma SortedAroundPivot(c: seq<int>, start: nat, p: nat, end: nat)
    requires start <= p <= end < |c|
    requires Sorted(c[start..p]) && Sorted(c[p + 1..end + 1])
    requires forall k :: start <= k < p ==> c[k] < c[p]
    requires forall k :: p < k <= end ==> c[p] <= c[k]
    ensures Sorted(c[start..end + 1])
  {
    var seg := c[start..end + 1];
    forall x, y | 0 <= x < y < |seg|
      ensures seg[x] <= seg[y]
    {
      assert seg[x] == c[start + x] && seg[y] == c[start + y];
      if y < p - start {
        assert seg[x] == c[start..p][x] && seg[y] == c[start..p][y];
      } else if x > p - start {
        assert seg[x] == c[p + 1..end + 1][x - (p - start) - 1];
        assert seg[y] == c[p + 1..end + 1][y - (p - start) - 1];
      }
    }
  }

  /** `quickSort`: sorts the whole array, then marks every cell sorted. */
  method QuickSort(s: Helper) returns (t: Helper)
    ensures Sorted(t.a) && multiset(t.a) == multiset(s.a)
    ensures t.comparisons == s.comparisons
    ensures AllMarkedSorted(t)
  {
    t := QuickSortHelper(s, 0, Length(s) - 1);
    assert t.a[0..|t.a|] == t.a && s.a[0..|s.a|] == s.a;
    t := MarkAllSorted(t);
  }
}
