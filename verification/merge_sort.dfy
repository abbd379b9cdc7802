/** Merge sort from scripts/sort-algorithms.js (`mergeSort`,
    `mergeSortHelper`, `merge`). The runs are copied out with `getValue` and
    written back with `setValue`, so neither counter ever moves. */
module MergeSort {
  import opened Orders
  import opened Accessor

  /** The merge of two runs that `merge` writes back: the smaller head
      first, the left head on ties. */
  function Merge(l: seq<int>, r: seq<int>): seq<int>
    decreases |l| + |r|
  {
    if |l| == 0 then r
    else if |r| == 0 then l
    else if l[0] <= r[0] then [l[0]] + Merge(l[1..], r)
    else [r[0]] + Merge(l, r[1..])
  }

  /** Merging loses and invents nothing. */
  lemma {:induction false} MergePermutation(l: seq<int>, r: seq<int>)
    ensures |Merge(l, r)| == |l| + |r|
    ensures multiset(Merge(l, r)) == multiset(l) + multiset(r)
    decreases |l| + |r|
  {
    if |l| == 0 {
      assert l == [];
    } else if |r| == 0 {
      assert r == [];
    } else if l[0] <= r[0] {
      MergePermutation(l[1..], r);
      MergeTakesLeft(l, r);
    } else {
      MergePermutation(l, r[1..]);
      MergeTakesRight(l, r);
    }
    assert |Merge(l, r)| == |multiset(Merge(l, r))|;
  }

  /** The step of MergePermutation when the left head is taken. */
  lemma MergeTakesLeft(l: seq<int>, r: seq<int>)
    requires |l| > 0 && |r| > 0 && l[0] <= r[0]
    requires multiset(Merge(l[1..], r)) == multiset(l[1..]) + multiset(r)
    ensures multiset(Merge(l, r)) == multiset(l) + multiset(r)
  {
    ConsMultiset(l[0], Merge(l[1..], r), Merge(l, r));
    ConsMultiset(l[0], l[1..], l);
  }

  /** The step of MergePermutation when the right head is taken. */
  lemma MergeTakesRight(l: seq<int>, r: seq<int>)
    requires |l| > 0 && |r| > 0 && l[0] > r[0]
    requires multiset(Merge(l, r[1..])) == multiset(l) + multiset(r[1..])
    ensures multiset(Merge(l, r)) == multiset(l) + multiset(r)
  {
    ConsMultiset(r[0], Merge(l, r[1..]), Merge(l, r));
    ConsMultiset(r[0], r[1..], r);
  }

  /** A sequence that is a head before a tail holds the head once more
      than the tail does. */
  lemma ConsMultiset(x: int, tail: seq<int>, s: seq<int>)
    requires s == [x] + tail
    ensures multiset(s) == multiset{x} + multiset(tail)
  {
  }

  /** Merging two sorted runs gives a sorted run. */
  lemma {:induction false} MergeSorted(l: seq<int>, r: seq<int>)
    requires Sorted(l) && Sorted(r)
    ensures Sorted(Merge(l, r))
    decreases |l| + |r|
  {
    if |l| > 0 && |r| > 0 {
      if l[0] <= r[0] {
        SortedTail(l);
        MergeSorted(l[1..], r);
        MergeHead(l[1..], r);
        SortedCons(l[0], Merge(l[1..], r));
      } else {
        SortedTail(r);
        MergeSorted(l, r[1..]);
        MergeHead(l, r[1..]);
        SortedCons(r[0], Merge(l, r[1..]));
      }
    }
  }

  /** The first element of a merge is the first element of one of the runs. */
  lemma MergeHead(l: seq<int>, r: seq<int>)
    ensures |Merge(l, r)| > 0 ==> (|l| > 0 && Merge(l, r)[0] == l[0]) || (|r| > 0 && Merge(l, r)[0] == r[0])
  {
  }

  lemma SortedCons(x: int, m: seq<int>)
    requires Sorted(m) && (|m| > 0 ==> x <= m[0])
    ensures Sorted([x] + m)
  {
  }

  /** One step of the merge loop: the smaller remaining head (the left one on
      ties) is the next merged element, and the rest of the merge is the
      merge of what remains. */
  lemma MergeStep(l: seq<int>, r: seq<int>, i: nat, j: nat)
    requires i < |l| && j < |r|
    ensures l[i] <= r[j] ==> Merge(l[i..], r[j..]) == [l[i]] + Merge(l[i + 1..], r[j..])
    ensures l[i] > r[j] ==> Merge(l[i..], r[j..]) == [r[j]] + Merge(l[i..], r[j + 1..])
  {
    assert l[i..][1..] == l[i + 1..];
    assert r[j..][1..] == r[j + 1..];
  }

  /** The state of `merge`'s loops: the first k - start cells of the segment
      hold the merge's first elements, the merge of the remaining runs is the
      rest of the merge, and no cell outside [start, k) has changed. */
  predicate MergeState(s: seq<int>, a: seq<int>, start: nat, left: seq<int>, right: seq<int>, i: nat, j: nat) {
    && i <= |left| && j <= |right|
    && start + |left| + |right| <= |s| == |a|
    && |Merge(left, right)| == |left| + |right|
    && Merge(left[i..], right[j..]) == Merge(left, right)[i + j..]
    && (forall p :: start <= p < start + i + j ==> a[p] == Merge(left, right)[p - start])
    && (forall p :: 0 <= p < |s| && !(start <= p < start + i + j) ==> a[p] == s[p])
  }

  /** Writing the next merged element, taken from the left run when
      `fromLeft` and from the right one otherwise, at position
      start + i + j advances the merge state. The source takes from the left
      exactly when the right run is used up or the left head is not
      greater. */
  lemma MergeStateWrite(s: seq<int>, a: seq<int>, start: nat, left: seq<int>, right: seq<int>, i: nat, j: nat, fromLeft: bool)
    requires MergeState(s, a, start, left, right, i, j)
    requires fromLeft ==> i < |left| && (j == |right| || left[i] <= right[j])
    requires !fromLeft ==> j < |right| && (i == |left| || left[i] > right[j])
    ensures MergeState(s, a[start + i + j := if fromLeft then left[i] else right[j]], start, left, right,
                       if fromLeft then i + 1 else i, if fromLeft then j else j + 1)
  {
    var i', j' := if fromLeft then i + 1 else i, if fromLeft then j else j + 1;
    var x := if fromLeft then left[i] else right[j];
    NextMerged(left, right, i, j, fromLeft);
    Advance(s, a, a[start + i + j := x], start, Merge(left, right), i + j, x, Merge(left[i'..], right[j'..]));
  }

  /** The next merged element is the head the source picks, and the rest
      of the merge is the merge of what remains. */
  lemma NextMerged(left: seq<int>, right: seq<int>, i: nat, j: nat, fromLeft: bool)
    requires i <= |left| && j <= |right|
    requires fromLeft ==> i < |left| && (j == |right| || left[i] <= right[j])
    requires !fromLeft ==> j < |right| && (i == |left| || left[i] > right[j])
    ensures fromLeft ==> Merge(left[i..], right[j..]) == [left[i]] + Merge(left[i + 1..], right[j..])
    ensures !fromLeft ==> Merge(left[i..], right[j..]) == [right[j]] + Merge(left[i..], right[j + 1..])
  {
    if j == |right| {
      assert right[j..] == [];
      assert Merge(left[i..], right[j..]) == left[i..];
      assert left[i..][1..] == left[i + 1..];
      assert Merge(left[i + 1..], right[j..]) == left[i + 1..];
    } else if i == |left| {
      assert left[i..] == [];
      assert Merge(left[i..], right[j..]) == right[j..];
      assert right[j..][1..] == right[j + 1..];
      assert Merge(left[i..], right[j + 1..]) == right[j + 1..];
    } else {
      MergeStep(left, right, i, j);
    }
  }

  /** Writing the element x that heads m[k..] at position start + k
      (giving a') extends the written prefix of m by one. */
  lemma Advance(s: seq<int>, a: seq<int>, a': seq<int>, start: nat, m: seq<int>, k: nat, x: int, rest: seq<int>)
    requires start + k < |s| == |a| && k < |m| && a' == a[start + k := x]
    requires m[k..] == [x] + rest
    requires forall p :: start <= p < start + k ==> a[p] == m[p - start]
    requires forall p :: 0 <= p < |s| && !(start <= p < start + k) ==> a[p] == s[p]
    ensures m[k + 1..] == rest
    ensures forall p :: start <= p < start + k + 1 ==> a'[p] == m[p - start]
    ensures forall p :: 0 <= p < |s| && !(start <= p < start + k + 1) ==> a'[p] == s[p]
  {
    assert m[k] == m[k..][0];
    assert m[k + 1..] == m[k..][1..];
  }

  /** `merge(start, mid, end)`: copies the two runs a[start..mid] and
      a[mid+1..end] out, then writes their merge back over the segment. */
  method MergeRuns(s: Helper, start: nat, mid: nat, end: nat) returns (t: Helper)
    requires start <= mid < end < |s.a|
    ensures |t.a| == |s.a|
    ensures t.a[start..end + 1] == Merge(s.a[start..mid + 1], s.a[mid + 1..end + 1])
    ensures forall p :: 0 <= p < |s.a| && !(start <= p <= end) ==> t.a[p] == s.a[p]
    ensures t.comparisons == s.comparisons && t.swaps == s.swaps
  {
    var left := CopyRun(s, start, mid);
    var right := CopyRun(s, mid + 1, end);
    t := WriteBack(s, start, mid, left, right);
    assert start + |left| + |right| == end + 1;
  }

  /** The three write loops of `merge`: while both runs have elements the
      smaller head is written (the left one on ties), then the rest of
      whichever run remains. */
  method WriteBack(s: Helper, start: nat, mid: nat, left: seq<int>, right: seq<int>) returns (t: Helper)
    requires start + |left| + |right| <= |s.a|
    ensures |t.a| == |s.a|
    ensures t.a[start..start + |left| + |right|] == Merge(left, right)
    ensures forall p :: 0 <= p < |s.a| && !(start <= p < start + |left| + |right|) ==> t.a[p] == s.a[p]
    ensures t.comparisons == s.comparisons && t.swaps == s.swaps
  {
    MergeStateStart(s.a, start, left, right);
    t := s;
    var i, j := 0, 0;
    while i < |left| && j < |right|
      invariant MergeState(s.a, t.a, start, left, right, i, j)
      invariant t.comparisons == s.comparisons && t.swaps == s.swaps
    {
      t, i, j := CompareAndWrite(s, t, start, mid, left, right, i, j);
    }
    while i < |left|
      invariant (i < |left| ==> j == |right|) && MergeState(s.a, t.a, start, left, right, i, j)
      invariant t.comparisons == s.comparisons && t.swaps == s.swaps
    {
      t, i, j := WriteNext(s, t, start, left, right, i, j, true);
    }
    while j < |right|
      invariant i == |left| && MergeState(s.a, t.a, start, left, right, i, j)
      invariant t.comparisons == s.comparisons && t.swaps == s.swaps
    {
      t, i, j := WriteNext(s, t, start, left, right, i, j, false);
    }
    MergeStateDone(s.a, t.a, start, left, right);
  }

  lemma MergeStateStart(s: seq<int>, start: nat, left: seq<int>, right: seq<int>)
    requires start + |left| + |right| <= |s|
    ensures MergeState(s, s, start, left, right, 0, 0)
  {
    MergePermutation(left, right);
    assert left[0..] == left && right[0..] == right;
  }

  /** One iteration of `merge`'s first loop: highlights both heads and
      writes the smaller one, the left one on ties. */
  method CompareAndWrite(ghost s: Helper, r: Helper, start: nat, mid: nat, left: seq<int>, right: seq<int>, i: nat, j: nat)
    returns (t: Helper, i': nat, j': nat)
    requires MergeState(s.a, r.a, start, left, right, i, j) && i < |left| && j < |right|
    ensures MergeState(s.a, t.a, start, left, right, i', j')
    ensures i' + j' == i + j + 1 && i' >= i && j' >= j
    ensures t.comparisons == r.comparisons && t.swaps == r.swaps
  {
    t := MarkComparing(r, start + i);
    t := MarkComparing(t, mid + 1 + j);
    t, i', j' := WriteNext(s, t, start, left, right, i, j, left[i] <= right[j]);
  }

  /** `setValue(k, left[i]); i++` or `setValue(k, right[j]); j++` with
      k = start + i + j: one write of `merge`. */
  method WriteNext(ghost s: Helper, r: Helper, start: nat, left: seq<int>, right: seq<int>, i: nat, j: nat, fromLeft: bool)
    returns (t: Helper, i': nat, j': nat)
    requires MergeState(s.a, r.a, start, left, right, i, j)
    requires fromLeft ==> i < |left| && (j == |right| || left[i] <= right[j])
    requires !fromLeft ==> j < |right| && (i == |left| || left[i] > right[j])
    ensures MergeState(s.a, t.a, start, left, right, i', j')
    ensures i' + j' == i + j + 1 && i' >= i && j' >= j
    ensures t.comparisons == r.comparisons && t.swaps == r.swaps
  {
    MergeStateWrite(s.a, r.a, start, left, right, i, j, fromLeft);
    if fromLeft {
      t := SetValue(r, start + i + j, left[i]);
      i', j' := i + 1, j;
    } else {
      t := SetValue(r, start + i + j, right[j]);
      i', j' := i, j + 1;
    }
  }

  lemma MergeStateDone(s: seq<int>, a: seq<int>, start: nat, left: seq<int>, right: seq<int>)
    requires MergeState(s, a, start, left, right, |left|, |right|)
    ensures a[start..start + |left| + |right|] == Merge(left, right)
  {
  }

  /** The `for (i = lo; i <= hi; i++) run.push(getValue(i))` copy loop. */
  method CopyRun(s: Helper, lo: nat, hi: nat) returns (run: seq<int>)
    requires lo <= hi < |s.a|
    ensures run == s.a[lo..hi + 1]
  {
    run := [];
    var i := lo;
    while i <= hi
      invariant lo <= i <= hi + 1 && run == s.a[lo..i]
    {
      run := run + [GetValue(s, i)];
      i := i + 1;
    }
  }

  /** `mergeSortHelper(start, end)`: sorts a[start..end] by sorting both
      halves around mid = floor((start + end) / 2) and merging them. */
  method MergeSortHelper(s: Helper, start: nat, end: int) returns (t: Helper)
    requires start <= end + 1 <= |s.a|
    ensures |t.a| == |s.a|
    ensures Sorted(t.a[start..end + 1])
    ensures multiset(t.a[start..end + 1]) == multiset(s.a[start..end + 1])
    ensures forall p :: 0 <= p < |s.a| && !(start <= p <= end) ==> t.a[p] == s.a[p]
    ensures t.comparisons == s.comparisons && t.swaps == s.swaps
    decreases end - start
  {
    t := s;
    if start < end {
      var mid := (start + end) / 2;
      t := MergeSortHelper(t, start, mid);
      ghost var first := t.a;
      t := MergeSortHelper(t, mid + 1, end);
      ghost var second := t.a;
      t := MergeRuns(t, start, mid, end);
      MergeHalves(s.a, first, second, t.a, start, mid, end);
    }
  }

  /** Sorting both halves in turn and merging them sorts the segment and
      keeps its values. */
  lemma MergeHalves(s: seq<int>, first: seq<int>, second: seq<int>, c: seq<int>, start: nat, mid: nat, end: nat)
    requires start <= mid < end < |s| && |first| == |s| && |second| == |s| && |c| == |s|
    requires Sorted(first[start..mid + 1]) && multiset(first[start..mid + 1]) == multiset(s[start..mid + 1])
    requires forall p :: 0 <= p < |s| && !(start <= p <= mid) ==> first[p] == s[p]
    requires Sorted(second[mid + 1..end + 1]) && multiset(second[mid + 1..end + 1]) == multiset(first[mid + 1..end + 1])
    requires forall p :: 0 <= p < |s| && !(mid + 1 <= p <= end) ==> second[p] == first[p]
    requires c[start..end + 1] == Merge(second[start..mid + 1], second[mid + 1..end + 1])
    requires forall p :: 0 <= p < |s| && !(start <= p <= end) ==> c[p] == second[p]
    ensures Sorted(c[start..end + 1]) && multiset(c[start..end + 1]) == multiset(s[start..end + 1])
    ensures forall p :: 0 <= p < |s| && !(start <= p <= end) ==> c[p] == s[p]
  {
    assert second[start..mid + 1] == first[start..mid + 1];
    MergeSorted(second[start..mid + 1], second[mid + 1..end + 1]);
    HalvesPermutation(s, first, second, start, mid, end);
    MergePermutation(second[start..mid + 1], second[mid + 1..end + 1]);
  }

  lemma HalvesPermutation(s: seq<int>, first: seq<int>, second: seq<int>, start: nat, mid: nat, end: nat)
    requires start <= mid < end < |s| && |first| == |s| && |second| == |s|
    requires multiset(first[start..mid + 1]) == multiset(s[start..mid + 1])
    requires forall p :: 0 <= p < |s| && !(start <= p <= mid) ==> first[p] == s[p]
    requires multiset(second[mid + 1..end + 1]) == multiset(first[mid + 1..end + 1])
    requires forall p :: 0 <= p < |s| && !(mid + 1 <= p <= end) ==> second[p] == first[p]
    ensures multiset(second[start..mid + 1]) + multiset(second[mid + 1..end + 1]) == multiset(s[start..end + 1])
  {
    assert second[start..mid + 1] == first[start..mid + 1];
    assert first[mid + 1..end + 1] == s[mid + 1..end + 1];
    SplitMultiset(s, start, mid + 1, end + 1);
  }

  lemma SplitMultiset(a: seq<int>, lo: nat, mid: nat, hi: nat)
    requires lo <= mid <= hi <= |a|
    ensures multiset(a[lo..hi]) == multiset(a[lo..mid]) + multiset(a[mid..hi])
  {
    assert a[lo..hi] == a[lo..mid] + a[mid..hi];
  }

  /** `mergeSort`: sorts the whole array, then marks every cell sorted. No
      comparison or swap is ever counted. */
  method MergeSort(s: Helper) returns (t: Helper)
    ensures Sorted(t.a) && multiset(t.a) == multiset(s.a)
    ensures t.comparisons == s.comparisons && t.swaps == s.swaps
    ensures AllMarkedSorted(t)
  {
    t := MergeSortHelper(s, 0, Length(s) - 1);
    assert t.a[0..|t.a|] == t.a && s.a[0..|s.a|] == s.a;
    t := MarkAllSorted(t);
  }
}
