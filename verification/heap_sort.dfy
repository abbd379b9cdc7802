/** Heap sort from scripts/sort-algorithms.js (`heapSort`, `heapify`): a
    max-heap is built over the whole array in the usual implicit layout
    (the children of node k are 2k+1 and 2k+2), then the root is exchanged
    with the last cell of the heap, which shrinks by one and is repaired
    from the root. Values are read with `getValue`, so the comparison
    counter never moves. */
module HeapSort {
  import opened Orders
  import opened Accessor
  import opened ElementarySorts

  /** Node k of the heap a[..size] is at least each of its children that
      lies inside the heap. */
  predicate HeapAt(a: seq<int>, size: nat, k: nat)
    requires size <= |a|
  {
    && (2 * k + 1 < size ==> a[2 * k + 1] <= a[k])
    && (2 * k + 2 < size ==> a[2 * k + 2] <= a[k])
  }

  /** Every node of a[..size] from `lo` on satisfies the heap order. */
  predicate HeapFrom(a: seq<int>, size: nat, lo: nat)
    requires size <= |a|
  {
    forall k :: lo <= k < size ==> HeapAt(a, size, k)
  }

  /** The cell `heapify` picks: the node itself unless a child inside the
      heap is strictly larger, the left child winning ties between the
      children. */
  function Largest(a: seq<int>, size: nat, index: nat): (l: nat)
    requires index < size <= |a|
    ensures l == index || l == 2 * index + 1 || l == 2 * index + 2
    ensures l < size
    ensures a[index] <= a[l]
    ensures 2 * index + 1 < size ==> a[2 * index + 1] <= a[l]
    ensures 2 * index + 2 < size ==> a[2 * index + 2] <= a[l]
    ensures a[l] == a[index] ==> l == index
    ensures l == 2 * index + 2 && 2 * index + 1 < size ==> a[2 * index + 1] < a[l]
  {
    var left := 2 * index + 1;
    var right := 2 * index + 2;
    var l0 := if left < size && a[left] > a[index] then left else index;
    if right < size && a[right] > a[l0] then right else l0
  }

  /** Only the node itself and cells from its first child up to the heap's
      end can change; in particular nothing at or beyond `size` does. */
  predicate SiftFrame(a: seq<int>, b: seq<int>, size: nat, index: nat) {
    && |a| == |b|
    && forall p :: 0 <= p < |a| && p != index && !(2 * index + 1 <= p < size) ==> b[p] == a[p]
  }

  /** `heapify(size, index)`: sifts a[index] down until the heap order
      holds from `index` on, provided it already held below `index`. The
      node ends up holding the largest of itself and its children. */
  method Heapify(s: Helper, size: nat, index: nat) returns (t: Helper)
    requires size <= |s.a| && HeapFrom(s.a, size, index + 1)
    ensures SiftFrame(s.a, t.a, size, index)
    ensures HeapFrom(t.a, size, index)
    ensures index < size ==> t.a[index] == s.a[Largest(s.a, size, index)]
    ensures multiset(t.a) == multiset(s.a)
    ensures t.comparisons == s.comparisons && SortedCells(t) == SortedCells(s)
    decreases size - index
  {
    t := s;
    var largest := PickLargest(s, size, index);
    if largest != index {
      t := MarkSwapping(t, index);
      t := MarkSwapping(t, largest);
      t := Swap(t, index, largest);
      ghost var swapped := t.a;
      SiftReady(s.a, size, index, largest);
      t := Heapify(t, size, largest);
      SiftDone(s.a, swapped, t.a, size, index, largest);
    }
  }

  /** The first two branches of `heapify`: read the node and its children
      with `getValue` and keep the strictly largest, left child first. */
  method PickLargest(s: Helper, size: nat, index: nat) returns (largest: nat)
    requires size <= |s.a|
    ensures index < size ==> largest == Largest(s.a, size, index)
    ensures size <= index ==> largest == index
  {
    largest := index;
    var left := 2 * index + 1;
    var right := 2 * index + 2;
    if left < size && GetValue(s, left) > GetValue(s, largest) {
      largest := left;
    }
    if right < size && GetValue(s, right) > GetValue(s, largest) {
      largest := right;
    }
  }

  /** After exchanging a node with its larger child, the heap order holds
      below the child, so sifting may continue there. */
  lemma SiftReady(a: seq<int>, size: nat, index: nat, largest: nat)
    requires size <= |a| && HeapFrom(a, size, index + 1)
    requires index < size && largest == Largest(a, size, index) && largest != index
    ensures HeapFrom(a[index := a[largest]][largest := a[index]], size, largest + 1)
  {
    var b := a[index := a[largest]][largest := a[index]];
    forall k | largest + 1 <= k < size
      ensures HeapAt(b, size, k)
    {
      assert HeapAt(a, size, k);
    }
  }

  /** Sifting the child's subtree finishes the repair at `index`. */
  lemma SiftDone(a: seq<int>, b: seq<int>, c: seq<int>, size: nat, index: nat, largest: nat)
    requires size <= |a| && HeapFrom(a, size, index + 1)
    requires index < size && largest == Largest(a, size, index) && largest != index
    requires b == a[index := a[largest]][largest := a[index]]
    requires SiftFrame(b, c, size, largest) && HeapFrom(c, size, largest)
    requires c[largest] == b[Largest(b, size, largest)]
    ensures HeapFrom(c, size, index)
    ensures SiftFrame(a, c, size, index)
    ensures c[index] == a[largest]
  {
    assert HeapAt(a, size, largest);
    assert HeapAt(c, size, index);
    forall k | index < k < largest
      ensures HeapAt(c, size, k)
    {
      assert HeapAt(a, size, k);
    }
  }

  /** The root of a heap holds its largest value. */
  lemma {:induction false} HeapRootMax(a: seq<int>, size: nat, k: nat)
    requires size <= |a| && HeapFrom(a, size, 0) && k < size
    ensures a[k] <= a[0]
    decreases k
  {
    if k > 0 {
      var parent := (k - 1) / 2;
      HeapRootMax(a, size, parent);
      assert HeapAt(a, size, parent);
    }
  }

  /** `heapSort`'s build loop: heapifies every inner node from the last one
      back to the root, which yields a max-heap over the whole array. */
  method BuildHeap(s: Helper) returns (t: Helper)
    ensures |t.a| == |s.a| && HeapFrom(t.a, |t.a|, 0)
    ensures multiset(t.a) == multiset(s.a)
    ensures t.comparisons == s.comparisons && SortedCells(t) == SortedCells(s)
  {
    var n := Length(s);
    t := s;
    var i := n as int / 2 - 1;
    while i >= 0
      invariant -1 <= i < n / 2 + 1 && |t.a| == n
      invariant HeapFrom(t.a, n, i + 1)
      invariant multiset(t.a) == multiset(s.a)
      invariant t.comparisons == s.comparisons && SortedCells(t) == SortedCells(s)
    {
      t := Heapify(t, n, i);
      i := i - 1;
    }
  }

  /** One round of `heapSort`'s extraction loop: the root, the largest
      value left in the heap a[..i+1], moves to position i, which joins the
      settled suffix and is marked sorted; the smaller heap is repaired. */
  method ExtractMax(s: Helper, i: nat) returns (t: Helper)
    requires 0 < i < |s.a| && HeapFrom(s.a, i + 1, 0)
    requires SettledSuffix(s.a, |s.a| - i - 1)
    ensures |t.a| == |s.a| && HeapFrom(t.a, i, 0)
    ensures t.a[i] == s.a[0]
    ensures forall k :: 0 <= k <= i ==> s.a[k] <= t.a[i]
    ensures SettledSuffix(t.a, |s.a| - i)
    ensures multiset(t.a) == multiset(s.a)
    ensures t.comparisons == s.comparisons && SortedCells(t) == SortedCells(s) + {i}
  {
    var u := SwapRootOut(s, i);
    t := Heapify(u, i, 0);
    RootBoundsHeap(s.a, i + 1);
    assert t.a[i] == u.a[i];
    ExtractSettles(s.a, t.a, i);
  }

  /** The first half of an extraction round: the root and cell i trade
      places and i is marked sorted; below the new root the shrunk heap is
      still in order. */
  method SwapRootOut(s: Helper, i: nat) returns (t: Helper)
    requires 0 < i < |s.a| && HeapFrom(s.a, i + 1, 0)
    ensures t.a == s.a[0 := s.a[i]][i := s.a[0]] && HeapFrom(t.a, i, 1)
    ensures multiset(t.a) == multiset(s.a)
    ensures t.comparisons == s.comparisons && SortedCells(t) == SortedCells(s) + {i}
  {
    t := MarkSwapping(s, 0);
    t := MarkSwapping(t, i);
    t := Swap(t, 0, i);
    t := MarkSorted(t, i);
    ShrunkHeap(s.a, i);
  }

  /** The root bounds every cell of the heap a[..size]. */
  lemma RootBoundsHeap(a: seq<int>, size: nat)
    requires 0 < size <= |a| && HeapFrom(a, size, 0)
    ensures forall k :: 0 <= k < size ==> a[k] <= a[0]
  {
    forall k | 0 <= k < size
      ensures a[k] <= a[0]
    {
      HeapRootMax(a, size, k);
    }
  }

  /** When the prefix maximum has moved to i and only the prefix a[..i+1]
      was permuted, the settled suffix grows by one. */
  lemma ExtractSettles(a: seq<int>, c: seq<int>, i: nat)
    requires 0 < i < |a| == |c| && SettledSuffix(a, |a| - i - 1)
    requires forall k :: 0 <= k <= i ==> a[k] <= a[0]
    requires c[i] == a[0] && multiset(c) == multiset(a)
    requires forall k :: i < k < |a| ==> c[k] == a[k]
    ensures SettledSuffix(c, |a| - i)
  {
    SegmentMultiset(a, c, 0, i + 1);
    assert forall k :: 0 <= k <= i ==> a[k] == a[0..i + 1][k];
    PermutationBoundedAbove(a[0..i + 1], c[0..i + 1], a[0]);
    assert forall k :: 0 <= k <= i ==> c[k] == c[0..i + 1][k];
    SettledSuffixGrows(a, c, i);
  }

  /** Exchanging the root with the last heap cell leaves the heap order
      intact below the root of the shrunk heap. */
  lemma ShrunkHeap(a: seq<int>, i: nat)
    requires 0 < i < |a| && HeapFrom(a, i + 1, 0)
    ensures HeapFrom(a[0 := a[i]][i := a[0]], i, 1)
  {
    var b := a[0 := a[i]][i := a[0]];
    forall k | 1 <= k < i
      ensures HeapAt(b, i, k)
    {
      assert HeapAt(a, i + 1, k);
    }
  }

  /** `heapSort`'s extraction loop: for i from n-1 down to 1 the root
      moves to i. Afterwards every cell but the first is settled and
      marked sorted. */
  method ExtractAll(s: Helper) returns (t: Helper)
    requires HeapFrom(s.a, |s.a|, 0)
    ensures |t.a| == |s.a| && (|s.a| > 0 ==> SettledSuffix(t.a, |s.a| - 1))
    ensures multiset(t.a) == multiset(s.a)
    ensures t.comparisons == s.comparisons
    ensures SortedCells(s) <= SortedCells(t)
    ensures forall k :: 0 < k < |s.a| ==> k in SortedCells(t)
  {
    var n := Length(s);
    t := s;
    var i := n as int - 1;
    while i > 0
      invariant -1 <= i < n && |t.a| == n
      invariant n > 0 ==> 0 <= i && HeapFrom(t.a, i + 1, 0) && SettledSuffix(t.a, n - i - 1)
      invariant multiset(t.a) == multiset(s.a)
      invariant t.comparisons == s.comparisons
      invariant SortedCells(s) <= SortedCells(t)
      invariant forall k :: i < k < n ==> k in SortedCells(t)
    {
      t := ExtractMax(t, i);
      i := i - 1;
    }
  }

  /** `heapSort`: builds the heap, extracts the maximum n-1 times, and
      marks the root sorted at the end, so every cell carries the mark. */
  method HeapSort(s: Helper) returns (t: Helper)
    ensures Sorted(t.a) && multiset(t.a) == multiset(s.a)
    ensures t.comparisons == s.comparisons
    ensures SortedCells(s) <= SortedCells(t) && AllMarkedSorted(t)
  {
    t := BuildHeap(s);
    t := ExtractAll(t);
    t := MarkSorted(t, 0);
    if |t.a| > 0 {
      SettledSuffixSorted(t.a, |t.a| - 1);
    }
  }
}
