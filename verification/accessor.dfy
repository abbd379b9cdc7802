/** The instrumented array accessor (`Helper` in scripts/helper.js).

    The browser keeps each value twice, in a cell's `data-value` attribute and
    in `state.array`; `swap` and `setValue` write both in lockstep and the
    reads go to the attribute, so one sequence `a` stands for both. The cells'
    highlight classes are kept as one tag set per position. Timing (`wait`),
    sound and cell heights have no effect on the data and are not modelled.
    Every operation checks its indices against the number of cells and does
    nothing (or answers a harmless default) when one is out of range. */
module Accessor {

  /** The highlight classes a cell can carry. */
  datatype Tag = Comparing | Swapping | Current | Pivot | SortedMark

  /** The classes that `unmark` removes; the sorted mark survives it. */
  const Transient: set<Tag> := {Comparing, Swapping, Current, Pivot}

  /** Values, per-cell classes and the two run counters. */
  datatype Board = Board(a: seq<int>, tags: seq<set<Tag>>, comparisons: nat, swaps: nat)

  /** One cell per value: the page renders exactly one cell for each element. */
  type Helper = b: Board | |b.tags| == |b.a| witness Board([], [], 0, 0)

  predicate InRange(s: Helper, i: int) {
    0 <= i < |s.a|
  }

  /** The positions whose cell carries the sorted mark. */
  function SortedCells(s: Helper): set<int> {
    set k | 0 <= k < |s.a| && SortedMark in s.tags[k]
  }

  /** Every cell carries the sorted mark. */
  predicate AllMarkedSorted(s: Helper) {
    forall k :: 0 <= k < |s.a| ==> k in SortedCells(s)
  }

  /** The classes of `r` are those of `s` with the transient ones removed at
      `i` and `j`: the net visual effect of `compare` and `swap`. */
  predicate TransientCleared(s: Helper, r: Helper, i: int, j: int) {
    && |r.tags| == |s.tags|
    && forall k :: 0 <= k < |s.tags| ==>
         r.tags[k] == (if k == i || k == j then s.tags[k] - Transient else s.tags[k])
  }

  /** The number of cells. */
  function Length(s: Helper): (n: nat)
    ensures n == |s.a|
  {
    |s.tags|
  }

  /** Adds one class to cell `i`; the common body of the `mark*` calls. */
  function AddTag(s: Helper, i: int, t: Tag): (r: Helper)
    ensures r.a == s.a && r.comparisons == s.comparisons && r.swaps == s.swaps
    ensures InRange(s, i) ==> r.tags == s.tags[i := s.tags[i] + {t}]
    ensures !InRange(s, i) ==> r == s
    ensures SortedCells(r) == if t == SortedMark && InRange(s, i) then SortedCells(s) + {i} else SortedCells(s)
  {
    if !InRange(s, i) then s else s.(tags := s.tags[i := s.tags[i] + {t}])
  }

  function MarkComparing(s: Helper, i: int): Helper {
    AddTag(s, i, Comparing)
  }

  function MarkSwapping(s: Helper, i: int): Helper {
    AddTag(s, i, Swapping)
  }

  function MarkCurrent(s: Helper, i: int): Helper {
    AddTag(s, i, Current)
  }

  function MarkPivot(s: Helper, i: int): Helper {
    AddTag(s, i, Pivot)
  }

  function MarkSorted(s: Helper, i: int): Helper {
    AddTag(s, i, SortedMark)
  }

  /** Removes the transient classes from cell `i`, keeping the sorted mark. */
  function Unmark(s: Helper, i: int): (r: Helper)
    ensures r.a == s.a && r.comparisons == s.comparisons && r.swaps == s.swaps
    ensures InRange(s, i) ==> TransientCleared(s, r, i, i)
    ensures !InRange(s, i) ==> r == s
    ensures SortedCells(r) == SortedCells(s)
  {
    if !InRange(s, i) then s else s.(tags := s.tags[i := s.tags[i] - Transient])
  }

  /** `compare(i, j)`: counts one comparison and answers whether a[i] > a[j]. */
  function Compare(s: Helper, i: int, j: int): (r: (bool, Helper))
    ensures InRange(s, i) && InRange(s, j) ==>
      && r.0 == (s.a[i] > s.a[j])
      && r.1.a == s.a
      && r.1.comparisons == s.comparisons + 1
      && r.1.swaps == s.swaps
      && TransientCleared(s, r.1, i, j)
    ensures !(InRange(s, i) && InRange(s, j)) ==> r == (false, s)
    ensures SortedCells(r.1) == SortedCells(s)
  {
    if !InRange(s, i) || !InRange(s, j) then (false, s)
    else
      var marked := MarkComparing(MarkComparing(s, i), j);
      var counted := marked.(comparisons := marked.comparisons + 1);
      (marked.a[i] > marked.a[j], Unmark(Unmark(counted, i), j))
  }

  /** `swap(i, j)`: exchanges two values and counts one swap, even when i == j. */
  function Swap(s: Helper, i: int, j: int): (r: Helper)
    ensures InRange(s, i) && InRange(s, j) ==>
      && r.a == s.a[i := s.a[j]][j := s.a[i]]
      && r.swaps == s.swaps + 1
      && r.comparisons == s.comparisons
      && TransientCleared(s, r, i, j)
    ensures !(InRange(s, i) && InRange(s, j)) ==> r == s
    ensures multiset(r.a) == multiset(s.a)
    ensures SortedCells(r) == SortedCells(s)
  {
    if !InRange(s, i) || !InRange(s, j) then s
    else
      var marked := MarkSwapping(MarkSwapping(s, i), j);
      var value1 := marked.a[i];
      var value2 := marked.a[j];
      var moved := marked.(a := marked.a[i := value2][j := value1], swaps := marked.swaps + 1);
      Unmark(Unmark(moved, i), j)
  }

  /** `setValue(i, v)`: overwrites one value; a move, not a swap, so neither
      counter changes. */
  function SetValue(s: Helper, i: int, v: int): (r: Helper)
    ensures InRange(s, i) ==> r.a == s.a[i := v]
    ensures !InRange(s, i) ==> r.a == s.a
    ensures r.tags == s.tags && r.comparisons == s.comparisons && r.swaps == s.swaps
  {
    if !InRange(s, i) then s else s.(a := s.a[i := v])
  }

  /** `getValue(i)`: the value at `i`, or 0 outside the array. */
  function GetValue(s: Helper, i: int): (v: int)
    ensures InRange(s, i) ==> v == s.a[i]
    ensures !InRange(s, i) ==> v == 0
  {
    if !InRange(s, i) then 0 else s.a[i]
  }

  /** The reversal of a sequence, as a reference for `reverse`. */
  function Reversed(a: seq<int>): (b: seq<int>)
    ensures |b| == |a|
  {
    seq(|a|, k requires 0 <= k < |a| => a[|a| - 1 - k])
  }

  /** `reverse()`: swaps the two halves' mirrored positions pairwise. */
  method Reverse(s: Helper) returns (r: Helper)
    ensures r.a == Reversed(s.a)
    ensures r.swaps == s.swaps + |s.a| / 2
    ensures r.comparisons == s.comparisons
  {
    var n := Length(s);
    r := s;
    var i := 0;
    while i < n / 2
      invariant i <= n / 2 && |r.a| == n
      invariant MirroredUpTo(s.a, r.a, i)
      invariant r.swaps == s.swaps + i && r.comparisons == s.comparisons
    {
      MirroredStep(s.a, r.a, i);
      r := Swap(r, i, n - 1 - i);
      i := i + 1;
    }
    MirroredDone(s.a, r.a, i);
  }

  /** The first and last i cells of b are those of a, mirrored; the middle
      is untouched. */
  predicate MirroredUpTo(a: seq<int>, b: seq<int>, i: nat) {
    && |b| == |a| && 2 * i <= |a|
    && (forall k :: 0 <= k < i ==> b[k] == a[|a| - 1 - k] && b[|a| - 1 - k] == a[k])
    && (forall k :: i <= k < |a| - i ==> b[k] == a[k])
  }

  lemma MirroredStep(a: seq<int>, b: seq<int>, i: nat)
    requires MirroredUpTo(a, b, i) && 2 * i + 2 <= |a|
    ensures MirroredUpTo(a, b[i := b[|a| - 1 - i]][|a| - 1 - i := b[i]], i + 1)
  {
  }

  lemma MirroredDone(a: seq<int>, b: seq<int>, i: nat)
    requires MirroredUpTo(a, b, i) && i == |a| / 2
    ensures b == Reversed(a)
  {
  }

  lemma FloorScaled(x: real, m: nat)
    requires 0.0 <= x < 1.0 && m > 0
    ensures 0 <= (x * m as real).Floor < m
  {
    assert x * m as real < m as real;
  }

  /** `shuffle()`: for i from n-1 down to 1, swaps i with floor(x * (i+1)) for
      the next random draw x in [0, 1). Every swap is in range, so exactly
      n-1 swaps are counted, self-swaps included. */
  method Shuffle(s: Helper, draws: seq<real>) returns (r: Helper)
    requires |draws| == if |s.a| == 0 then 0 else |s.a| - 1
    requires forall k :: 0 <= k < |draws| ==> 0.0 <= draws[k] < 1.0
    ensures multiset(r.a) == multiset(s.a)
    ensures r.swaps == s.swaps + |draws|
    ensures r.comparisons == s.comparisons
  {
    var n := Length(s);
    r := s;
    var i: int := n - 1;
    while i > 0
      invariant if n == 0 then i == -1 else 0 <= i <= n - 1
      invariant |r.a| == n
      invariant multiset(r.a) == multiset(s.a)
      invariant r.swaps == s.swaps + (|draws| - (if n == 0 then 0 else i))
      invariant r.comparisons == s.comparisons
    {
      var x := draws[n - 1 - i];
      FloorScaled(x, i + 1);
      var j := (x * (i + 1) as real).Floor;
      r := Swap(r, i, j);
      i := i - 1;
    }
  }

  /** Swapping the same two cells twice restores the values. */
  lemma SwapTwiceRestores(s: Helper, i: int, j: int)
    ensures Swap(Swap(s, i, j), i, j).a == s.a
    ensures InRange(s, i) && InRange(s, j) ==> Swap(Swap(s, i, j), i, j).swaps == s.swaps + 2
  {
  }

  /** `compare` is a strict order test: it never answers true both ways. */
  lemma CompareAsymmetric(s: Helper, i: int, j: int)
    ensures !(Compare(s, i, j).0 && Compare(s, j, i).0)
  {
  }

  /** Reading back a written cell gives the written value; other cells are
      unaffected. */
  lemma SetThenGet(s: Helper, i: int, v: int, k: int)
    ensures GetValue(SetValue(s, i, v), k) ==
      (if k == i && InRange(s, i) then v else GetValue(s, k))
  {
  }

  /** Writing back the value just read is no change at all. */
  lemma GetThenSet(s: Helper, i: int)
    ensures SetValue(s, i, GetValue(s, i)) == s
  {
  }

  /** Reversing twice restores the sequence. */
  lemma ReversedTwice(a: seq<int>)
    ensures Reversed(Reversed(a)) == a
  {
  }

  /** Marking a cell with a transient class and then unmarking it leaves the
      same classes as unmarking alone: `unmark` erases every transient trace. */
  lemma UnmarkErasesMark(s: Helper, i: int, t: Tag)
    requires t in Transient
    ensures Unmark(AddTag(s, i, t), i) == Unmark(s, i)
  {
    if InRange(s, i) {
      assert s.tags[i] + {t} - Transient == s.tags[i] - Transient;
    }
  }

  /** The closing `for (i = 0; i < length; i++) markSorted(i)` loop that most
      algorithms end with: every cell gets the sorted mark, nothing else
      changes. */
  method MarkAllSorted(s: Helper) returns (t: Helper)
    ensures t.a == s.a && t.comparisons == s.comparisons && t.swaps == s.swaps
    ensures AllMarkedSorted(t)
  {
    var n := Length(s);
    t := s;
    var i := 0;
    while i < n
      invariant 0 <= i <= n
      invariant t.a == s.a && t.comparisons == s.comparisons && t.swaps == s.swaps
      invariant forall k :: 0 <= k < i ==> k in SortedCells(t)
    {
      t := MarkSorted(t, i);
      i := i + 1;
    }
  }

  /** `compare(i, j)` followed, when it answers true, by `swap(i, j)`: the
      compare-and-exchange step of the exchange sorts. */
  method CompareExchange(s: Helper, i: nat, j: nat) returns (t: Helper, exchanged: bool)
    requires i < j < |s.a|
    ensures exchanged == (s.a[i] > s.a[j])
    ensures t.a == if exchanged then s.a[i := s.a[j]][j := s.a[i]] else s.a
    ensures multiset(t.a) == multiset(s.a)
    ensures t.comparisons == s.comparisons + 1
    ensures t.swaps == s.swaps + (if exchanged then 1 else 0)
    ensures SortedCells(t) == SortedCells(s)
  {
    var r := Compare(s, i, j);
    t := r.1;
    exchanged := r.0;
    if exchanged {
      t := Swap(t, i, j);
    }
  }
}
