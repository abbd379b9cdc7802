/** Ordering vocabulary shared by every sorting algorithm of the visualizer:
    sortedness, inversion counting, and the facts about permutations that the
    algorithm proofs lean on. */
module Orders {

  /** Non-decreasing order, the goal of every algorithm. */
  predicate Sorted(a: seq<int>) {
    forall i, j :: 0 <= i < j < |a| ==> a[i] <= a[j]
  }

  /** Each value is at most its right neighbour. This local form is what the
      loop invariants carry; `AdjacentOrderedSorted` turns it into `Sorted`. */
  predicate AdjacentOrdered(a: seq<int>) {
    forall k :: 0 < k < |a| ==> a[k - 1] <= a[k]
  }

  /** Neighbourwise order and global order coincide. */
  lemma {:induction false} AdjacentOrderedSorted(a: seq<int>)
    ensures AdjacentOrdered(a) <==> Sorted(a)
    decreases |a|
  {
    if |a| > 1 && AdjacentOrdered(a) {
      var b := a[..|a| - 1];
      assert AdjacentOrdered(b) by {
        forall k | 0 < k < |b|
          ensures b[k - 1] <= b[k]
        {
          assert b[k - 1] == a[k - 1] && b[k] == a[k];
        }
      }
      AdjacentOrderedSorted(b);
      forall i, j | 0 <= i < j < |a|
        ensures a[i] <= a[j]
      {
        if j < |a| - 1 {
          assert a[i] == b[i] && a[j] == b[j];
        } else if i < j - 1 {
          assert a[i] == b[i] && a[j - 1] == b[j - 1];
        }
      }
    }
  }

  /** Comparisons made by the first `i` passes of a scan that compares the
      pass's element with every later one: (n-1) + (n-2) + ... + (n-i). */
  function ScanTotal(n: nat, i: nat): nat
    requires i <= n
  {
    if i == 0 then 0 else ScanTotal(n, i - 1) + (n - i)
  }

  /** The scan total in closed form: all passes together compare each of the
      n(n-1)/2 pairs once. */
  lemma {:induction false} ScanTotalClosedForm(n: nat, i: nat)
    requires i <= n
    ensures 2 * ScanTotal(n, i) == i * (2 * n - 1 - i)
    ensures i + 1 >= n ==> ScanTotal(n, i) == n * (n - 1) / 2
  {
    if i > 0 {
      ScanTotalClosedForm(n, i - 1);
      assert (i - 1) * (2 * n - 1 - (i - 1)) + 2 * (n - i) == i * (2 * n - 1 - i);
    }
    if i + 1 >= n {
      if i == n {
        assert i * (2 * n - 1 - i) == n * (n - 1);
      } else {
        assert i * (2 * n - 1 - i) == (n - 1) * n;
      }
    }
  }

  /** Number of elements of `s` strictly below `v`. */
  function CountBelow(v: int, s: seq<int>): (c: nat)
    ensures c <= |s|
  {
    if |s| == 0 then 0 else (if s[0] < v then 1 else 0) + CountBelow(v, s[1..])
  }

  /** Number of inverted pairs p < q with a[p] > a[q]: the first element's
      inversions with the rest, plus the inversions of the rest. */
  function Inversions(a: seq<int>): nat {
    if |a| == 0 then 0 else CountBelow(a[0], a[1..]) + Inversions(a[1..])
  }

  lemma {:induction false} CountBelowAppend(v: int, p: seq<int>, q: seq<int>)
    ensures CountBelow(v, p + q) == CountBelow(v, p) + CountBelow(v, q)
    decreases |p|
  {
    if |p| == 0 {
      assert p + q == q;
    } else {
      assert (p + q)[1..] == p[1..] + q;
      CountBelowAppend(v, p[1..], q);
    }
  }

  /** CountBelow depends only on the multiset of the sequence. */
  lemma {:induction false} CountBelowPermutation(v: int, s: seq<int>, t: seq<int>)
    requires multiset(s) == multiset(t)
    ensures CountBelow(v, s) == CountBelow(v, t)
    decreases |s|
  {
    if |s| == 0 {
      assert |multiset(t)| == 0;
    } else {
      var x := s[0];
      assert x in multiset(t);
      var k :| 0 <= k < |t| && t[k] == x;
      CountBelowRemove(v, t, k);
      assert multiset(s[1..]) == multiset(s) - multiset{x} by {
        assert s == [x] + s[1..];
      }
      CountBelowPermutation(v, s[1..], t[..k] + t[k + 1..]);
    }
  }

  /** Taking t[k] out of t takes its share out of the count and out of the
      multiset. */
  lemma CountBelowRemove(v: int, t: seq<int>, k: nat)
    requires k < |t|
    ensures CountBelow(v, t) == (if t[k] < v then 1 else 0) + CountBelow(v, t[..k] + t[k + 1..])
    ensures multiset(t[..k] + t[k + 1..]) == multiset(t) - multiset{t[k]}
  {
    var x := t[k];
    assert t == t[..k] + ([x] + t[k + 1..]);
    CountBelowAppend(v, t[..k], [x] + t[k + 1..]);
    CountBelowAppend(v, [x], t[k + 1..]);
    CountBelowAppend(v, t[..k], t[k + 1..]);
    assert multiset(t) == multiset(t[..k]) + multiset{x} + multiset(t[k + 1..]);
  }

  /** Exchanging an adjacent inverted pair removes exactly one inversion.
      This is why every adjacent exchange sort performs exactly as many swaps
      as its input has inversions. */
  lemma {:induction false} SwapAdjacentInversions(a: seq<int>, j: nat)
    requires j + 1 < |a| && a[j] > a[j + 1]
    ensures Inversions(a[j := a[j + 1]][j + 1 := a[j]]) + 1 == Inversions(a)
    decreases j
  {
    var b := a[j := a[j + 1]][j + 1 := a[j]];
    if j == 0 {
      var rest := a[2..];
      assert a[1..] == [a[1]] + rest && a[1..][1..] == rest;
      assert b[1..] == [b[1]] + rest && b[1..][1..] == rest;
      CountBelowAppend(a[0], [a[1]], rest);
      CountBelowAppend(b[0], [b[1]], rest);
    } else {
      assert b[1..] == a[1..][j - 1 := a[j + 1]][j := a[j]];
      SwapAdjacentInversions(a[1..], j - 1);
      assert multiset(b[1..]) == multiset(a[1..]);
      CountBelowPermutation(a[0], b[1..], a[1..]);
    }
  }

  /** A sequence has no inversions exactly when it is sorted. */
  lemma {:induction false} InversionsZeroIffSorted(a: seq<int>)
    ensures Inversions(a) == 0 <==> Sorted(a)
    decreases |a|
  {
    if |a| > 0 {
      InversionsZeroIffSorted(a[1..]);
      CountBelowZeroIffLowerBound(a[0], a[1..]);
      if Sorted(a) {
        assert Sorted(a[1..]);
      }
      if Inversions(a) == 0 {
        forall i, j | 0 <= i < j < |a|
          ensures a[i] <= a[j]
        {
          if i > 0 {
            assert a[i] == a[1..][i - 1] && a[j] == a[1..][j - 1];
          } else {
            assert a[j] == a[1..][j - 1];
          }
        }
      }
    }
  }

  lemma {:induction false} CountBelowZeroIffLowerBound(v: int, s: seq<int>)
    ensures CountBelow(v, s) == 0 <==> forall k :: 0 <= k < |s| ==> v <= s[k]
    decreases |s|
  {
    if |s| > 0 {
      CountBelowZeroIffLowerBound(v, s[1..]);
      assert forall k :: 1 <= k < |s| ==> s[k] == s[1..][k - 1];
    }
  }

  /** Two sorted arrangements of the same multiset are identical: sorting has
      exactly one possible result. */
  lemma {:induction false} SortedUnique(a: seq<int>, b: seq<int>)
    requires Sorted(a) && Sorted(b) && multiset(a) == multiset(b)
    ensures a == b
    decreases |a|
  {
    if |a| == 0 {
      assert |multiset(b)| == 0;
    } else {
      assert |b| == |multiset(b)| == |multiset(a)| == |a|;
      assert a[0] in multiset(b);
      var k :| 0 <= k < |b| && b[k] == a[0];
      assert b[0] <= a[0];
      assert b[0] in multiset(a);
      var m :| 0 <= m < |a| && a[m] == b[0];
      assert a[0] <= b[0];
      assert a == [a[0]] + a[1..];
      assert b == [b[0]] + b[1..];
      assert multiset(a) == multiset{a[0]} + multiset(a[1..]);
      assert multiset(b) == multiset{b[0]} + multiset(b[1..]);
      assert multiset(a[1..]) == multiset(a) - multiset{a[0]};
      assert multiset(b[1..]) == multiset(b) - multiset{b[0]};
      SortedTail(a);
      SortedTail(b);
      SortedUnique(a[1..], b[1..]);
    }
  }

  lemma SortedTail(a: seq<int>)
    requires |a| > 0 && Sorted(a)
    ensures Sorted(a[1..])
  {
    forall i, j | 0 <= i < j < |a| - 1
      ensures a[1..][i] <= a[1..][j]
    {
      assert a[1..][i] == a[i + 1] && a[1..][j] == a[j + 1];
    }
  }

  /** An upper bound of every element of `s` bounds every element of a
      permutation of `s`. */
  lemma PermutationBoundedAbove(s: seq<int>, t: seq<int>, hi: int)
    requires multiset(s) == multiset(t)
    requires forall k :: 0 <= k < |s| ==> s[k] <= hi
    ensures forall k :: 0 <= k < |t| ==> t[k] <= hi
  {
    forall k | 0 <= k < |t|
      ensures t[k] <= hi
    {
      assert t[k] in multiset(s);
    }
  }

  /** A lower bound of every element of `s` bounds every element of a
      permutation of `s`. */
  lemma PermutationBoundedBelow(s: seq<int>, t: seq<int>, lo: int)
    requires multiset(s) == multiset(t)
    requires forall k :: 0 <= k < |s| ==> lo <= s[k]
    ensures forall k :: 0 <= k < |t| ==> lo <= t[k]
  {
    forall k | 0 <= k < |t|
      ensures lo <= t[k]
    {
      assert t[k] in multiset(s);
    }
  }

  /** Two arrangements of the same values that agree outside [lo, hi) hold
      the same values inside it. */
  lemma SegmentMultiset(a: seq<int>, b: seq<int>, lo: nat, hi: nat)
    requires lo <= hi <= |a| == |b| && multiset(a) == multiset(b)
    requires forall k :: 0 <= k < |a| && !(lo <= k < hi) ==> a[k] == b[k]
    ensures multiset(a[lo..hi]) == multiset(b[lo..hi])
  {
    assert a[..lo] == b[..lo];
    assert a[hi..] == b[hi..];
    ThreeWaySplit(a, lo, hi);
    ThreeWaySplit(b, lo, hi);
  }

  lemma ThreeWaySplit(a: seq<int>, lo: nat, hi: nat)
    requires lo <= hi <= |a|
    ensures multiset(a[lo..hi]) == multiset(a) - multiset(a[..lo]) - multiset(a[hi..])
  {
    assert a == a[..lo] + a[lo..hi] + a[hi..];
  }
}
