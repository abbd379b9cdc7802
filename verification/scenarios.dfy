/** Two worked runs of the elementary sorts on concrete boards, as the
    page would start them: a freshly rendered board with both counters at
    zero. */
module Scenarios {
  import opened Orders
  import opened Accessor
  import opened ElementarySorts
  import Controller

  /** Bubble sort on [5, 3, 8, 1, 9, 2]: fifteen comparisons (all pairs of
      six cells) and eight swaps (one per inverted pair). */
  method BubbleScenario() returns (t: Helper)
    ensures t.a == [1, 2, 3, 5, 8, 9]
    ensures t.comparisons == 15 && t.swaps == 8
  {
    ScenarioInversions();
    t := BubbleSort(Controller.Fresh([5, 3, 8, 1, 9, 2]));
    ScenarioSorted(t.a);
  }

  /** The inverted pairs of [5, 3, 8, 1, 9, 2], counted per left element:
      three below 5, two below 3, two below 8, none below 1, one below 9. */
  lemma ScenarioInversions()
    ensures Inversions([5, 3, 8, 1, 9, 2]) == 8
  {
    assert [5, 3, 8, 1, 9, 2][1..] == [3, 8, 1, 9, 2];
    assert [3, 8, 1, 9, 2][1..] == [8, 1, 9, 2];
    assert [8, 1, 9, 2][1..] == [1, 9, 2];
    assert [1, 9, 2][1..] == [9, 2];
    assert [9, 2][1..] == [2];
    assert CountBelow(5, [3, 8, 1, 9, 2]) == 3;
    assert CountBelow(3, [8, 1, 9, 2]) == 2;
    assert CountBelow(8, [1, 9, 2]) == 2;
    assert CountBelow(1, [9, 2]) == 0;
    assert CountBelow(9, [2]) == 1;
  }

  /** The only sorted arrangement of the scenario's values. */
  lemma ScenarioSorted(t: seq<int>)
    requires Sorted(t) && multiset(t) == multiset([5, 3, 8, 1, 9, 2])
    ensures t == [1, 2, 3, 5, 8, 9]
  {
    ScenarioTarget();
    ScenarioValues();
    SortedUnique(t, [1, 2, 3, 5, 8, 9]);
  }

  /** [1, 2, 3, 5, 8, 9] is sorted. */
  lemma ScenarioTarget()
    ensures Sorted([1, 2, 3, 5, 8, 9])
  {
    var r := [1, 2, 3, 5, 8, 9];
    forall k | 0 < k < |r| ensures r[k - 1] <= r[k] { }
    AdjacentOrderedSorted(r);
  }

  /** [1, 2, 3, 5, 8, 9] holds the scenario's values. */
  lemma ScenarioValues()
    ensures multiset([5, 3, 8, 1, 9, 2]) == multiset([1, 2, 3, 5, 8, 9])
  {
  }

  /** Insertion sort on equal values moves nothing: its test is strict. */
  method InsertionScenario() returns (t: Helper)
    ensures t.a == [4, 4, 4] && t.swaps == 0 && t.comparisons == 0
  {
    var input := [4, 4, 4];
    t := InsertionSort(Controller.Fresh(input));
    assert Inversions(input) == 0;
    SortedUnique(t.a, input);
  }
}
