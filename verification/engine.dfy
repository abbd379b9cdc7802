/** The dispatch in `startSorting` (scripts/app.js): the selected id picks
    one of eight sorts of scripts/sort-algorithms.js. Cocktail, gnome and
    comb sort exist in the algorithm class but no id reaches them, so
    selecting them (or anything else) leaves the array as it is. */
module Engine {
  import opened Orders
  import opened Accessor
  import opened ElementarySorts
  import MergeSort
  import QuickSort
  import HeapSort
  import RadixSort
  import ShellSort

  /** The ids that the `switch` in `startSorting` handles. */
  const Dispatched: set<string> :=
    {"bubble", "selection", "insertion", "merge", "quick", "heap", "radix", "shell"}

  /** Runs the sort the id names. A dispatched run leaves the array sorted
      and permuted, with the counter effects of that sort; any other id
      changes nothing at all. */
  method RunAlgorithm(id: string, s: Helper) returns (t: Helper, dispatched: bool)
    requires RadixSort.NonNegative(s.a)
    ensures dispatched <==> id in Dispatched
    ensures dispatched ==> Sorted(t.a) && multiset(t.a) == multiset(s.a) && AllMarkedSorted(t)
    ensures !dispatched ==> t == s
    ensures id == "bubble" ==>
      t.comparisons == s.comparisons + |s.a| * (|s.a| - 1) / 2 && t.swaps == s.swaps + Inversions(s.a)
    ensures id == "selection" ==>
      t.comparisons == s.comparisons + |s.a| * (|s.a| - 1) / 2 &&
      t.swaps <= s.swaps + (if |s.a| == 0 then 0 else |s.a| - 1)
    ensures id == "insertion" ==> t.comparisons == s.comparisons && t.swaps == s.swaps + Inversions(s.a)
    ensures id in {"merge", "radix", "shell"} ==> t.comparisons == s.comparisons && t.swaps == s.swaps
    ensures id in {"quick", "heap"} ==> t.comparisons == s.comparisons
  {
    dispatched := true;
    match id {
      case "bubble" => t := BubbleSort(s);
      case "selection" => t := SelectionSort(s);
      case "insertion" => t := InsertionSort(s);
      case "merge" => t := MergeSort.MergeSort(s);
      case "quick" => t := QuickSort.QuickSort(s);
      case "heap" => t := HeapSort.HeapSort(s);
      case "radix" => t := RadixSort.RadixSort(s);
      case "shell" => t := ShellSort.ShellSort(s);
      case _ =>
        t := s;
        dispatched := false;
    }
  }
}
