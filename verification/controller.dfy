/** The page controller of scripts/app.js: the global `state` object and
    the button handlers that change it (`generateArray`, `startSorting`,
    `togglePause`, `resetArray`, `resetMetrics`). The board is the array
    together with its cells and counters, as in the accessor model. */
module Controller {
  import opened Orders
  import opened Accessor
  import Engine
  import RadixSort

  /** The parts of `state` the handlers read and write. The timer and the
      display settings are left out. */
  datatype App = App(isSorting: bool, isPaused: bool, board: Helper, originalArray: seq<int>)

  /** How a press of the sort button ends: refused because no algorithm is
      selected, refused because a sort is running, or run to the end. */
  datatype Outcome = NoAlgorithm | Busy | Done

  /** Every value lies in 1..100, the range `generateRandomArray` draws. */
  predicate PageValues(a: seq<int>) {
    forall k :: 0 <= k < |a| ==> 1 <= a[k] <= 100
  }

  /** What every handler keeps: the original array holds page values and
      the board holds a rearrangement of it. */
  predicate Valid(app: App) {
    PageValues(app.originalArray) && multiset(app.board.a) == multiset(app.originalArray)
  }

  /** A rearrangement of page values holds page values. */
  lemma PermutedPageValues(a: seq<int>, b: seq<int>)
    requires PageValues(a) && multiset(a) == multiset(b)
    ensures PageValues(b)
  {
    PermutationBoundedAbove(a, b, 100);
    PermutationBoundedBelow(a, b, 1);
  }

  /** In a valid state the board holds page values, so every sort,
      radix sort included, may run on it. */
  lemma ValidBoard(app: App)
    requires Valid(app)
    ensures PageValues(app.board.a) && RadixSort.NonNegative(app.board.a)
  {
    PermutedPageValues(app.originalArray, app.board.a);
  }

  /** `generateRandomArray(size)`: draws[k] stands for the k-th
      `Math.random()` call, a real in [0, 1); each value is one more than
      the floor of the draw scaled to 100. */
  function GenerateRandomArray(size: nat, draws: seq<real>): (a: seq<int>)
    requires |draws| == size
    requires forall k :: 0 <= k < |draws| ==> 0.0 <= draws[k] < 1.0
    ensures |a| == size && PageValues(a)
    ensures forall k :: 0 <= k < size ==> (a[k] - 1) as real <= draws[k] * 100.0 < a[k] as real
    decreases size
  {
    if size == 0 then []
    else
      FloorScaled(draws[0], 100);
      [(draws[0] * 100.0).Floor + 1] + GenerateRandomArray(size - 1, draws[1..])
  }

  /** `renderArray`: rebuilds one cell per value of the array, so no cell
      keeps a mark; the counters are not touched. */
  function Render(s: Helper, a: seq<int>): (r: Helper)
    ensures r.a == a && r.comparisons == s.comparisons && r.swaps == s.swaps
    ensures SortedCells(r) == {} && forall k :: 0 <= k < |a| ==> r.tags[k] == {}
  {
    Board(a, seq(|a|, _ => {}), s.comparisons, s.swaps)
  }

  /** `resetMetrics`: both counters back to zero, the cells untouched. */
  function ResetMetrics(s: Helper): (r: Helper)
    ensures r.a == s.a && r.tags == s.tags && SortedCells(r) == SortedCells(s)
    ensures r.comparisons == 0 && r.swaps == 0
  {
    s.(comparisons := 0, swaps := 0)
  }

  /** A board as `generateArray` leaves it: `renderArray` builds one
      unmarked cell per value and `resetMetrics` sets both counters to
      zero. */
  function Fresh(a: seq<int>): (s: Helper)
    ensures s.a == a && s.comparisons == 0 && s.swaps == 0
    ensures SortedCells(s) == {} && forall k :: 0 <= k < |a| ==> s.tags[k] == {}
  {
    Board(a, seq(|a|, _ => {}), 0, 0)
  }

  /** Rendering and then resetting the counters gives the fresh board,
      whatever board was shown before. */
  lemma RenderThenResetIsFresh(s: Helper, a: seq<int>)
    ensures ResetMetrics(Render(s, a)) == Fresh(a)
  {
  }

  /** Resetting the counters twice is resetting them once. */
  lemma ResetMetricsIdempotent(s: Helper)
    ensures ResetMetrics(ResetMetrics(s)) == ResetMetrics(s)
  {
  }

  /** `generateArray`: draws a new array, keeps a copy as the original,
      renders it and resets the counters. The result is a fresh, valid
      board whatever state the page was in. */
  function GenerateArray(app: App, size: nat, draws: seq<real>): (r: App)
    requires |draws| == size
    requires forall k :: 0 <= k < |draws| ==> 0.0 <= draws[k] < 1.0
    ensures Valid(r) && |r.board.a| == size
    ensures r.board == Fresh(r.originalArray)
    ensures r.isSorting == app.isSorting && r.isPaused == app.isPaused
  {
    var a := GenerateRandomArray(size, draws);
    app.(board := ResetMetrics(Render(app.board, a)), originalArray := a)
  }

  /** `togglePause`: flips the pause flag and nothing else. */
  function TogglePause(app: App): (r: App)
    ensures r.isPaused != app.isPaused
    ensures r.isSorting == app.isSorting && r.board == app.board && r.originalArray == app.originalArray
  {
    app.(isPaused := !app.isPaused)
  }

  /** Pausing and resuming returns to the state before. */
  lemma TogglePauseTwice(app: App)
    ensures TogglePause(TogglePause(app)) == app
  {
  }

  /** `resetArray`: puts the original array back on a freshly rendered
      board with zero counters. */
  function ResetArray(app: App): (r: App)
    ensures r.board.a == app.originalArray && r.originalArray == app.originalArray
    ensures r.board.comparisons == 0 && r.board.swaps == 0 && SortedCells(r.board) == {}
    ensures r.isSorting == app.isSorting && r.isPaused == app.isPaused
    ensures Valid(app) ==> Valid(r)
  {
    app.(board := ResetMetrics(Render(app.board, app.originalArray)))
  }

  /** Resetting twice is resetting once. */
  lemma ResetArrayIdempotent(app: App)
    ensures ResetArray(ResetArray(app)) == ResetArray(app)
  {
  }

  /** Whatever has happened to the board since `generateArray`, as long as
      the original copy and the flags are the same, `resetArray` brings
      the page back to the state `generateArray` left. */
  lemma ResetRestoresGenerated(app: App, size: nat, draws: seq<real>, later: App)
    requires |draws| == size
    requires forall k :: 0 <= k < |draws| ==> 0.0 <= draws[k] < 1.0
    requires later.originalArray == GenerateArray(app, size, draws).originalArray
    requires later.isSorting == app.isSorting && later.isPaused == app.isPaused
    ensures ResetArray(later) == GenerateArray(app, size, draws)
  {
    var g := GenerateArray(app, size, draws);
    assert ResetArray(later).board == g.board;
  }

  /** The two refusals at the top of `startSorting`: no algorithm selected,
      or a sort still running. `Done` stands for an admitted start. */
  function Admit(app: App, algorithm: string): (o: Outcome)
    ensures o == NoAlgorithm <==> algorithm == ""
    ensures o == Busy <==> algorithm != "" && app.isSorting
  {
    if algorithm == "" then NoAlgorithm
    else if app.isSorting then Busy
    else Done
  }

  /** What an admitted `startSorting` does before any sort step: the run
      is marked as in progress and unpaused and the counters restart at
      zero; the cells and the original copy are as they were. */
  function BeginRun(app: App): (r: App)
    ensures r.isSorting && !r.isPaused && r.originalArray == app.originalArray
    ensures r.board.a == app.board.a && r.board.tags == app.board.tags
    ensures r.board.comparisons == 0 && r.board.swaps == 0
    ensures Valid(app) ==> Valid(r)
  {
    app.(isSorting := true, isPaused := false, board := ResetMetrics(app.board))
  }

  /** While a run is in progress, every further press of the sort button
      with a selected algorithm is refused as busy. */
  lemma RunningRefusesStart(app: App, algorithm: string)
    requires algorithm != ""
    ensures Admit(BeginRun(app), algorithm) == Busy
  {
  }

  /** The `finally` clause: the running flag is cleared and the board is
      left as the run left it. */
  function Finally(running: App, board: Helper): (r: App)
    ensures !r.isSorting && r.board == board
    ensures r.isPaused == running.isPaused && r.originalArray == running.originalArray
  {
    running.(isSorting := false, board := board)
  }

  /** Whatever board a run ends with, the page accepts the next start. */
  lemma FinallyReleases(running: App, board: Helper, algorithm: string)
    requires algorithm != ""
    ensures Admit(Finally(running, board), algorithm) == Done
  {
  }

  /** The end of an admitted run, `board` being where the sort stopped. A
      completed run marks every cell sorted; a run that threw skips the
      marking (the `catch` branch). Either way the `finally` clause clears
      the running flag, and a board that is still a rearrangement of the
      original copy keeps the state valid. */
  method EndRun(running: App, board: Helper, failed: bool) returns (r: App)
    ensures !r.isSorting && r.isPaused == running.isPaused && r.originalArray == running.originalArray
    ensures r.board.a == board.a && r.board.comparisons == board.comparisons && r.board.swaps == board.swaps
    ensures failed ==> r.board == board
    ensures !failed ==> AllMarkedSorted(r.board)
    ensures PageValues(running.originalArray) && multiset(board.a) == multiset(running.originalArray) ==> Valid(r)
  {
    var t := board;
    if !failed {
      t := MarkAllSorted(board);
    }
    r := Finally(running, t);
  }

  /** `startSorting(algorithm)`. An empty selection or a running sort
      leaves the state alone. Otherwise the run begins (running, unpaused,
      zero counters), the selected sort runs to the end, every cell is
      marked sorted (also for an id no sort answers to, whose array stays
      as it was), and the running flag is cleared. The valid-state
      invariant is kept throughout. */
  method StartSorting(app: App, algorithm: string) returns (r: App, outcome: Outcome)
    requires Valid(app)
    ensures outcome == NoAlgorithm <==> algorithm == ""
    ensures outcome == Busy <==> algorithm != "" && app.isSorting
    ensures outcome != Done ==> r == app
    ensures Valid(r) && r.originalArray == app.originalArray
    ensures outcome == Done ==> !r.isSorting && !r.isPaused && AllMarkedSorted(r.board)
    ensures outcome == Done && algorithm in Engine.Dispatched ==> Sorted(r.board.a)
    ensures outcome == Done && algorithm !in Engine.Dispatched ==>
      r.board.a == app.board.a && r.board.comparisons == 0 && r.board.swaps == 0
    ensures outcome == Done && algorithm == "bubble" ==>
      r.board.comparisons == |app.board.a| * (|app.board.a| - 1) / 2 && r.board.swaps == Inversions(app.board.a)
    ensures outcome == Done && algorithm == "selection" ==>
      r.board.comparisons == |app.board.a| * (|app.board.a| - 1) / 2 &&
      r.board.swaps <= (if |app.board.a| == 0 then 0 else |app.board.a| - 1)
    ensures outcome == Done && algorithm == "insertion" ==>
      r.board.comparisons == 0 && r.board.swaps == Inversions(app.board.a)
    ensures outcome == Done && algorithm in {"merge", "radix", "shell"} ==>
      r.board.comparisons == 0 && r.board.swaps == 0
    ensures outcome == Done && algorithm in {"quick", "heap"} ==> r.board.comparisons == 0
  {
    outcome := Admit(app, algorithm);
    if outcome != Done {
      return app, outcome;
    }
    ValidBoard(app);
    var running := BeginRun(app);
    var t, _ := Engine.RunAlgorithm(algorithm, running.board);
    r := EndRun(running, t, false);
  }
}
