/** The positional evaluation: which runs are scanned, in which order, what each
    contributes to the score, and which completed lines become the outcome. */
module Scan {
  import opened Seqs
  import opened Cells
  import opened Runs

  /** The largest integer a double holds exactly, 2^53 - 1, and its negation. */
  const MaxSafe: int := 9_007_199_254_740_991
  const MinSafe: int := -9_007_199_254_740_991

  function Pow10(n: nat): (r: nat)
    ensures r >= 1
  {
    if n == 0 then 1 else 10 * Pow10(n - 1)
  }

  /** The runs starting at (col, row) that pass the bounds guards, in the scan's
      direction order: horizontal, vertical, diagonal down, diagonal up. The
      diagonal-up guard is `row > 3`, kept exactly as the board writes it. */
  function RunsAt(columns: int, rows: int, col: int, row: int): seq<Run> {
    (if col < columns - 3 then [Run(Coord(col, row), Horizontal)] else [])
    + (if row < rows - 3 then [Run(Coord(col, row), Vertical)] else [])
    + (if col < columns - 3 && row < rows - 3 then [Run(Coord(col, row), DiagonalDown)] else [])
    + (if col < columns - 3 && row > 3 then [Run(Coord(col, row), DiagonalUp)] else [])
  }

  /** The runs of the two nested loops from start cell (col, row) on: the rest of
      column `col` from row `row` down, then every later column from row 0. */
  function RunsFrom(columns: int, rows: int, col: int, row: int): seq<Run>
    decreases columns - col, rows - row
  {
    if col >= columns then []
    else if row >= rows then RunsFrom(columns, rows, col + 1, 0)
    else RunsAt(columns, rows, col, row) + RunsFrom(columns, rows, col, row + 1)
  }

  /** Every run the evaluation counts, column by column, then row by row. */
  function ScannedRuns(columns: int, rows: int): seq<Run> {
    RunsFrom(columns, rows, 0, 0)
  }

  /** The start cells and directions the guards admit. */
  predicate Guarded(columns: int, rows: int, run: Run) {
    var c := run.start.col;
    var r := run.start.row;
    && 0 <= c < columns && 0 <= r < rows
    && match run.dir
       case Horizontal => c < columns - 3
       case Vertical => r < rows - 3
       case DiagonalDown => c < columns - 3 && r < rows - 3
       case DiagonalUp => c < columns - 3 && r > 3
  }

  lemma RunsAtExactly(columns: int, rows: int, col: int, row: int, run: Run)
    requires 0 <= col < columns && 0 <= row < rows
    ensures run in RunsAt(columns, rows, col, row)
            <==> Guarded(columns, rows, run) && run.start == Coord(col, row)
  {
    var here := Coord(col, row);
    if Guarded(columns, rows, run) && run.start == here {
      assert run == Run(here, run.dir);
    }
  }

  /** Position of a direction in the scan's order within one start cell. */
  function Rank(d: Direction): nat {
    match d
    case Horizontal => 0
    case Vertical => 1
    case DiagonalDown => 2
    case DiagonalUp => 3
  }

  /** The runs of one start cell all start there and come in the order horizontal,
      vertical, diagonal down, diagonal up, each direction at most once. */
  lemma RunsAtOrder(columns: int, rows: int, col: int, row: int)
    ensures var runs := RunsAt(columns, rows, col, row);
            && (forall i :: 0 <= i < |runs| ==> runs[i].start == Coord(col, row))
            && (forall i, j :: 0 <= i < j < |runs| ==> Rank(runs[i].dir) < Rank(runs[j].dir))
  {
  }

  /** Whether the scan from start cell (col, row) on reaches a run starting at `start`. */
  predicate Reaches(col: int, row: int, start: Coord) {
    col < start.col || (col == start.col && row <= start.row)
  }

  lemma {:induction false} RunsFromExactly(columns: int, rows: int, col: int, row: int, run: Run)
    requires 0 <= col && 0 <= row
    ensures run in RunsFrom(columns, rows, col, row)
            <==> Guarded(columns, rows, run) && Reaches(col, row, run.start)
    decreases columns - col, rows - row, 1
  {
    if col < columns {
      if row >= rows {
        NextColumnReaches(columns, rows, col, row, run);
      } else {
        NextRowReaches(columns, rows, col, row, run);
      }
    }
  }

  lemma {:induction false} NextColumnReaches(columns: int, rows: int, col: int, row: int, run: Run)
    requires 0 <= col < columns && row >= rows
    ensures run in RunsFrom(columns, rows, col, row)
            <==> Guarded(columns, rows, run) && Reaches(col, row, run.start)
    decreases columns - col, rows - row, 0
  {
    RunsFromExactly(columns, rows, col + 1, 0, run);
  }

  lemma {:induction false} NextRowReaches(columns: int, rows: int, col: int, row: int, run: Run)
    requires 0 <= col < columns && 0 <= row < rows
    ensures run in RunsFrom(columns, rows, col, row)
            <==> Guarded(columns, rows, run) && Reaches(col, row, run.start)
    decreases columns - col, rows - row, 0
  {
    RunsFromExactly(columns, rows, col, row + 1, run);
    InAppend(run, RunsAt(columns, rows, col, row), RunsFrom(columns, rows, col, row + 1));
    RunsAtExactly(columns, rows, col, row, run);
  }

  /** Runs from start cell (col, row) on never repeat. */
  lemma {:induction false} RunsFromOnce(columns: int, rows: int, col: int, row: int)
    requires 0 <= col && 0 <= row
    ensures NoDuplicates(RunsFrom(columns, rows, col, row))
    decreases columns - col, rows - row, 1
  {
    if col < columns {
      if row >= rows {
        NextColumnOnce(columns, rows, col, row);
      } else {
        NextRowOnce(columns, rows, col, row);
      }
    }
  }

  lemma {:induction false} NextColumnOnce(columns: int, rows: int, col: int, row: int)
    requires 0 <= col < columns && row >= rows
    ensures NoDuplicates(RunsFrom(columns, rows, col, row))
    decreases columns - col, rows - row, 0
  {
    RunsFromOnce(columns, rows, col + 1, 0);
  }

  lemma {:induction false} NextRowOnce(columns: int, rows: int, col: int, row: int)
    requires 0 <= col < columns && 0 <= row < rows
    ensures NoDuplicates(RunsFrom(columns, rows, col, row))
    decreases columns - col, rows - row, 0
  {
    var here := RunsAt(columns, rows, col, row);
    var rest := RunsFrom(columns, rows, col, row + 1);
    RunsFromOnce(columns, rows, col, row + 1);
    RunsAtOrder(columns, rows, col, row);
    forall x | x in here
      ensures x !in rest
    {
      RunsFromExactly(columns, rows, col, row + 1, x);
    }
    NoDuplicatesAppend(here, rest);
  }

  /** The evaluation counts each run at most once. */
  lemma ScannedOnce(columns: int, rows: int)
    ensures NoDuplicates(ScannedRuns(columns, rows))
  {
    RunsFromOnce(columns, rows, 0, 0);
  }

  /** The scan visits exactly the guarded runs: every start cell of the grid, in each
      direction whose guard holds there, and nothing else. */
  lemma ScannedRunsExactly(columns: int, rows: int, run: Run)
    ensures run in ScannedRuns(columns, rows) <==> Guarded(columns, rows, run)
  {
    RunsFromExactly(columns, rows, 0, 0, run);
  }

  /** The guards keep all four cells of a run inside the grid. */
  lemma GuardedInGrid(g: Grid, run: Run)
    requires IsGrid(g) && Guarded(|g|, Rows(g), run)
    ensures RunInGrid(g, run)
  {
    forall k | 0 <= k < 4
      ensures InGrid(g, At(run, k).col, At(run, k).row)
    {
      assert |g[At(run, k).col]| == Rows(g);
    }
  }

  /** Every run of the list lies inside the grid. */
  predicate AllInGrid(g: Grid, runs: seq<Run>)
    decreases |runs|
  {
    runs == [] || (RunInGrid(g, runs[0]) && AllInGrid(g, runs[1..]))
  }

  lemma {:induction false} AllInGridAppend(g: Grid, a: seq<Run>, b: seq<Run>)
    requires AllInGrid(g, a) && AllInGrid(g, b)
    ensures AllInGrid(g, a + b)
    decreases |a|
  {
    if a == [] {
      assert a + b == b;
    } else {
      assert (a + b)[1..] == a[1..] + b;
      AllInGridAppend(g, a[1..], b);
    }
  }

  /** A list lies inside the grid when each of its runs does. */
  lemma {:induction false} AllInGridEvery(g: Grid, runs: seq<Run>)
    requires forall run :: run in runs ==> RunInGrid(g, run)
    ensures AllInGrid(g, runs)
    decreases |runs|
  {
    if runs != [] {
      assert forall run :: run in runs[1..] ==> run in runs;
      AllInGridEvery(g, runs[1..]);
    }
  }

  /** The runs one start cell admits lie inside the grid. */
  lemma {:induction false} RunsAtInGrid(g: Grid, col: int, row: int)
    requires IsGrid(g) && 0 <= col < |g| && 0 <= row < Rows(g)
    ensures AllInGrid(g, RunsAt(|g|, Rows(g), col, row))
  {
    var runs := RunsAt(|g|, Rows(g), col, row);
    forall run | run in runs
      ensures RunInGrid(g, run)
    {
      RunsAtExactly(|g|, Rows(g), col, row, run);
      GuardedInGrid(g, run);
    }
    AllInGridEvery(g, runs);
  }

  lemma {:induction false} RunsFromInGrid(g: Grid, col: nat, row: nat)
    requires IsGrid(g)
    ensures AllInGrid(g, RunsFrom(|g|, Rows(g), col, row))
    decreases |g| - col, Rows(g) - row
  {
    if col < |g| {
      if row >= Rows(g) {
        RunsFromInGrid(g, col + 1, 0);
      } else {
        RunsAtInGrid(g, col, row);
        RunsFromInGrid(g, col, row + 1);
        AllInGridAppend(g, RunsAt(|g|, Rows(g), col, row), RunsFrom(|g|, Rows(g), col, row + 1));
      }
    }
  }

  /** The runs the evaluation of `g` counts; none of them leaves the grid. */
  function Scanned(g: Grid): (runs: seq<Run>)
    requires IsGrid(g)
    ensures AllInGrid(g, runs)
  {
    RunsFromInGrid(g, 0, 0);
    ScannedRuns(|g|, Rows(g))
  }

  /** Running score and outcome of the evaluation loop. */
  datatype Tally = Tally(score: int, outcome: Outcome)

  /** The evaluation loop over `runs`: for each run, subtract 10^(human discs), then add
      10^(computer discs); the two counts record completed lines in that order. */
  function ScanRuns(g: Grid, runs: seq<Run>, t: Tally): Tally
    requires AllInGrid(g, runs)
    decreases |runs|
  {
    if runs == [] then t
    else
      var h := CountDiscs(g, t.outcome, runs[0], Human);
      var c := CountDiscs(g, h.outcome, runs[0], Computer);
      ScanRuns(g, runs[1..], Tally(t.score - Pow10(h.discs) + Pow10(c.discs), c.outcome))
  }

  /** Reference value of one run, from the declarative disc count. */
  function RunValue(g: Grid, run: Run): int
    requires RunInGrid(g, run)
  {
    Pow10(Discs(RunCells(g, run), Computer)) - Pow10(Discs(RunCells(g, run), Human))
  }

  /** Reference heuristic: the sum of the run values. */
  function Heuristic(g: Grid, runs: seq<Run>): int
    requires AllInGrid(g, runs)
    decreases |runs|
  {
    if runs == [] then 0 else RunValue(g, runs[0]) + Heuristic(g, runs[1..])
  }

  /** A completed line: a run all of whose cells hold `player`. */
  datatype Line = Line(run: Run, player: Cell)

  function LinesOf(g: Grid, run: Run): seq<Line>
    requires RunInGrid(g, run)
  {
    (if Complete(g, run, Human) then [Line(run, Human)] else [])
    + (if Complete(g, run, Computer) then [Line(run, Computer)] else [])
  }

  /** Reference list of the completed lines among `runs`, in scan order. */
  function Lines(g: Grid, runs: seq<Run>): seq<Line>
    requires AllInGrid(g, runs)
    decreases |runs|
  {
    if runs == [] then [] else LinesOf(g, runs[0]) + Lines(g, runs[1..])
  }

  function LineFields(lines: seq<Line>): seq<Coord>
    decreases |lines|
  {
    if lines == [] then [] else RunCoords(lines[0].run) + LineFields(lines[1..])
  }

  /** The player of the last line, or `w` when there is none. */
  function LastWinner(lines: seq<Line>, w: Cell): Cell {
    if lines == [] then w else lines[|lines| - 1].player
  }

  lemma {:induction false} LineFieldsAppend(a: seq<Line>, b: seq<Line>)
    ensures LineFields(a + b) == LineFields(a) + LineFields(b)
    decreases |a|
  {
    if a != [] {
      assert (a + b)[0] == a[0];
      assert (a + b)[1..] == a[1..] + b;
      LineFieldsAppend(a[1..], b);
      AppendAssoc(RunCoords(a[0].run), LineFields(a[1..]), LineFields(b));
    } else {
      assert a + b == b;
    }
  }

  lemma {:induction false} LineFieldsLength(lines: seq<Line>)
    ensures |LineFields(lines)| == 4 * |lines|
    decreases |lines|
  {
    if lines != [] {
      LineFieldsLength(lines[1..]);
    }
  }

  lemma {:induction false} LinesHavePlayers(g: Grid, runs: seq<Run>)
    requires AllInGrid(g, runs)
    ensures forall i :: 0 <= i < |Lines(g, runs)| ==> Lines(g, runs)[i].player != Empty
    decreases |runs|
  {
    if runs != [] {
      LinesHavePlayers(g, runs[1..]);
    }
  }

  /** One step of the loop: the two counts of a run add its reference value and
      record its completed lines. */
  lemma ScanStep(g: Grid, run: Run, t: Tally)
    requires RunInGrid(g, run)
    ensures var h := CountDiscs(g, t.outcome, run, Human);
            var c := CountDiscs(g, h.outcome, run, Computer);
            && t.score - Pow10(h.discs) + Pow10(c.discs) == t.score + RunValue(g, run)
            && c.outcome == Outcome(LastWinner(LinesOf(g, run), t.outcome.winner),
                                    t.outcome.fields + LineFields(LinesOf(g, run)))
  {
    var h := CountDiscs(g, t.outcome, run, Human);
    CountDiscsSpec(g, t.outcome, run, Human);
    CountDiscsSpec(g, h.outcome, run, Computer);
    var first := LinesOf(g, run);
    if Complete(g, run, Human) {
      assert !Complete(g, run, Computer) by {
        assert RunCells(g, run)[0] == Human;
      }
      assert first == [Line(run, Human)];
      assert LineFields(first) == RunCoords(run);
    } else if Complete(g, run, Computer) {
      assert first == [Line(run, Computer)];
      assert LineFields(first) == RunCoords(run);
    } else {
      assert first == [];
    }
  }

  /** The evaluation loop's score is the reference heuristic of the runs it walks. */
  lemma {:induction false} ScanRunsScore(g: Grid, runs: seq<Run>, t: Tally)
    requires AllInGrid(g, runs)
    ensures ScanRuns(g, runs, t).score == t.score + Heuristic(g, runs)
    decreases |runs|
  {
    if runs != [] {
      var run := runs[0];
      var h := CountDiscs(g, t.outcome, run, Human);
      var c := CountDiscs(g, h.outcome, run, Computer);
      var t' := Tally(t.score - Pow10(h.discs) + Pow10(c.discs), c.outcome);
      assert ScanRuns(g, runs, t) == ScanRuns(g, runs[1..], t');
      ScanStep(g, run, t);
      ScanRunsScore(g, runs[1..], t');
    }
  }

  /** The evaluation loop records exactly the completed lines, in scan order, and the
      last of them decides the winner. */
  lemma {:induction false} ScanRunsOutcome(g: Grid, runs: seq<Run>, t: Tally)
    requires AllInGrid(g, runs)
    ensures ScanRuns(g, runs, t).outcome
            == Outcome(LastWinner(Lines(g, runs), t.outcome.winner),
                       t.outcome.fields + LineFields(Lines(g, runs)))
    decreases |runs|
  {
    if runs != [] {
      var run := runs[0];
      var h := CountDiscs(g, t.outcome, run, Human);
      var c := CountDiscs(g, h.outcome, run, Computer);
      var t' := Tally(t.score - Pow10(h.discs) + Pow10(c.discs), c.outcome);
      var sr := ScanRuns(g, runs[1..], t');
      assert ScanRuns(g, runs, t) == sr;
      var first := LinesOf(g, run);
      var rest := Lines(g, runs[1..]);
      var w := t.outcome.winner;
      var f := t.outcome.fields;
      assert t'.outcome == Outcome(LastWinner(first, w), f + LineFields(first)) by {
        ScanStep(g, run, t);
      }
      assert sr.outcome == Outcome(LastWinner(rest, LastWinner(first, w)), f + LineFields(first) + LineFields(rest)) by {
        ScanRunsOutcome(g, runs[1..], t');
      }
      assert Lines(g, runs) == first + rest;
      assert LineFields(first) + LineFields(rest) == LineFields(first + rest) by {
        LineFieldsAppend(first, rest);
      }
      AppendAssoc(f, LineFields(first), LineFields(rest));
      assert LastWinner(rest, LastWinner(first, w)) == LastWinner(first + rest, w) by {
        LastWinnerAppend(first, rest, w);
      }
    }
  }

  lemma LastWinnerAppend(a: seq<Line>, b: seq<Line>, w: Cell)
    ensures LastWinner(a + b, w) == LastWinner(b, LastWinner(a, w))
  {
    if b == [] {
      assert a + b == a;
    } else {
      assert (a + b)[|a + b| - 1] == b[|b| - 1];
    }
  }

  /** A recorded outcome names a winner exactly when it holds coordinates, four per line. */
  lemma OutcomeShape(g: Grid, runs: seq<Run>)
    requires AllInGrid(g, runs)
    ensures (LastWinner(Lines(g, runs), Empty) == Empty) == (LineFields(Lines(g, runs)) == [])
    ensures |LineFields(Lines(g, runs))| % 4 == 0
  {
    var lines := Lines(g, runs);
    LinesHavePlayers(g, runs);
    LineFieldsLength(lines);
    if lines != [] {
      assert lines[|lines| - 1].player != Empty;
    }
  }

  /** The loop started from a zero score and a reset outcome. */
  lemma ScanFromScratch(g: Grid, runs: seq<Run>)
    requires AllInGrid(g, runs)
    ensures var t := ScanRuns(g, runs, Tally(0, Undecided));
            && t.score == Heuristic(g, runs)
            && t.outcome.winner == LastWinner(Lines(g, runs), Empty)
            && t.outcome.fields == LineFields(Lines(g, runs))
            && (t.outcome.winner == Empty) == (t.outcome.fields == [])
            && |t.outcome.fields| % 4 == 0
  {
    var t := ScanRuns(g, runs, Tally(0, Undecided));
    assert t.score == Heuristic(g, runs) by {
      ScanRunsScore(g, runs, Tally(0, Undecided));
    }
    assert t.outcome == Outcome(LastWinner(Lines(g, runs), Empty), LineFields(Lines(g, runs))) by {
      ScanRunsOutcome(g, runs, Tally(0, Undecided));
      assert [] + LineFields(Lines(g, runs)) == LineFields(Lines(g, runs));
    }
    OutcomeShape(g, runs);
  }

  /** Reference effect of counting `runs` from tally `t`: their heuristic is added,
      and their completed lines are appended, the last one naming the winner. */
  function After(g: Grid, runs: seq<Run>, t: Tally): Tally
    requires AllInGrid(g, runs)
  {
    var lines := Lines(g, runs);
    Tally(t.score + Heuristic(g, runs),
          Outcome(LastWinner(lines, t.outcome.winner), t.outcome.fields + LineFields(lines)))
  }

  /** The evaluation loop has the reference effect. */
  lemma ScanRunsAfter(g: Grid, runs: seq<Run>, t: Tally)
    requires AllInGrid(g, runs)
    ensures ScanRuns(g, runs, t) == After(g, runs, t)
  {
    ScanRunsScore(g, runs, t);
    ScanRunsOutcome(g, runs, t);
  }

  lemma {:induction false} HeuristicAppend(g: Grid, a: seq<Run>, b: seq<Run>)
    requires AllInGrid(g, a) && AllInGrid(g, b)
    ensures AllInGrid(g, a + b)
    ensures Heuristic(g, a + b) == Heuristic(g, a) + Heuristic(g, b)
    decreases |a|
  {
    AllInGridAppend(g, a, b);
    if a == [] {
      assert a + b == b;
    } else {
      assert (a + b)[0] == a[0];
      assert (a + b)[1..] == a[1..] + b;
      HeuristicAppend(g, a[1..], b);
    }
  }

  lemma {:induction false} LinesAppend(g: Grid, a: seq<Run>, b: seq<Run>)
    requires AllInGrid(g, a) && AllInGrid(g, b)
    ensures AllInGrid(g, a + b)
    ensures Lines(g, a + b) == Lines(g, a) + Lines(g, b)
    decreases |a|
  {
    AllInGridAppend(g, a, b);
    if a == [] {
      assert a + b == b;
    } else {
      assert (a + b)[0] == a[0];
      assert (a + b)[1..] == a[1..] + b;
      LinesAppend(g, a[1..], b);
      AppendAssoc(LinesOf(g, a[0]), Lines(g, a[1..]), Lines(g, b));
    }
  }

  /** Counting `a` and then `b` has the effect of counting `a + b`. */
  lemma AfterAppend(g: Grid, a: seq<Run>, b: seq<Run>, t: Tally)
    requires AllInGrid(g, a) && AllInGrid(g, b)
    ensures AllInGrid(g, a + b)
    ensures After(g, a + b, t) == After(g, b, After(g, a, t))
  {
    HeuristicAppend(g, a, b);
    LinesAppend(g, a, b);
    var la, lb := Lines(g, a), Lines(g, b);
    LineFieldsAppend(la, lb);
    LastWinnerAppend(la, lb, t.outcome.winner);
    AppendAssoc(t.outcome.fields, LineFields(la), LineFields(lb));
  }

  /** The body of the two nested loops at one start cell: the guarded runs there, in
      direction order. */
  function ScanCell(g: Grid, col: int, row: int, t: Tally): Tally
    requires IsGrid(g) && 0 <= col < |g| && 0 <= row < Rows(g)
  {
    RunsAtInGrid(g, col, row);
    ScanRuns(g, RunsAt(|g|, Rows(g), col, row), t)
  }

  /** The two nested loops of `evaluate` from start cell (col, row) on: the rest of
      column `col`, then the later columns. */
  function ScanFrom(g: Grid, col: nat, row: nat, t: Tally): Tally
    requires IsGrid(g)
    decreases |g| - col, Rows(g) - row
  {
    if col >= |g| then t
    else if row >= Rows(g) then ScanFrom(g, col + 1, 0, t)
    else ScanFrom(g, col, row + 1, ScanCell(g, col, row, t))
  }

  /** The loops count exactly the runs from start cell (col, row) on, in scan order. */
  lemma {:induction false} ScanFromAfter(g: Grid, col: nat, row: nat, t: Tally)
    requires IsGrid(g)
    ensures AllInGrid(g, RunsFrom(|g|, Rows(g), col, row))
    ensures ScanFrom(g, col, row, t) == After(g, RunsFrom(|g|, Rows(g), col, row), t)
    decreases |g| - col, Rows(g) - row
  {
    RunsFromInGrid(g, col, row);
    if col < |g| {
      if row >= Rows(g) {
        ScanFromAfter(g, col + 1, 0, t);
      } else {
        var here := RunsAt(|g|, Rows(g), col, row);
        var rest := RunsFrom(|g|, Rows(g), col, row + 1);
        RunsAtInGrid(g, col, row);
        RunsFromInGrid(g, col, row + 1);
        var mid := ScanCell(g, col, row, t);
        ScanRunsAfter(g, here, t);
        ScanFromAfter(g, col, row + 1, mid);
        AfterAppend(g, here, rest, t);
      }
    }
  }

  /** Result of one evaluation: the score and the outcome it leaves behind. */
  datatype Evaluation = Evaluation(score: real, outcome: Outcome)

  /** `evaluate(level)`: the outcome is reset, the two loops count every guarded run
      for both players, and a recorded winner replaces the score by the extreme value
      over `level`. */
  function Evaluate(g: Grid, level: int): Evaluation
    requires IsGrid(g) && level >= 1
  {
    var t := ScanFrom(g, 0, 0, Tally(0, Undecided));
    var score :=
      if t.outcome.winner == Human then MinSafe as real / level as real
      else if t.outcome.winner == Computer then MaxSafe as real / level as real
      else t.score as real;
    Evaluation(score, t.outcome)
  }

  /** The evaluation names the player of the last completed line, if any, and records
      the coordinates of every completed line in scan order, four per line; it scores a
      human win MinSafe / level, a computer win MaxSafe / level, and otherwise the sum
      of the run values over every guarded run. */
  lemma EvaluateSpec(g: Grid, level: int)
    requires IsGrid(g) && level >= 1
    ensures var e := Evaluate(g, level);
            && e.outcome.winner == LastWinner(Lines(g, Scanned(g)), Empty)
            && e.outcome.fields == LineFields(Lines(g, Scanned(g)))
            && (e.outcome.winner == Empty) == (e.outcome.fields == [])
            && |e.outcome.fields| % 4 == 0
            && (e.outcome.winner == Human ==> e.score == MinSafe as real / level as real)
            && (e.outcome.winner == Computer ==> e.score == MaxSafe as real / level as real)
            && (e.outcome.winner == Empty ==> e.score == Heuristic(g, Scanned(g)) as real)
  {
    ScanFromAfter(g, 0, 0, Tally(0, Undecided));
    ScanFromScratch(g, Scanned(g));
  }

  /** Some run of the list is a completed line exactly when the reference list of lines
      is non-empty. */
  lemma {:induction false} LinesNonEmpty(g: Grid, runs: seq<Run>)
    requires AllInGrid(g, runs)
    ensures Lines(g, runs) != []
            <==> exists run :: run in runs && RunInGrid(g, run)
                               && (Complete(g, run, Human) || Complete(g, run, Computer))
    decreases |runs|
  {
    if runs != [] {
      LinesNonEmpty(g, runs[1..]);
      var run := runs[0];
      if exists r :: r in runs[1..] && RunInGrid(g, r) && (Complete(g, r, Human) || Complete(g, r, Computer)) {
        var r :| r in runs[1..] && RunInGrid(g, r) && (Complete(g, r, Human) || Complete(g, r, Computer));
        assert r in runs;
      }
      if exists r :: r in runs && RunInGrid(g, r) && (Complete(g, r, Human) || Complete(g, r, Computer)) {
        var r :| r in runs && RunInGrid(g, r) && (Complete(g, r, Human) || Complete(g, r, Computer));
        if r != run {
          assert r in runs[1..];
        }
      }
    }
  }

  /** The evaluation names a winner exactly when some guarded run is a completed line
      of one player. */
  /** The outcome an evaluation leaves is consistent: a winner exactly when there are
      winning coordinates, four per completed line. */
  lemma EvaluateShape(g: Grid, level: int)
    requires IsGrid(g) && level >= 1
    ensures var o := Evaluate(g, level).outcome;
            && (o.winner == Empty <==> o.fields == [])
            && |o.fields| % 4 == 0
  {
    EvaluateSpec(g, level);
  }

  lemma WinnerIffLine(g: Grid, level: int)
    requires IsGrid(g) && level >= 1
    ensures Evaluate(g, level).outcome.winner != Empty
            <==> exists run :: Guarded(|g|, Rows(g), run) && RunInGrid(g, run)
                               && (Complete(g, run, Human) || Complete(g, run, Computer))
  {
    var runs := Scanned(g);
    var lines := Lines(g, runs);
    EvaluateSpec(g, level);
    LinesHavePlayers(g, runs);
    LinesNonEmpty(g, runs);
    if lines != [] {
      assert lines[|lines| - 1].player != Empty;
    }
    forall run
      ensures run in runs <==> Guarded(|g|, Rows(g), run)
    {
      ScannedRunsExactly(|g|, Rows(g), run);
    }
  }

  /** The diagonal-up guard `row > 3` leaves out the rising runs that start in row 3,
      although all four of their cells lie inside the grid: a rising line ending in the
      top row is never counted. */
  lemma RisingFromRowThreeSkipped(g: Grid, col: int)
    requires IsGrid(g) && Rows(g) >= 4 && 0 <= col < |g| - 3
    ensures RunInGrid(g, Run(Coord(col, 3), DiagonalUp))
    ensures Run(Coord(col, 3), DiagonalUp) !in Scanned(g)
  {
    var run := Run(Coord(col, 3), DiagonalUp);
    ScannedRunsExactly(|g|, Rows(g), run);
    assert |g[col + 1]| == |g[col + 2]| == |g[col + 3]| == Rows(g);
  }
}

/** Magnitude bounds of the evaluation, used to show that real scores never cross
    the win scores. */
module ScoreBounds {
  import opened Cells
  import opened Runs
  import opened Scan

  /** Boards of at most 10^11 cells: small enough that the heuristic of the whole
      board stays strictly between the two extreme scores. */
  const MaxCells: int := 100_000_000_000

  predicate Modest(g: Grid)
    requires |g| > 0
  {
    |g| * Rows(g) <= MaxCells
  }

  lemma Pow10AtMost(n: nat)
    requires n <= 4
    ensures Pow10(n) <= 10000
  {
    assert Pow10(0) == 1;
    assert Pow10(1) == 10;
    assert Pow10(2) == 100;
    assert Pow10(3) == 1000;
    assert Pow10(4) == 10000;
  }

  lemma RunValueBounds(g: Grid, run: Run)
    requires RunInGrid(g, run)
    ensures -9999 <= RunValue(g, run) <= 9999
  {
    var cells := RunCells(g, run);
    Pow10AtMost(Discs(cells, Computer));
    Pow10AtMost(Discs(cells, Human));
  }

  lemma {:induction false} HeuristicBounds(g: Grid, runs: seq<Run>)
    requires AllInGrid(g, runs)
    ensures -9999 * |runs| <= Heuristic(g, runs) <= 9999 * |runs|
    decreases |runs|
  {
    if runs != [] {
      RunValueBounds(g, runs[0]);
      HeuristicBounds(g, runs[1..]);
    }
  }

  lemma RunsAtCount(columns: int, rows: int, col: int, row: int)
    ensures |RunsAt(columns, rows, col, row)| <= 4
  {
  }

  /** At most four runs per remaining start cell. */
  lemma {:induction false} RunsFromCount(columns: int, rows: int, col: int, row: int)
    requires 0 <= col <= columns && 0 <= row <= rows && (col == columns ==> row == 0)
    ensures |RunsFrom(columns, rows, col, row)| + 4 * row <= 4 * rows * (columns - col)
    decreases columns - col, rows - row
  {
    if col < columns {
      if row >= rows {
        RunsFromCount(columns, rows, col + 1, 0);
        assert 4 * rows * (columns - col) == 4 * rows + 4 * rows * (columns - (col + 1));
      } else {
        RunsAtCount(columns, rows, col, row);
        RunsFromCount(columns, rows, col, row + 1);
      }
    }
  }

  /** On a modest board the heuristic lies strictly between the two extreme scores. */
  lemma HeuristicWithinSafe(g: Grid)
    requires IsGrid(g) && Modest(g)
    ensures MinSafe < Heuristic(g, Scanned(g)) < MaxSafe
  {
    var runs := Scanned(g);
    HeuristicBounds(g, runs);
    ScannedCount(g);
    SumWithinSafe(Heuristic(g, runs), |runs|, |g| * Rows(g));
  }

  /** A sum of `n` terms of magnitude at most 9999, over at most four runs per cell of
      a modest board, stays strictly between the extreme scores. */
  lemma SumWithinSafe(h: int, n: int, cells: int)
    requires -9999 * n <= h <= 9999 * n && 0 <= n <= 4 * cells && cells <= MaxCells
    ensures MinSafe < h < MaxSafe
  {
  }

  lemma ScannedCount(g: Grid)
    requires IsGrid(g)
    ensures |Scanned(g)| <= 4 * (|g| * Rows(g))
  {
    RunsFromCount(|g|, Rows(g), 0, 0);
    assert 4 * Rows(g) * (|g| - 0) == 4 * (|g| * Rows(g));
  }

  /** Dividing by a level of at least 1 moves a score toward 0 without crossing it. */
  lemma DivideByLevel(x: real, l: real)
    requires l >= 1.0
    ensures x < 0.0 ==> x <= x / l < 0.0
    ensures x > 0.0 ==> 0.0 < x / l <= x
  {
    var q := x / l;
    assert q * l == x;
    if x < 0.0 {
      assert q < 0.0;
      assert q * (l - 1.0) <= 0.0;
    } else if x > 0.0 {
      assert q > 0.0;
      assert q * (l - 1.0) >= 0.0;
    }
  }

  /** Every evaluation score lies between the extreme scores; without a winner it lies
      strictly between them. */
  lemma EvaluateWithinSafe(g: Grid, level: int)
    requires IsGrid(g) && Modest(g) && level >= 1
    ensures MinSafe as real <= Evaluate(g, level).score <= MaxSafe as real
    ensures Evaluate(g, level).outcome.winner == Empty
            ==> MinSafe as real < Evaluate(g, level).score < MaxSafe as real
  {
    var e := Evaluate(g, level);
    EvaluateSpec(g, level);
    if e.outcome.winner == Empty {
      HeuristicWithinSafe(g);
    } else {
      DivideByLevel(MinSafe as real, level as real);
      DivideByLevel(MaxSafe as real, level as real);
    }
  }
}
