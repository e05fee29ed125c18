/** Runs of four cells along a direction, and the disc counter that scores them and
    records a completed line. */
module Runs {
  import opened Cells

  /** The four step vectors (colDiff, rowDiff) of the scan: (1, 0), (0, 1), (1, 1)
      and (1, -1). Row indices grow downward, so (1, -1) climbs to the right. */
  datatype Direction = Horizontal | Vertical | DiagonalDown | DiagonalUp

  /** Four cells `start + k * step` for k = 0..3. */
  datatype Run = Run(start: Coord, dir: Direction)

  /** The outcome of an evaluation: the last player seen completing a run, and the
      coordinates of every completed run, four per run, in the order they were found. */
  datatype Outcome = Outcome(winner: Cell, fields: seq<Coord>)

  /** What the counter returns: the disc count and the outcome after recording a line. */
  datatype Counted = Counted(discs: nat, outcome: Outcome)

  const Undecided := Outcome(Empty, [])

  /** The k-th cell of a run: `start + k * step`. */
  function At(run: Run, k: int): Coord {
    var c := run.start.col;
    var r := run.start.row;
    match run.dir
    case Horizontal => Coord(c + k, r)
    case Vertical => Coord(c, r + k)
    case DiagonalDown => Coord(c + k, r + k)
    case DiagonalUp => Coord(c + k, r - k)
  }

  /** All four cells of the run lie inside the grid. */
  predicate RunInGrid(g: Grid, run: Run) {
    && InGrid(g, At(run, 0).col, At(run, 0).row)
    && InGrid(g, At(run, 1).col, At(run, 1).row)
    && InGrid(g, At(run, 2).col, At(run, 2).row)
    && InGrid(g, At(run, 3).col, At(run, 3).row)
  }

  function CellAt(g: Grid, run: Run, k: int): Cell
    requires 0 <= k < 4 && RunInGrid(g, run)
  {
    g[At(run, k).col][At(run, k).row]
  }

  /** The contents of a run, in walking order. */
  function RunCells(g: Grid, run: Run): (cells: seq<Cell>)
    requires RunInGrid(g, run)
    ensures |cells| == 4
  {
    [CellAt(g, run, 0), CellAt(g, run, 1), CellAt(g, run, 2), CellAt(g, run, 3)]
  }

  /** The coordinates of a run, in walking order. */
  function RunCoords(run: Run): (coords: seq<Coord>)
    ensures |coords| == 4
  {
    [At(run, 0), At(run, 1), At(run, 2), At(run, 3)]
  }

  /** A cell holding the other player's disc. */
  predicate Foreign(cell: Cell, player: Cell) {
    cell != Empty && cell != player
  }

  /** Some cell holds a disc of the other player. */
  predicate Blocked(cells: seq<Cell>, player: Cell) {
    cells != [] && (Foreign(cells[0], player) || Blocked(cells[1..], player))
  }

  /** Every cell holds `player`'s disc. */
  predicate AllOf(cells: seq<Cell>, player: Cell) {
    cells == [] || (cells[0] == player && AllOf(cells[1..], player))
  }

  /** `Blocked` is "some index holds a foreign disc". */
  lemma {:induction false} BlockedSome(cells: seq<Cell>, player: Cell)
    ensures Blocked(cells, player) <==> exists k :: 0 <= k < |cells| && Foreign(cells[k], player)
  {
    if cells != [] {
      BlockedSome(cells[1..], player);
      if Blocked(cells[1..], player) {
        var k :| 0 <= k < |cells[1..]| && Foreign(cells[1..][k], player);
        assert Foreign(cells[k + 1], player);
      }
      if !Foreign(cells[0], player) && exists k :: 0 <= k < |cells| && Foreign(cells[k], player) {
        var k :| 0 <= k < |cells| && Foreign(cells[k], player);
        assert Foreign(cells[1..][k - 1], player);
      }
    }
  }

  /** `AllOf` is "every index holds `player`". */
  lemma {:induction false} AllOfEvery(cells: seq<Cell>, player: Cell)
    ensures AllOf(cells, player) <==> forall k :: 0 <= k < |cells| ==> cells[k] == player
  {
    if cells != [] {
      AllOfEvery(cells[1..], player);
      if forall k :: 0 <= k < |cells| ==> cells[k] == player {
        assert forall k :: 0 <= k < |cells[1..]| ==> cells[1..][k] == cells[k + 1];
      }
      if AllOf(cells, player) {
        forall k | 0 < k < |cells|
          ensures cells[k] == player
        {
          assert cells[k] == cells[1..][k - 1];
        }
      }
    }
  }

  /** All four cells of the run hold `player`'s discs. */
  predicate Complete(g: Grid, run: Run, player: Cell)
    requires RunInGrid(g, run)
  {
    AllOf(RunCells(g, run), player)
  }

  function Occurrences(cells: seq<Cell>, player: Cell): (n: nat)
    ensures n <= |cells|
  {
    if cells == [] then 0
    else (if cells[0] == player then 1 else 0) + Occurrences(cells[1..], player)
  }

  /** Reference count: `player`'s discs in a run, or 0 once the other player is in it. */
  function Discs(cells: seq<Cell>, player: Cell): nat {
    if Blocked(cells, player) then 0 else Occurrences(cells, player)
  }

  lemma {:induction false} OccurrencesAll(cells: seq<Cell>, player: Cell)
    ensures Occurrences(cells, player) == |cells| <==> AllOf(cells, player)
  {
    if cells != [] {
      OccurrencesAll(cells[1..], player);
    }
  }

  /** The counting loop: step `i` of the walk with the running `result`; -1 marks a
      cell of the other player and ends the walk. */
  function CountLoop(g: Grid, run: Run, player: Cell, i: nat, result: int): int
    requires RunInGrid(g, run) && i <= 4
    decreases 4 - i
  {
    if i < 4 && result > -1 then
      var cell := CellAt(g, run, i);
      var next := if cell == player then result + 1 else if cell != Empty then -1 else result;
      CountLoop(g, run, player, i + 1, next)
    else result
  }

  lemma {:induction false} CountLoopSpec(g: Grid, run: Run, player: Cell, i: nat, result: nat)
    requires RunInGrid(g, run) && i <= 4
    ensures CountLoop(g, run, player, i, result)
            == if Blocked(RunCells(g, run)[i..], player) then -1
               else result + Occurrences(RunCells(g, run)[i..], player)
    decreases 4 - i
  {
    var cells := RunCells(g, run);
    if i < 4 {
      assert cells[i..][0] == cells[i];
      assert cells[i..][1..] == cells[i + 1..];
      if cells[i] == player {
        CountLoopSpec(g, run, player, i + 1, result + 1);
      } else if cells[i] == Empty {
        CountLoopSpec(g, run, player, i + 1, result);
      }
    } else {
      assert cells[i..] == [];
    }
  }

  /** `countDiscs`: walk the four cells of `run` counting `player`'s discs; a full run
      makes `player` the winner and appends its four coordinates to the outcome; a
      foreign disc ends the walk and counts as 0. */
  function CountDiscs(g: Grid, o: Outcome, run: Run, player: Cell): (r: Counted)
    requires RunInGrid(g, run)
  {
    CountLoopSpec(g, run, player, 0, 0);
    assert RunCells(g, run)[0..] == RunCells(g, run);
    var n := CountLoop(g, run, player, 0, 0);
    if n == 4 then
      Counted(4, Outcome(player, o.fields + RunCoords(run)))
    else if n == -1 then
      Counted(0, o)
    else
      Counted(n, o)
  }

  /** The count is the reference count, at most 4 and 0 when the other player is in the
      run; it is 4 exactly when the run is complete, and exactly then the player becomes
      the winner and the run's coordinates are appended. */
  lemma CountDiscsSpec(g: Grid, o: Outcome, run: Run, player: Cell)
    requires RunInGrid(g, run) && player != Empty
    ensures CountDiscs(g, o, run, player).discs == Discs(RunCells(g, run), player)
    ensures CountDiscs(g, o, run, player).discs <= 4
    ensures Blocked(RunCells(g, run), player) ==> CountDiscs(g, o, run, player).discs == 0
    ensures CountDiscs(g, o, run, player).discs == 4 <==> Complete(g, run, player)
    ensures Complete(g, run, player)
            ==> CountDiscs(g, o, run, player).outcome == Outcome(player, o.fields + RunCoords(run))
    ensures !Complete(g, run, player) ==> CountDiscs(g, o, run, player).outcome == o
  {
    var cells := RunCells(g, run);
    CountLoopSpec(g, run, player, 0, 0);
    assert cells[0..] == cells;
    OccurrencesAll(cells, player);
    if Complete(g, run, player) {
      AllOfNotBlocked(cells, player);
    }
  }

  lemma {:induction false} AllOfNotBlocked(cells: seq<Cell>, player: Cell)
    requires AllOf(cells, player)
    ensures !Blocked(cells, player)
    decreases |cells|
  {
    if cells != [] {
      AllOfNotBlocked(cells[1..], player);
    }
  }
}
