# Connect Four board: a verified model

This project models the `Board` of a Connect Four game (file `board.ts`). The human
drops discs (1) into a grid stored column first. Each accepted drop that does not win
is answered by a computer disc (2), which a depth-bounded minimax search chooses. The board offers:

- `reset` clears the grid and the outcome; `getStatus` reads one cell;
- `addDisc` makes a human move and then the computer's reply;
- private helpers:
  - `getEmptyRow` is the gravity lookup;
  - `evaluate` scores the position and records completed lines;
  - `countDiscs` walks one run of four cells;
  - `evaluateNextMoves` searches one ply after another;
  - `addDiscComputerPlayer` picks among the best columns at random.

The model is pure Dafny: the board is an immutable record, and every mutation becomes
a function from the old record to the new one.

- `Cells`: cells, coordinates, the grid, the single-cell write, and the gravity
  invariant `Settled`.
- `Gravity`: `getEmptyRow` as the loop it is (`ScanUp`), and what it finds.
- `Runs`: a run of four cells (start and direction). `countDiscs` is modelled as
  `CountLoop` plus the outcome update. Its reference is the declarative count `Discs`.
- `Scan`: `evaluate`.
  - `RunsAt` gives the runs each start cell admits, under the board's bounds guards.
  - The two nested loops are `ScanFrom`, one recursion over (column, row) in
    lexicographic order. They visit the list of runs `RunsFrom`.
  - The reference effect `After` adds the sum of run values and appends the completed
    lines, with the last one naming the winner.
- `ScoreBounds`: on boards of at most 10^11 cells, the heuristic stays strictly
  between `Number.MIN_SAFE_INTEGER` and `Number.MAX_SAFE_INTEGER`.
- `Search`: `evaluateNextMoves` threads one grid through writes and undoes
  (`NextMoves`, `TryColumns`, `TryColumn`). It is proved equal to a declarative
  minimax reference (`Minimax`, `ColumnValue`), and the grid is proved to come back
  unchanged.
- `Game`: the `Board` record, `New`, `Reset`, `GetStatus`, the computer's choice
  (`ComputerColumn`, `ComputerMove`) and `AddDisc`.

Scores are exact: run values are integers, and a win scores `MinSafe / level` or
`MaxSafe / level` as a `real`. Here `level` is the recursion depth of the evaluation,
which starts at 1; the board's own `level` only bounds that depth.

Two behaviours of the code are kept as written:

- With a winner already set, `addDisc` returns `undefined`. The model answers
  `NoReply`, distinct from `Refused`.
- The diagonal-up guard is `row > 3`, so a rising line from row 3 to row 0 is never
  scanned and never wins. `Scan.RisingFromRowThreeSkipped` states this.

## Model

| member | source | states |
|---|---|---|
| Cells.PlaceSpec | board.ts:127 | a cell write changes exactly the addressed cell and keeps the grid's shape and rectangularity |
| Cells.PlaceUndo | board.ts:143 | writing Empty back into a cell that was empty before the hypothetical disc restores the grid exactly |
| Gravity.ScanUpSpec | board.ts:67-71 | the lookup loop returns the empty cell nearest the starting row, and -1 exactly when no cell up to that row is empty |
| Gravity.EmptyRowSpec | board.ts:64-74 | `getEmptyRow` is -1 iff every cell of the column is occupied; otherwise the returned row is empty and every row below it is occupied, so it is the largest empty row |
| Gravity.DropKeepsSettled | board.ts:36-38 | dropping a disc at the row `getEmptyRow` returns keeps every column free of empty cells below discs |
| Gravity.DropStacks | board.ts:36-38 | on a settled column, the next free row after a drop is one row higher |
| Runs.CountLoopSpec | board.ts:220-229 | the counting loop ends at -1 iff some cell of the run holds the other player's disc; otherwise its result is the number of the player's discs |
| Runs.CountDiscsSpec | board.ts:209-250 | the count equals the declarative count and lies in 0..4; it is 0 whenever the other player is in the run; it is 4 iff the whole run is the player's, and exactly then the winner becomes the player and the four coordinates are appended in walking order; otherwise the outcome is untouched |
| Scan.RunsAtExactly | board.ts:162-196 | a start cell yields exactly the runs whose bounds guard holds there |
| Scan.RunsAtOrder | board.ts:162-196 | the runs of one start cell all start there and come in the order horizontal, vertical, diagonal down, diagonal up, each direction at most once |
| Scan.RunsFromExactly | board.ts:160-161 | the loops from start cell (col, row) on visit exactly the guarded runs whose start is not before (col, row) in column-then-row order |
| Scan.ScannedRunsExactly | board.ts:160-198 | `evaluate` counts a run iff its guard admits it: every start cell of the grid, in each direction whose guard holds there |
| Scan.ScannedOnce | board.ts:160-198 | the loops never count the same run twice: each start cell is visited once and yields each direction at most once |
| Scan.GuardedInGrid | board.ts:163-196 | the guards keep all four cells of every scanned run inside the grid, so `evaluate` reads only in-bounds cells |
| Scan.Scanned | board.ts:160-198 | every run `evaluate` counts lies inside the grid |
| Scan.ScanStep | board.ts:164-195 | the two counts of one run add the run's value 10^c - 10^h and record its completed lines, the human line first |
| Scan.ScanRunsScore | board.ts:160-198 | the running score of the loop is the sum of the run values over the runs walked |
| Scan.ScanRunsOutcome | board.ts:231-243 | the loop appends the coordinates of exactly the completed lines in scan order, and the last such line names the winner |
| Scan.OutcomeShape | board.ts:231-243 | a winner is recorded iff winning coordinates are, and their number is a multiple of 4 |
| Scan.ScanFromAfter | board.ts:160-198 | the nested loops from start cell (col, row) on have the reference effect of the runs that remain from there |
| Scan.AfterAppend | board.ts:160-198 | counting one list of runs and then another has the effect of counting their concatenation |
| Scan.EvaluateSpec | board.ts:154-206 | `evaluate` resets the outcome, then names the player of the last completed line and records all completed lines' coordinates, four per line. The winner is set iff coordinates are. The score is MIN_SAFE/level for a human win, MAX_SAFE/level for a computer win, and otherwise the sum, over every guarded run counted once, of 10^(computer discs) - 10^(human discs) |
| Scan.WinnerIffLine | board.ts:154-206 | the evaluation names a winner iff some guarded run is a completed line of one player |
| Scan.RisingFromRowThreeSkipped | board.ts:190 | every rising run starting in row 3 lies inside the grid, yet the `row > 3` guard leaves it out of the scan |
| ScoreBounds.HeuristicWithinSafe | board.ts:160-198 | on a board of at most 10^11 cells, the summed run values lie strictly between MIN_SAFE and MAX_SAFE |
| ScoreBounds.EvaluateWithinSafe | board.ts:154-206 | every evaluation score lies in [MIN_SAFE, MAX_SAFE], strictly inside when there is no winner |
| Search.MaxSpec | board.ts:96 | `Math.max` of a non-empty array is one of its entries and bounds every entry from above |
| Search.MinSpec | board.ts:137 | `Math.min` of a non-empty array is one of its entries and bounds every entry from below |
| Search.TryColumn | board.ts:124-143 | trying one open column gives the grid back exactly as it was |
| Search.TryColumns | board.ts:120-149 | the column loop gives the grid back unchanged and keeps one score per column; full columns and columns already passed keep the entry they had |
| Search.NextMoves | board.ts:115-152 | `evaluateNextMoves` restores the grid it explored and returns one score per column |
| Search.TryColumnScore | board.ts:124-143 | the threaded computation of one open column's score equals its minimax value |
| Search.TryColumnsScores | board.ts:123-149 | after the column loop, every open column from the current one on holds its minimax value |
| Search.NextMovesScores | board.ts:115-152 | the score array of `evaluateNextMoves` is the minimax array: the sentinel for full columns and the minimax value for open ones |
| Game.EmptyGrid | board.ts:27-31 | the fresh grid has `columns` columns of `rows` cells, all empty |
| Game.Reset | board.ts:23-32 | `reset` keeps the dimensions and depth, clears the winner and winning coordinates, empties every cell, and leaves a well-formed board whatever the depth |
| Game.New | board.ts:16-21 | a new board has the given dimensions, depth 1, no winner, and is well formed |
| Game.ResetIdempotent | board.ts:23-32 | resetting twice equals resetting once; a reset board equals a new board of the same size at the same depth; `getStatus` reads Empty everywhere after a reset |
| Game.DrawIndex | board.ts:104-105 | `Math.floor(Math.random() * n)` for a draw in [0, 1) is a valid index below n |
| Game.PossibleFieldsExactly | board.ts:97-102 | the collected candidates are exactly the open columns whose score equals the maximum |
| Game.ColumnValueFloor | board.ts:115-152 | on a board of at most 10^11 cells, no column's minimax value falls below MIN_SAFE |
| Game.MinimaxFloor | board.ts:115-152 | every entry of the minimax array is at least MIN_SAFE on such a board |
| Game.BestIsOpen | board.ts:95-102 | while some column is open, the maximum of the computer's score array is attained at an open column, so the candidate list is never empty |
| Game.ComputerColumn | board.ts:95-105 | the column the computer picks is open, and no column has a higher minimax score |
| Game.ComputerMoveSpec | board.ts:76-113 | with a winner set nothing changes. Otherwise exactly one empty cell becomes a computer disc, at `getEmptyRow` of a best-scoring open column. The winner and winning coordinates are those of a fresh evaluation, and the dimensions and depth are kept |
| Game.AddDiscRefusals | board.ts:34-58 | with a winner set, `addDisc` answers nothing and changes nothing; with no winner it refuses iff every cell of the column is occupied, and a refusal changes nothing |
| Game.AddDiscHumanMove | board.ts:34-53 | an accepted drop writes exactly one human disc, in the largest empty row of the column, which `getStatus` then reads. `onWin` fires iff that drop wins, and then the computer does not move and the winner and winning coordinates are those the evaluation after the drop records |
| Game.AddDiscComputerReply | board.ts:45-51 | without a human win, exactly one more cell changes, from empty to a computer disc, in an open column no column outscores; the winner and winning coordinates are those a fresh evaluation of the final grid records, and `onLose` fires iff that evaluation names a winner |
| Game.AddDiscInvariants | board.ts:34-58 | every call keeps the board well formed with its dimensions and depth, keeps gravity, and leaves a winner iff there are winning coordinates, four per line; after an accepted move the winner and winning coordinates are those of a fresh evaluation of the final grid |

## Left out

- The user interface (`index.ts`, p5 drawing and input) is not part of this model, and
  neither is the diagnostic `console.log` output.
- `Math.random()` is a parameter `draw` in [0, 1) of `ComputerColumn`, `ComputerMove`
  and `AddDisc`. The `onWin` and `onLose` callbacks are not stored: a move returns the
  `Event` naming the one it would fire.
- Game.AddDisc: requires `ReplyPossible`, i.e. that a drop which does not win leaves an
  open column. On a board filled by the human's drop, the source builds an empty
  candidate list and then indexes the grid with `undefined`. That path is a crash and
  is not modelled.
- Game.AddDisc: requires `0 <= column < columns`. With a winner set, the source
  returns `undefined` for any column without reading the grid (board.ts:35, 57). With
  no winner, other columns either make it throw when it indexes the grid or, on a board
  with no rows, make it return `false`.
- Game.ComputerColumn: requires a board of at most 10^11 cells (`Modest`). The proof
  that the best score sits at an open column needs every heuristic score to stay above
  MIN_SAFE. Larger boards are not covered. `ComputerMove`, `AddDisc`,
  `ColumnValueFloor` and `BestIsOpen` carry the same bound.
- Game.WellFormed: requires at least one column, because the model reads the number of
  rows from the first column. A board with no columns is not covered. It also requires
  a consistent outcome: a winner exactly when there are winning coordinates, four per
  line. Only `reset` and `evaluate` write these public fields in the source, and both
  leave them consistent. A board whose outcome a caller has overwritten by hand is not
  covered.
- Scores are exact integers and reals, not IEEE doubles. The model has no rounding in
  `MIN_SAFE / level`, and no precision loss for sums beyond 2^53, which the bound
  above excludes anyway.
- The `winner` and `winnerFields` that the search's own `evaluate` calls leave behind
  are not board state in the model. In the source they are always overwritten by the
  `evaluate()` that follows the computer's drop, before anyone reads them.
- `getStatus` out of range is undefined behaviour in the source; the model requires an
  in-grid cell.
