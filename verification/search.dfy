/** The depth-bounded minimax search over hypothetical drops. */
module Search {
  import opened Cells
  import opened Gravity
  import opened Runs
  import opened Scan
  import opened ScoreBounds

  /** The disc the mover drops: the computer plays 2, the human 1. */
  function Mark(computer: bool): Cell {
    if computer then Computer else Human
  }

  /** The score a full column keeps: never chosen by the side picking from the array. */
  function Sentinel(computer: bool): real {
    if computer then MinSafe as real else MaxSafe as real
  }

  /** `Math.max(...s)`. */
  function Max(s: seq<real>): real
    requires |s| > 0
  {
    if |s| == 1 then s[0]
    else
      var rest := Max(s[1..]);
      if s[0] >= rest then s[0] else rest
  }

  /** `Math.min(...s)`. */
  function Min(s: seq<real>): real
    requires |s| > 0
  {
    if |s| == 1 then s[0]
    else
      var rest := Min(s[1..]);
      if s[0] <= rest then s[0] else rest
  }

  /** The maximum is an entry and bounds every entry from above. */
  lemma {:induction false} MaxSpec(s: seq<real>)
    requires |s| > 0
    ensures exists i :: 0 <= i < |s| && s[i] == Max(s)
    ensures forall i :: 0 <= i < |s| ==> s[i] <= Max(s)
  {
    if |s| == 1 {
      assert s[0] == Max(s);
    } else {
      MaxSpec(s[1..]);
      var j :| 0 <= j < |s[1..]| && s[1..][j] == Max(s[1..]);
      if s[0] >= Max(s[1..]) {
        assert s[0] == Max(s);
      } else {
        assert s[j + 1] == Max(s);
      }
      forall i | 0 < i < |s|
        ensures s[i] <= Max(s)
      {
        assert s[i] == s[1..][i - 1];
      }
    }
  }

  /** The minimum is an entry and bounds every entry from below. */
  lemma {:induction false} MinSpec(s: seq<real>)
    requires |s| > 0
    ensures exists i :: 0 <= i < |s| && s[i] == Min(s)
    ensures forall i :: 0 <= i < |s| ==> Min(s) <= s[i]
  {
    if |s| == 1 {
      assert s[0] == Min(s);
    } else {
      MinSpec(s[1..]);
      var j :| 0 <= j < |s[1..]| && s[1..][j] == Min(s[1..]);
      if s[0] <= Min(s[1..]) {
        assert s[0] == Min(s);
      } else {
        assert s[j + 1] == Min(s);
      }
      forall i | 0 < i < |s|
        ensures Min(s) <= s[i]
      {
        assert s[i] == s[1..][i - 1];
      }
    }
  }

  /** Reference value of dropping the mover's disc into column `col`: the sentinel when
      the column is full; the evaluation at this level when it wins or the depth is
      reached; otherwise the opponent's best reply one level deeper (minimum of the
      human-to-move scores after a computer drop, maximum after a human drop). */
  function ColumnValue(g: Grid, level: int, maxLevel: int, computer: bool, col: int): real
    requires IsGrid(g) && level >= 1 && 0 <= col < |g|
    decreases maxLevel - level, 0
  {
    var row := EmptyRow(g, col);
    if row < 0 then Sentinel(computer)
    else
      PlaceSpec(g, col, row, Mark(computer));
      var next := Place(g, col, row, Mark(computer));
      var e := Evaluate(next, level);
      if e.outcome.winner == Empty && level < maxLevel then
        var replies := Minimax(next, level + 1, maxLevel, !computer);
        if computer then Min(replies) else Max(replies)
      else e.score
  }

  /** Reference score array: one value per column. */
  function Minimax(g: Grid, level: int, maxLevel: int, computer: bool): (scores: seq<real>)
    requires IsGrid(g) && level >= 1
    ensures |scores| == |g|
    decreases maxLevel - level, 1
  {
    seq(|g|, c requires 0 <= c < |g| => ColumnValue(g, level, maxLevel, computer, c))
  }

  /** Scores of a search and the grid it leaves behind. */
  datatype Explored = Explored(scores: seq<real>, grid: Grid)

  /** `evaluateNextMoves`: starting from the sentinel array, try every column in turn on
      the one shared grid, writing the hypothetical disc, evaluating, recursing, and
      writing the cell back to Empty. The grid comes back cell for cell as it went in. */
  function NextMoves(g: Grid, level: int, maxLevel: int, computer: bool): (r: Explored)
    requires IsGrid(g) && level >= 1
    ensures r.grid == g
    ensures |r.scores| == |g|
    decreases maxLevel - level, |g| + 1
  {
    TryColumns(g, level, maxLevel, computer, 0, seq(|g|, _ => Sentinel(computer)))
  }

  /** The column loop of `evaluateNextMoves` from column `col` on; full columns keep
      their entry. */
  function TryColumns(g: Grid, level: int, maxLevel: int, computer: bool, col: nat, scores: seq<real>)
    : (r: Explored)
    requires IsGrid(g) && level >= 1 && col <= |g| && |scores| == |g|
    ensures r.grid == g
    ensures |r.scores| == |g|
    ensures forall c :: 0 <= c < |g| && (c < col || EmptyRow(g, c) < 0) ==> r.scores[c] == scores[c]
    decreases maxLevel - level, |g| - col
  {
    if col == |g| then Explored(scores, g)
    else if EmptyRow(g, col) < 0 then TryColumns(g, level, maxLevel, computer, col + 1, scores)
    else
      var tried := TryColumn(g, level, maxLevel, computer, col);
      TryColumns(tried.grid, level, maxLevel, computer, col + 1, scores[col := tried.score])
  }

  /** Score of one hypothetical drop and the grid after it is taken back. */
  datatype Tried = Tried(score: real, grid: Grid)

  /** One open column: write the mover's disc, evaluate at this level, recurse while
      there is no winner and the depth allows, then write the cell back to Empty. */
  function TryColumn(g: Grid, level: int, maxLevel: int, computer: bool, col: int): (r: Tried)
    requires IsGrid(g) && level >= 1 && 0 <= col < |g| && EmptyRow(g, col) >= 0
    ensures r.grid == g
    decreases maxLevel - level, 0
  {
    var row := EmptyRow(g, col);
    PlaceSpec(g, col, row, Mark(computer));
    var placed := Place(g, col, row, Mark(computer));
    var e := Evaluate(placed, level);
    var after :=
      if e.outcome.winner == Empty && level < maxLevel then
        var deeper := NextMoves(placed, level + 1, maxLevel, !computer);
        Tried(if computer then Min(deeper.scores) else Max(deeper.scores), deeper.grid)
      else Tried(e.score, placed);
    EmptyRowSpec(g, col);
    PlaceUndo(g, col, row, Mark(computer));
    Tried(after.score, Place(after.grid, col, row, Empty))
  }

  lemma ColumnValueOpen(g: Grid, level: int, maxLevel: int, computer: bool, col: int)
    requires IsGrid(g) && level >= 1 && 0 <= col < |g| && EmptyRow(g, col) >= 0
    ensures var placed := Place(g, col, EmptyRow(g, col), Mark(computer));
            var e := Evaluate(placed, level);
            ColumnValue(g, level, maxLevel, computer, col)
            == if e.outcome.winner == Empty && level < maxLevel then
                 (if computer then Min(Minimax(placed, level + 1, maxLevel, !computer))
                  else Max(Minimax(placed, level + 1, maxLevel, !computer)))
               else e.score
  {
  }

  /** The threaded search computes the reference minimax scores. */
  lemma {:induction false} NextMovesScores(g: Grid, level: int, maxLevel: int, computer: bool)
    requires IsGrid(g) && level >= 1
    ensures NextMoves(g, level, maxLevel, computer).scores == Minimax(g, level, maxLevel, computer)
    decreases maxLevel - level, |g| + 1
  {
    var init := seq(|g|, _ => Sentinel(computer));
    var r := NextMoves(g, level, maxLevel, computer);
    var m := Minimax(g, level, maxLevel, computer);
    TryColumnsScores(g, level, maxLevel, computer, 0, init);
    forall c | 0 <= c < |g|
      ensures r.scores[c] == m[c]
    {
      assert m[c] == ColumnValue(g, level, maxLevel, computer, c);
    }
  }

  lemma {:induction false} TryColumnsScores(g: Grid, level: int, maxLevel: int, computer: bool, col: nat, scores: seq<real>)
    requires IsGrid(g) && level >= 1 && col <= |g| && |scores| == |g|
    ensures var r := TryColumns(g, level, maxLevel, computer, col, scores);
            forall c :: col <= c < |g| && EmptyRow(g, c) >= 0 ==>
              r.scores[c] == ColumnValue(g, level, maxLevel, computer, c)
    decreases maxLevel - level, |g| - col
  {
    if col < |g| {
      if EmptyRow(g, col) < 0 {
        TryColumnsScores(g, level, maxLevel, computer, col + 1, scores);
      } else {
        var tried := TryColumn(g, level, maxLevel, computer, col);
        TryColumnScore(g, level, maxLevel, computer, col);
        TryColumnsScores(g, level, maxLevel, computer, col + 1, scores[col := tried.score]);
      }
    }
  }

  lemma {:induction false} TryColumnScore(g: Grid, level: int, maxLevel: int, computer: bool, col: int)
    requires IsGrid(g) && level >= 1 && 0 <= col < |g| && EmptyRow(g, col) >= 0
    ensures TryColumn(g, level, maxLevel, computer, col).score == ColumnValue(g, level, maxLevel, computer, col)
    decreases maxLevel - level, 0
  {
    var placed := Place(g, col, EmptyRow(g, col), Mark(computer));
    var e := Evaluate(placed, level);
    ColumnValueOpen(g, level, maxLevel, computer, col);
    if e.outcome.winner == Empty && level < maxLevel {
      var deeper := NextMoves(placed, level + 1, maxLevel, !computer);
      NextMovesScores(placed, level + 1, maxLevel, !computer);
      assert TryColumn(g, level, maxLevel, computer, col).score
             == if computer then Min(deeper.scores) else Max(deeper.scores);
      assert ColumnValue(g, level, maxLevel, computer, col)
             == if computer then Min(deeper.scores) else Max(deeper.scores);
    } else {
      assert ColumnValue(g, level, maxLevel, computer, col) == e.score;
      assert TryColumn(g, level, maxLevel, computer, col).score == e.score;
    }
  }
}
