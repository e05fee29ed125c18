/** The board object: its state, `reset`, `getStatus`, the human move `addDisc` and the
    computer's reply. */
module Game {
  import opened Seqs
  import opened Cells
  import opened Gravity
  import opened Runs
  import opened Scan
  import opened ScoreBounds
  import opened Search

  /** The board's public and private state. The two callbacks are not state here: a
      move reports which of them it would fire as an `Event`. */
  datatype Board = Board(columns: int, rows: int, winner: Cell, winnerFields: seq<Coord>,
                         level: int, fields: Grid)

  /** The grid has the board's dimensions and at least one column, and the outcome is
      one `evaluate` can leave: a winner exactly when there are winning coordinates,
      four per completed line. */
  predicate WellFormed(b: Board) {
    && IsGrid(b.fields)
    && |b.fields| == b.columns
    && Rows(b.fields) == b.rows
    && (b.winner == Empty <==> b.winnerFields == [])
    && |b.winnerFields| % 4 == 0
  }

  /** `columns` columns of `rows` empty cells. */
  function EmptyGrid(columns: nat, rows: nat): (g: Grid)
    ensures |g| == columns
    ensures forall c :: 0 <= c < columns ==> |g[c]| == rows
    ensures forall c, r :: 0 <= c < columns && 0 <= r < rows ==> g[c][r] == Empty
  {
    seq(columns, _ => seq(rows, _ => Empty))
  }

  /** `reset`: the outcome is cleared and the grid is rebuilt from the board's
      dimensions with every cell empty; the search depth is kept. */
  function Reset(b: Board): (r: Board)
    requires b.columns >= 1 && b.rows >= 0
    ensures r.columns == b.columns && r.rows == b.rows && r.level == b.level
    ensures r.winner == Empty && r.winnerFields == []
    ensures WellFormed(r)
    ensures forall c, w :: InGrid(r.fields, c, w) ==> r.fields[c][w] == Empty
    ensures Settled(r.fields)
  {
    Board(b.columns, b.rows, Empty, [], b.level, EmptyGrid(b.columns, b.rows))
  }

  /** The constructor: dimensions as given, search depth 1, then `reset`. */
  function New(columns: int, rows: int): (b: Board)
    requires columns >= 1 && rows >= 0
    ensures WellFormed(b) && b.columns == columns && b.rows == rows && b.level == 1
    ensures b.winner == Empty && b.winnerFields == []
  {
    Reset(Board(columns, rows, Empty, [], 1, []))
  }

  /** `getStatus`: the content of one cell. */
  function GetStatus(b: Board, column: int, row: int): Cell
    requires InGrid(b.fields, column, row)
  {
    b.fields[column][row]
  }

  /** Resetting twice is resetting once, and a reset board is a new board of the same
      dimensions at the same search depth; every cell then reads empty. */
  lemma ResetIdempotent(b: Board)
    requires b.columns >= 1 && b.rows >= 0
    ensures Reset(Reset(b)) == Reset(b)
    ensures Reset(b) == New(b.columns, b.rows).(level := b.level)
    ensures forall c, w :: 0 <= c < b.columns && 0 <= w < b.rows ==> GetStatus(Reset(b), c, w) == Empty
  {
  }

  /** `Math.floor(Math.random() * n)` for a draw in [0, 1): an index below `n`. */
  function DrawIndex(draw: real, n: int): (i: int)
    requires 0.0 <= draw < 1.0 && n > 0
    ensures 0 <= i < n
  {
    var x := draw * n as real;
    assert x < n as real;
    x.Floor
  }

  /** The loop collecting `possibleFields` from column `col` on: open columns whose
      score equals `best`, in column order. */
  function PossibleFields(g: Grid, scores: seq<real>, best: real, col: nat): seq<int>
    requires col <= |g| && |scores| == |g|
    decreases |g| - col
  {
    if col == |g| then []
    else (if scores[col] == best && EmptyRow(g, col) >= 0 then [col] else [])
         + PossibleFields(g, scores, best, col + 1)
  }

  /** The collected columns are exactly the open columns from `col` on whose score is
      `best`. */
  lemma {:induction false} PossibleFieldsExactly(g: Grid, scores: seq<real>, best: real, col: nat, c: int)
    requires col <= |g| && |scores| == |g|
    ensures c in PossibleFields(g, scores, best, col)
            <==> col <= c < |g| && scores[c] == best && EmptyRow(g, c) >= 0
    decreases |g| - col
  {
    if col < |g| {
      InAppend(c, if scores[col] == best && EmptyRow(g, col) >= 0 then [col] else [],
               PossibleFields(g, scores, best, col + 1));
      PossibleFieldsExactly(g, scores, best, col + 1, c);
    }
  }

  /** On a modest board every column's minimax value is at least MIN_SAFE: a win
      for the human scores MIN_SAFE / level, a full column MIN_SAFE or MAX_SAFE, and
      anything else lies strictly between the extremes. */
  lemma {:induction false} ColumnValueFloor(g: Grid, level: int, maxLevel: int, computer: bool, col: int)
    requires IsGrid(g) && Modest(g) && level >= 1 && 0 <= col < |g|
    ensures ColumnValue(g, level, maxLevel, computer, col) >= MinSafe as real
    decreases maxLevel - level, 0
  {
    var row := EmptyRow(g, col);
    if row >= 0 {
      PlaceSpec(g, col, row, Mark(computer));
      var next := Place(g, col, row, Mark(computer));
      assert Modest(next) by {
        assert Rows(next) == Rows(g);
      }
      EvaluateWithinSafe(next, level);
      if Evaluate(next, level).outcome.winner == Empty && level < maxLevel {
        var replies := Minimax(next, level + 1, maxLevel, !computer);
        MinimaxFloor(next, level + 1, maxLevel, !computer);
        if computer {
          MinSpec(replies);
          var i :| 0 <= i < |replies| && replies[i] == Min(replies);
        } else {
          MaxSpec(replies);
          assert replies[0] <= Max(replies);
        }
      }
    }
  }

  lemma {:induction false} MinimaxFloor(g: Grid, level: int, maxLevel: int, computer: bool)
    requires IsGrid(g) && Modest(g) && level >= 1
    ensures forall c :: 0 <= c < |g| ==> Minimax(g, level, maxLevel, computer)[c] >= MinSafe as real
    decreases maxLevel - level, 1
  {
    forall c | 0 <= c < |g|
      ensures Minimax(g, level, maxLevel, computer)[c] >= MinSafe as real
    {
      ColumnValueFloor(g, level, maxLevel, computer, c);
    }
  }

  /** While some column is open, the best score of the computer's search is attained at
      an open column: full columns hold MIN_SAFE, which no open column falls below. */
  lemma BestIsOpen(g: Grid, maxLevel: int)
    requires IsGrid(g) && Modest(g) && SomeOpen(g)
    ensures var m := Minimax(g, 1, maxLevel, true);
            exists c :: 0 <= c < |g| && EmptyRow(g, c) >= 0 && m[c] == Max(m)
  {
    var m := Minimax(g, 1, maxLevel, true);
    MinimaxFloor(g, 1, maxLevel, true);
    forall c | 0 <= c < |g| && EmptyRow(g, c) < 0
      ensures m[c] == MinSafe as real
    {
      assert m[c] == ColumnValue(g, 1, maxLevel, true, c);
    }
    MaxAtOpen(g, m);
  }

  /** Scores of at least MIN_SAFE, exactly MIN_SAFE on full columns: while a column is
      open, the maximum is attained at an open column. */
  lemma MaxAtOpen(g: Grid, m: seq<real>)
    requires |m| == |g| && SomeOpen(g)
    requires forall c :: 0 <= c < |g| ==> m[c] >= MinSafe as real
    requires forall c :: 0 <= c < |g| && EmptyRow(g, c) < 0 ==> m[c] == MinSafe as real
    ensures exists c :: 0 <= c < |g| && EmptyRow(g, c) >= 0 && m[c] == Max(m)
  {
    MaxSpec(m);
    var j :| 0 <= j < |m| && m[j] == Max(m);
    if EmptyRow(g, j) < 0 {
      var o :| 0 <= o < |g| && EmptyRow(g, o) >= 0;
      assert m[o] == Max(m);
    }
  }

  /** The column the computer drops into: the search scores every column `maxLevel`
      plies deep, the open columns with the best score are collected, and the draw picks one
      of them. The pick is open and no column scores better. */
  function ComputerColumn(g: Grid, maxLevel: int, draw: real): (col: int)
    requires IsGrid(g) && Modest(g) && SomeOpen(g) && 0.0 <= draw < 1.0
    ensures 0 <= col < |g| && EmptyRow(g, col) >= 0
    ensures forall c :: 0 <= c < |g| ==> Minimax(g, 1, maxLevel, true)[c] <= Minimax(g, 1, maxLevel, true)[col]
  {
    var scores := NextMoves(g, 1, maxLevel, true).scores;
    var best := Max(scores);
    var tied := PossibleFields(g, scores, best, 0);
    NextMovesScores(g, 1, maxLevel, true);
    MaxSpec(scores);
    BestIsOpen(g, maxLevel);
    var o :| 0 <= o < |g| && EmptyRow(g, o) >= 0 && scores[o] == best;
    PossibleFieldsExactly(g, scores, best, 0, o);
    var col := tied[DrawIndex(draw, |tied|)];
    PossibleFieldsExactly(g, scores, best, 0, col);
    col
  }

  /** `addDiscComputerPlayer`: with no winner yet, drop a computer disc into the
      chosen column and evaluate the board again; with a winner, do nothing. */
  function ComputerMove(b: Board, draw: real): (r: Board)
    requires WellFormed(b) && Modest(b.fields) && 0.0 <= draw < 1.0
    requires b.winner == Empty ==> SomeOpen(b.fields)
  {
    if b.winner != Empty then b
    else
      var col := ComputerColumn(b.fields, b.level, draw);
      var row := EmptyRow(b.fields, col);
      PlaceSpec(b.fields, col, row, Computer);
      var placed := Place(b.fields, col, row, Computer);
      var e := Evaluate(placed, 1);
      b.(fields := placed, winner := e.outcome.winner, winnerFields := e.outcome.fields)
  }

  /** With a winner the board is untouched. Otherwise exactly one cell changes, from
      empty to a computer disc, in the lowest free row of an open column that no
      column outscores; the outcome is then that of a fresh evaluation of the new
      grid, and the dimensions and depth are kept. */
  lemma ComputerMoveSpec(b: Board, draw: real)
    requires WellFormed(b) && Modest(b.fields) && 0.0 <= draw < 1.0
    requires b.winner == Empty ==> SomeOpen(b.fields)
    ensures b.winner != Empty ==> ComputerMove(b, draw) == b
    ensures b.winner == Empty ==>
              var r := ComputerMove(b, draw);
              var col := ComputerColumn(b.fields, b.level, draw);
              var row := EmptyRow(b.fields, col);
              && OneDrop(b.fields, r.fields, col, row, Computer)
              && (forall k :: row < k < b.rows ==> b.fields[col][k] != Empty)
              && (forall c :: 0 <= c < b.columns ==>
                    Minimax(b.fields, 1, b.level, true)[c] <= Minimax(b.fields, 1, b.level, true)[col])
              && WellFormed(r) && r.columns == b.columns && r.rows == b.rows && r.level == b.level
              && r.winner == Evaluate(r.fields, 1).outcome.winner
              && r.winnerFields == Evaluate(r.fields, 1).outcome.fields
  {
    if b.winner == Empty {
      var col := ComputerColumn(b.fields, b.level, draw);
      var row := EmptyRow(b.fields, col);
      EmptyRowSpec(b.fields, col);
      PlaceIsOneDrop(b.fields, col, row, Computer);
      PlaceSpec(b.fields, col, row, Computer);
      EvaluateShape(Place(b.fields, col, row, Computer), 1);
    }
  }

  /** The callback a move fires: `onWin` after a winning human drop, `onLose` after a
      computer reply that leaves a winner, or none. */
  datatype Event = Quiet | OnWin | OnLose

  /** What `addDisc` returns: `true`, `false`, or nothing at all once a winner is set. */
  datatype Reply = Accepted | Refused | NoReply

  datatype Move = Move(reply: Reply, board: Board, event: Event)

  /** The human's drop into `column` leaves a move for the computer whenever the drop
      is legal and does not win: the board does not consider a full grid here. */
  predicate ReplyPossible(b: Board, column: int)
    requires WellFormed(b) && 0 <= column < b.columns
  {
    var row := EmptyRow(b.fields, column);
    b.winner == Empty && row >= 0 ==>
      var placed := Place(b.fields, column, row, Human);
      Evaluate(placed, 1).outcome.winner == Empty ==> SomeOpen(placed)
  }

  /** `addDisc`: with no winner, drop a human disc into `column` if it is open and
      evaluate; a win fires `onWin`, otherwise the computer replies, and a winner after
      the reply fires `onLose`. */
  function AddDisc(b: Board, column: int, draw: real): Move
    requires WellFormed(b) && Modest(b.fields) && 0 <= column < b.columns && 0.0 <= draw < 1.0
    requires ReplyPossible(b, column)
  {
    if b.winner != Empty then Move(NoReply, b, Quiet)
    else
      var row := EmptyRow(b.fields, column);
      if row < 0 then Move(Refused, b, Quiet)
      else
        PlaceSpec(b.fields, column, row, Human);
        var placed := Place(b.fields, column, row, Human);
        var e := Evaluate(placed, 1);
        EvaluateShape(placed, 1);
        var human := b.(fields := placed, winner := e.outcome.winner, winnerFields := e.outcome.fields);
        if human.winner != Empty then Move(Accepted, human, OnWin)
        else
          var reply := ComputerMove(human, draw);
          Move(Accepted, reply, if reply.winner != Empty then OnLose else Quiet)
  }

  /** A board that already has a winner answers nothing and stays as it is; a full
      column is refused and changes nothing. */
  lemma AddDiscRefusals(b: Board, column: int, draw: real)
    requires WellFormed(b) && Modest(b.fields) && 0 <= column < b.columns && 0.0 <= draw < 1.0
    requires ReplyPossible(b, column)
    ensures b.winner != Empty ==> AddDisc(b, column, draw) == Move(NoReply, b, Quiet)
    ensures b.winner == Empty ==>
              (AddDisc(b, column, draw).reply == Refused
               <==> forall k :: 0 <= k < b.rows ==> GetStatus(b, column, k) != Empty)
    ensures AddDisc(b, column, draw).reply == Refused ==> AddDisc(b, column, draw).board == b
  {
    var cells := b.fields[column];
    assert |cells| == b.rows;
    EmptyRowSpec(b.fields, column);
    if forall k :: 0 <= k < b.rows ==> GetStatus(b, column, k) != Empty {
      forall k | 0 <= k < |cells|
        ensures cells[k] != Empty
      {
        assert GetStatus(b, column, k) != Empty;
      }
    }
    if EmptyRow(b.fields, column) < 0 {
      forall k | 0 <= k < b.rows
        ensures GetStatus(b, column, k) != Empty
      {
        assert cells[k] != Empty;
      }
    }
  }

  /** An accepted drop puts the human disc into the lowest free cell of the column,
      changing nothing else; `onWin` fires exactly when that drop wins, and then the
      computer does not move and the outcome is that of the evaluation after the drop. */
  lemma AddDiscHumanMove(b: Board, column: int, draw: real)
    requires WellFormed(b) && Modest(b.fields) && 0 <= column < b.columns && 0.0 <= draw < 1.0
    requires ReplyPossible(b, column)
    requires b.winner == Empty && EmptyRow(b.fields, column) >= 0
    ensures var m := AddDisc(b, column, draw);
            var row := EmptyRow(b.fields, column);
            var placed := Place(b.fields, column, row, Human);
            && m.reply == Accepted
            && OneDrop(b.fields, placed, column, row, Human)
            && (forall k :: row < k < b.rows ==> GetStatus(b, column, k) != Empty)
            && GetStatus(m.board, column, row) == Human
            && (m.event == OnWin <==> Evaluate(placed, 1).outcome.winner != Empty)
            && (m.event == OnWin ==>
                  && m.board.fields == placed
                  && m.board.winner == Evaluate(placed, 1).outcome.winner != Empty
                  && m.board.winnerFields == Evaluate(placed, 1).outcome.fields)
  {
    var row := EmptyRow(b.fields, column);
    EmptyRowSpec(b.fields, column);
    PlaceIsOneDrop(b.fields, column, row, Human);
    var placed := Place(b.fields, column, row, Human);
    var human := b.(fields := placed, winner := Evaluate(placed, 1).outcome.winner,
                    winnerFields := Evaluate(placed, 1).outcome.fields);
    if human.winner == Empty {
      EvaluateShape(placed, 1);
      ComputerMoveSpec(human, draw);
    }
  }

  /** Without a human win the computer replies with exactly one disc in a free cell of
      an open column no column outscores; the outcome is that of a fresh evaluation of
      the final grid, and `onLose` fires exactly when it names a winner. */
  lemma AddDiscComputerReply(b: Board, column: int, draw: real)
    requires WellFormed(b) && Modest(b.fields) && 0 <= column < b.columns && 0.0 <= draw < 1.0
    requires ReplyPossible(b, column)
    requires b.winner == Empty && EmptyRow(b.fields, column) >= 0
    requires Evaluate(Place(b.fields, column, EmptyRow(b.fields, column), Human), 1).outcome.winner == Empty
    ensures var m := AddDisc(b, column, draw);
            var placed := Place(b.fields, column, EmptyRow(b.fields, column), Human);
            var col := ComputerColumn(placed, b.level, draw);
            && m.reply == Accepted
            && OneDrop(placed, m.board.fields, col, EmptyRow(placed, col), Computer)
            && (forall c :: 0 <= c < b.columns ==>
                  Minimax(placed, 1, b.level, true)[c] <= Minimax(placed, 1, b.level, true)[col])
            && (m.event == OnLose <==> m.board.winner != Empty)
            && m.board.winner == Evaluate(m.board.fields, 1).outcome.winner
            && m.board.winnerFields == Evaluate(m.board.fields, 1).outcome.fields
  {
    var row := EmptyRow(b.fields, column);
    PlaceSpec(b.fields, column, row, Human);
    var placed := Place(b.fields, column, row, Human);
    var human := b.(fields := placed, winner := Empty, winnerFields := Evaluate(placed, 1).outcome.fields);
    EvaluateShape(placed, 1);
    ComputerMoveSpec(human, draw);
  }

  /** Every call keeps the board well formed with its dimensions and depth, keeps
      gravity, and leaves a consistent outcome: a winner exactly when there are winning
      coordinates, four per completed line. After an accepted move the winner and the
      winning coordinates are those a fresh evaluation of the final grid records. */
  lemma AddDiscInvariants(b: Board, column: int, draw: real)
    requires WellFormed(b) && Modest(b.fields) && 0 <= column < b.columns && 0.0 <= draw < 1.0
    requires ReplyPossible(b, column)
    ensures var r := AddDisc(b, column, draw).board;
            && WellFormed(r) && r.columns == b.columns && r.rows == b.rows && r.level == b.level
            && Modest(r.fields)
            && (Settled(b.fields) ==> Settled(r.fields))
            && (r.winner == Empty <==> r.winnerFields == [])
            && |r.winnerFields| % 4 == 0
            && (AddDisc(b, column, draw).reply == Accepted ==>
                  && r.winner == Evaluate(r.fields, 1).outcome.winner
                  && r.winnerFields == Evaluate(r.fields, 1).outcome.fields)
  {
    if b.winner == Empty && EmptyRow(b.fields, column) >= 0 {
      var row := EmptyRow(b.fields, column);
      PlaceSpec(b.fields, column, row, Human);
      var placed := Place(b.fields, column, row, Human);
      if Settled(b.fields) {
        DropKeepsSettled(b.fields, column, Human);
      }
      EvaluateSpec(placed, 1);
      var e := Evaluate(placed, 1);
      var human := b.(fields := placed, winner := e.outcome.winner, winnerFields := e.outcome.fields);
      assert Modest(placed) by {
        assert Rows(placed) == Rows(b.fields);
      }
      if human.winner == Empty {
        ComputerMoveSpec(human, draw);
        var col := ComputerColumn(placed, b.level, draw);
        var r := ComputerMove(human, draw);
        PlaceSpec(placed, col, EmptyRow(placed, col), Computer);
        EvaluateSpec(r.fields, 1);
        if Settled(placed) {
          DropKeepsSettled(placed, col, Computer);
        }
        assert Modest(r.fields) by {
          assert Rows(r.fields) == Rows(placed);
        }
      }
    }
  }
}
