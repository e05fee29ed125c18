/** Where a dropped disc lands: the gravity lookup of the board. */
module Gravity {
  import opened Cells

  /** The lookup loop: from `row` toward row 0, stop at the first empty cell;
      -1 when none is found. */
  function ScanUp(cells: seq<Cell>, row: int): (r: int)
    requires -1 <= row < |cells|
    ensures -1 <= r <= row
    decreases row + 1
  {
    if row < 0 then -1
    else if cells[row] == Empty then row
    else ScanUp(cells, row - 1)
  }

  /** The loop finds the empty cell nearest to `row`, and -1 exactly when cells
      0..row are all occupied. */
  lemma {:induction false} ScanUpSpec(cells: seq<Cell>, row: int)
    requires -1 <= row < |cells|
    ensures ScanUp(cells, row) == -1 <==> forall k :: 0 <= k <= row ==> cells[k] != Empty
    ensures ScanUp(cells, row) >= 0 ==> cells[ScanUp(cells, row)] == Empty
    ensures forall k :: ScanUp(cells, row) < k <= row ==> cells[k] != Empty
    decreases row + 1
  {
    if row >= 0 && cells[row] != Empty {
      ScanUpSpec(cells, row - 1);
    }
  }

  /** `getEmptyRow`: the lookup loop run from the bottom row. */
  function EmptyRow(g: Grid, col: int): (r: int)
    requires 0 <= col < |g|
    ensures -1 <= r < |g[col]|
  {
    ScanUp(g[col], |g[col]| - 1)
  }

  /** -1 exactly when the column is full; otherwise the row is empty and every row
      below it (larger index) is occupied, so it is the largest empty row. */
  lemma EmptyRowSpec(g: Grid, col: int)
    requires 0 <= col < |g|
    ensures EmptyRow(g, col) == -1 <==> forall k :: 0 <= k < |g[col]| ==> g[col][k] != Empty
    ensures EmptyRow(g, col) >= 0 ==> g[col][EmptyRow(g, col)] == Empty
    ensures forall k :: EmptyRow(g, col) < k < |g[col]| ==> g[col][k] != Empty
  {
    ScanUpSpec(g[col], |g[col]| - 1);
  }

  /** Some column can still take a disc. */
  predicate SomeOpen(g: Grid) {
    exists c :: 0 <= c < |g| && EmptyRow(g, c) >= 0
  }

  /** Dropping a disc where `EmptyRow` points keeps every column settled. */
  lemma DropKeepsSettled(g: Grid, col: int, v: Cell)
    requires 0 <= col < |g| && Settled(g) && EmptyRow(g, col) >= 0 && v != Empty
    ensures Settled(Place(g, col, EmptyRow(g, col), v))
  {
    var row := EmptyRow(g, col);
    var h := Place(g, col, row, v);
    EmptyRowSpec(g, col);
    PlaceSpec(g, col, row, v);
    forall c, i, j | 0 <= c < |h| && 0 <= i < j < |h[c]| && h[c][i] != Empty
      ensures h[c][j] != Empty
    {
      if c == col && i < row {
        assert false;
      }
    }
  }

  /** On a settled column, successive drops stack upward one row at a time. */
  lemma DropStacks(g: Grid, col: int, v: Cell)
    requires 0 <= col < |g| && Settled(g) && EmptyRow(g, col) >= 0 && v != Empty
    ensures EmptyRow(Place(g, col, EmptyRow(g, col), v), col) == EmptyRow(g, col) - 1
  {
    var row := EmptyRow(g, col);
    var h := Place(g, col, row, v);
    var e := EmptyRow(h, col);
    EmptyRowSpec(g, col);
    EmptyRowSpec(h, col);
    PlaceSpec(g, col, row, v);
    if row > 0 {
      assert g[col][row - 1] == Empty;
      assert h[col][row - 1] == Empty;
      assert e != -1;
      assert e >= row - 1;
      assert e != row;
    } else {
      assert forall k :: 0 <= k < |h[col]| ==> h[col][k] != Empty;
    }
  }
}
