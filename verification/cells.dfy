/** Cells, coordinates and the grid of a drop-disc board, with the single-cell write
    that every move and every exploratory search step is built from. */
module Cells {

  /** What a grid cell holds; the board stores these as 0, 1 and 2. */
  datatype Cell = Empty | Human | Computer

  /** A grid position. Row 0 is the top row: discs fall toward the largest row index. */
  datatype Coord = Coord(col: int, row: int)

  /** The grid is indexed column first, `g[col][row]`. */
  type Grid = seq<seq<Cell>>

  /** At least one column, and every column as tall as the first. */
  predicate IsGrid(g: Grid) {
    |g| > 0 && forall c :: 0 <= c < |g| ==> |g[c]| == |g[0]|
  }

  function Rows(g: Grid): nat
    requires |g| > 0
  {
    |g[0]|
  }

  predicate InGrid(g: Grid, col: int, row: int) {
    0 <= col < |g| && 0 <= row < |g[col]|
  }

  predicate SameShape(g: Grid, h: Grid) {
    |g| == |h| && forall c :: 0 <= c < |g| ==> |g[c]| == |h[c]|
  }

  /** Gravity: in every column, no empty cell lies below (at a larger row index than)
      an occupied one. */
  predicate Settled(g: Grid) {
    forall c, i, j :: 0 <= c < |g| && 0 <= i < j < |g[c]| && g[c][i] != Empty ==> g[c][j] != Empty
  }

  /** `fields[col][row] = v`. */
  function Place(g: Grid, col: int, row: int, v: Cell): (r: Grid)
    requires InGrid(g, col, row)
    ensures |r| == |g|
  {
    g[col := g[col][row := v]]
  }

  /** A write changes the one addressed cell and keeps the shape and every other cell. */
  lemma PlaceSpec(g: Grid, col: int, row: int, v: Cell)
    requires InGrid(g, col, row)
    ensures SameShape(g, Place(g, col, row, v))
    ensures IsGrid(g) ==> IsGrid(Place(g, col, row, v))
    ensures Place(g, col, row, v)[col][row] == v
    ensures forall c, w :: InGrid(g, c, w) && (c != col || w != row) ==> Place(g, col, row, v)[c][w] == g[c][w]
  {
  }

  /** Writing a cell back to Empty undoes a write into an empty cell. */
  lemma PlaceUndo(g: Grid, col: int, row: int, v: Cell)
    requires InGrid(g, col, row) && g[col][row] == Empty
    ensures Place(Place(g, col, row, v), col, row, Empty) == g
  {
    assert g[col][row := v][row := Empty] == g[col];
  }

  /** A write into an empty cell: exactly the cell (col, row) changes, from Empty to
      `v`, and the shape is kept. */
  predicate OneDrop(before: Grid, after: Grid, col: int, row: int, v: Cell) {
    && SameShape(before, after)
    && InGrid(before, col, row)
    && before[col][row] == Empty
    && after[col][row] == v
    && forall c, w :: 0 <= c < |before| && 0 <= w < |before[c]| && (c != col || w != row)
                      ==> after[c][w] == before[c][w]
  }

  lemma PlaceIsOneDrop(g: Grid, col: int, row: int, v: Cell)
    requires InGrid(g, col, row) && g[col][row] == Empty
    ensures OneDrop(g, Place(g, col, row, v), col, row, v)
  {
    PlaceSpec(g, col, row, v);
  }
}
