/**
 * The serialisable snapshot of a board (Life/Program.cs, classes CellState
 * and BoardState, and the grids `ToState` and `FromState` exchange).
 */
module Snapshots {
  import opened Torus

  datatype CellState = CellState(isAlive: bool)

  /** Cells are stored row by row: `cells[y][x]` is cell (x, y). */
  datatype BoardState = BoardState(width: int, height: int, cellSize: int, cells: seq<seq<CellState>>)

  /** A state `FromState` can rebuild a board from without an exception: the
      cell size is not zero, both quotients are array lengths, and, unless
      there are no columns to read, there are enough rows of enough cells. */
  predicate Loadable(state: BoardState)
  {
    state.cellSize != 0 &&
    var columns := CSharpDiv(state.width, state.cellSize);
    var rows := CSharpDiv(state.height, state.cellSize);
    IsLength(columns) && IsLength(rows) &&
    (columns > 0 ==> |state.cells| >= rows && forall y :: 0 <= y < rows ==> |state.cells[y]| >= columns)
  }

  /** The entry `state.cells[y][x]` exists. */
  predicate HasEntry(state: BoardState, x: int, y: int)
  {
    0 <= y < |state.cells| && 0 <= x < |state.cells[y]|
  }

  /** Every entry `state.cells[y][x]` the copy loop of `FromState` reads exists. */
  predicate ReadsInRange(state: BoardState, columns: int, rows: int)
  {
    forall x, y :: 0 <= x < columns && 0 <= y < rows ==> HasEntry(state, x, y)
  }

  /** A state is loadable exactly when the board size is allocatable and
      every read of the copy loop is in range. */
  lemma LoadableMeans(state: BoardState)
    requires state.cellSize != 0
    ensures Loadable(state) <==>
      IsLength(CSharpDiv(state.width, state.cellSize)) && IsLength(CSharpDiv(state.height, state.cellSize)) &&
      ReadsInRange(state, CSharpDiv(state.width, state.cellSize), CSharpDiv(state.height, state.cellSize))
  {
    var columns := CSharpDiv(state.width, state.cellSize);
    var rows := CSharpDiv(state.height, state.cellSize);
    if Loadable(state) {
      forall x, y | 0 <= x < columns && 0 <= y < rows
        ensures HasEntry(state, x, y)
      {
        assert |state.cells| >= rows && |state.cells[y]| >= columns;
      }
      assert ReadsInRange(state, columns, rows);
    }
    if IsLength(columns) && IsLength(rows) && ReadsInRange(state, columns, rows) && columns > 0 {
      forall y | 0 <= y < rows
        ensures y < |state.cells| && |state.cells[y]| >= columns
      {
        assert HasEntry(state, columns - 1, y);
      }
      if rows > 0 {
        assert HasEntry(state, 0, rows - 1);
      }
      assert |state.cells| >= rows;
    }
  }

  /** The state `ToState` produces for a board with grid `g`. */
  function StateOf(g: Grid, cellSize: int): (state: BoardState)
    requires g.Valid()
    ensures state.width == g.columns * cellSize && state.height == g.rows * cellSize
    ensures state.cellSize == cellSize
    ensures |state.cells| == g.rows && forall y :: 0 <= y < g.rows ==> |state.cells[y]| == g.columns
    ensures forall x, y :: 0 <= x < g.columns && 0 <= y < g.rows ==> state.cells[y][x].isAlive == g.alive[x][y]
  {
    BoardState(g.columns * cellSize, g.rows * cellSize, cellSize,
      seq(g.rows, y requires 0 <= y < g.rows =>
        seq(g.columns, x requires 0 <= x < g.columns => CellState(g.alive[x][y]))))
  }

  /** The grid of the board `FromState` builds from `state`. */
  function GridOfState(state: BoardState): (g: Grid)
    requires Loadable(state)
    ensures g.Valid()
    ensures g.columns == CSharpDiv(state.width, state.cellSize) && g.rows == CSharpDiv(state.height, state.cellSize)
    ensures forall x, y :: 0 <= x < g.columns && 0 <= y < g.rows ==> g.alive[x][y] == state.cells[y][x].isAlive
  {
    var columns := CSharpDiv(state.width, state.cellSize);
    var rows := CSharpDiv(state.height, state.cellSize);
    Grid(columns, rows,
      seq(columns, x requires 0 <= x < columns =>
        seq(rows, y requires 0 <= y < rows => state.cells[y][x].isAlive)))
  }

  /** `FromState(ToState(b))` has the same dimensions, cell size and flags as `b`. */
  lemma StateRoundTrip(g: Grid, cellSize: int)
    requires g.Valid() && cellSize != 0 && IsLength(g.columns) && IsLength(g.rows)
    ensures Loadable(StateOf(g, cellSize))
    ensures StateOf(g, cellSize).cellSize == cellSize
    ensures GridOfState(StateOf(g, cellSize)) == g
  {
    var state := StateOf(g, cellSize);
    CSharpDivMul(g.columns, cellSize);
    CSharpDivMul(g.rows, cellSize);
    GridExtensionality(GridOfState(state), g);
  }
}
