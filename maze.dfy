/**
 * The maze grid and the collision rule of the demo: a fixed table of cells
 * (1 = wall, 0 = path) and the check that turns a pixel position into a cell
 * and reports whether the player may stand there.
 */
module Maze {

  /** Side of one grid cell in pixels; collision math and rendering share it. */
  const CellSize: int := 180

  /** The maze layout. It is never written after initialisation. */
  const Grid: seq<seq<int>> := [
    [1, 1, 1, 1, 1, 1, 1, 1, 1, 1, 1, 1, 1, 1, 1],
    [1, 0, 0, 1, 0, 0, 0, 1, 0, 1, 1, 1, 1, 1, 1],
    [1, 0, 1, 1, 0, 1, 0, 0, 0, 0, 0, 0, 0, 1, 1],
    [1, 0, 1, 0, 0, 1, 1, 1, 1, 1, 0, 1, 0, 0, 1],
    [1, 0, 0, 0, 1, 1, 1, 1, 1, 0, 0, 1, 0, 1, 1],
    [1, 1, 1, 1, 1, 1, 1, 1, 1, 1, 1, 1, 1, 1, 1]
  ]

  /** Number of rows, `maze.size()`. */
  const Rows: int := |Grid|

  /** Number of columns, taken from the first row as `maze[0].size()` does. */
  const Cols: int := |Grid[0]|

  /** Every row of the grid is as long as the first one. */
  predicate Rectangular()
  {
    forall r :: 0 <= r < |Grid| ==> |Grid[r]| == Cols
  }

  /** The grid is rectangular; the lookups rely on this. */
  lemma {:induction false} GridIsRectangular()
    ensures Rectangular()
  {
  }

  /** The maze is 6 by 15 and every cell holds 0 or 1. */
  lemma {:induction false} GridShape()
    ensures Rows == 6 && Cols == 15
    ensures Rectangular()
    ensures forall r, c :: 0 <= r < Rows && 0 <= c < Cols ==> Grid[r][c] == 0 || Grid[r][c] == 1
  {
  }

  /** The outermost rows and columns of the grid are all walls, so the maze is closed. */
  lemma {:induction false} BorderIsWall()
    ensures forall c :: 0 <= c < Cols ==> Grid[0][c] == 1 && Grid[Rows - 1][c] == 1
    ensures forall r :: 0 <= r < Rows ==> Grid[r][0] == 1 && Grid[r][Cols - 1] == 1
  {
  }

  /**
   * The cell index of a pixel coordinate: division by the cell size that
   * truncates toward zero, as `/` on `int` does in C++ (Dafny's own `/` is
   * Euclidean and rounds negative quotients down instead).
   */
  function CellIndex(pixel: int): (i: int)
    ensures 0 <= pixel ==> 0 <= i * CellSize <= pixel < i * CellSize + CellSize
    ensures pixel < 0 ==> i * CellSize - CellSize < pixel <= i * CellSize <= 0
  {
    if pixel >= 0 then pixel / CellSize else -((-pixel) / CellSize)
  }

  /** Whether a cell index lies inside the grid. */
  predicate InBounds(row: int, col: int)
  {
    0 <= row < Rows && 0 <= col < Cols
  }

  /**
   * The grid model's fail-closed lookup: a cell outside the grid counts as a
   * wall, a cell inside is a wall when its stored value is 1.
   */
  predicate CellIsWall(row: int, col: int)
  {
    GridIsRectangular();
    !InBounds(row, col) || Grid[row][col] == 1
  }

  /**
   * `isWall`: converts pixel coordinates to cell indices by truncating
   * division by the cell size and reports a wall for any index out of range.
   * The row test comes first; in the source its `mazeY < 0` guard keeps the
   * signed/unsigned comparison with `maze.size()` safe.
   */
  predicate IsWall(x: int, y: int)
  {
    var mazeX := CellIndex(x);
    var mazeY := CellIndex(y);
    GridIsRectangular();
    if mazeY < 0 || mazeY >= |Grid| || mazeX < 0 || mazeX >= |Grid[0]| then true
    else Grid[mazeY][mazeX] == 1
  }

  /** Truncating division by the cell size gives back the index of a cell origin exactly. */
  lemma {:induction false} CellIndexOfMultiple(n: int)
    ensures CellIndex(n * CellSize) == n
  {
  }

  /** At the pixel origin of any cell, in or out of the grid, the check reads the grid model. */
  lemma {:induction false} IsWallAtCellOrigin(row: int, col: int)
    ensures IsWall(col * CellSize, row * CellSize) <==> CellIsWall(row, col)
  {
  }

  /**
   * Every non-negative pixel inside the square of a cell gets the same answer
   * as the cell itself.
   */
  lemma {:induction false} SameCellSameAnswer(row: int, col: int, dx: int, dy: int)
    requires 0 <= row && 0 <= col
    requires 0 <= dx < CellSize && 0 <= dy < CellSize
    ensures IsWall(col * CellSize + dx, row * CellSize + dy) <==> CellIsWall(row, col)
  {
  }

  /** Pixels whose cell lies outside the grid on either axis are reported as walls. */
  lemma {:induction false} OutsideGridIsWall(x: int, y: int)
    requires x <= -CellSize || x >= Cols * CellSize || y <= -CellSize || y >= Rows * CellSize
    ensures IsWall(x, y)
  {
  }

  /**
   * Because C++ division truncates toward zero, a pixel a little left of or
   * above the grid maps to column 0 or row 0, and is judged like that cell's edge.
   */
  lemma {:induction false} NegativeSliverJoinsFirstCell(x: int, y: int)
    requires -CellSize < x < 0
    ensures IsWall(x, y) <==> IsWall(0, y)
    ensures IsWall(y, x) <==> IsWall(y, 0)
  {
  }
}
