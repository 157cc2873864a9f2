/** The collision test of a piece against the playfield.
    The test walks the shape's rows bottom-up (reversed(shape)), so row i of
    that walk lies on grid row y + i, and cell j of it on grid column x + j.
    It stops at the first cell whose colour added to the grid value is neither
    the piece's colour nor the grid value itself. */
module Collision {
  import opened Rotation
  import opened Playfield

  /** One cell's test: the grid value m plus the shape value v is neither
      the piece colour nor m. */
  predicate Blocked(m: int, v: int, color: int) {
    m + v != color && m + v != m
  }

  /** Every grid cell the scan reads lies within Python's index range: each
      non-empty bottom-up row i reads grid row ny + i, columns nx up to
      nx + |row| - 1. */
  predicate FitsRows(grid: array2<int>, rows: Shape, nx: int, ny: int) {
    forall i :: 0 <= i < |rows| && |rows[i]| > 0 ==>
      InRange(ny + i, grid.Length0) && 0 <= nx + grid.Length1 && nx + |rows[i]| <= grid.Length1
  }

  /** The scan of a shape placed with its bottom-left corner at (nx, ny) stays
      within the grid. */
  predicate Fits(grid: array2<int>, shape: Shape, nx: int, ny: int) {
    FitsRows(grid, Reverse(shape), nx, ny)
  }

  /** The inner loop: cells j.. of one row, lying on grid row gy. */
  function RowCollides(grid: array2<int>, row: seq<int>, color: int, nx: int, gy: int, j: nat): (r: bool)
    reads grid
    requires |row| > 0 ==> InRange(gy, grid.Length0) && 0 <= nx + grid.Length1 && nx + |row| <= grid.Length1
    requires j <= |row|
    ensures r <==> exists k :: j <= k < |row| && Blocked(At(grid, gy, nx + k), row[k], color)
    decreases |row| - j
  {
    if j == |row| then false
    else if Blocked(At(grid, gy, nx + j), row[j], color) then true
    else RowCollides(grid, row, color, nx, gy, j + 1)
  }

  /** The outer loop: bottom-up rows i.. of the shape. */
  function RowsCollide(grid: array2<int>, rows: Shape, color: int, nx: int, ny: int, i: nat): (r: bool)
    reads grid
    requires FitsRows(grid, rows, nx, ny)
    requires i <= |rows|
    ensures r <==> (exists i', k :: i <= i' < |rows| && 0 <= k < |rows[i']| &&
                      Blocked(At(grid, ny + i', nx + k), rows[i'][k], color))
    decreases |rows| - i
  {
    if i == |rows| then false
    else if RowCollides(grid, rows[i], color, nx, ny + i, 0) then true
    else RowsCollide(grid, rows, color, nx, ny, i + 1)
  }

  /** When every shape cell is 0 or a non-zero colour, a cell is blocked
      exactly when it is filled and lands on a filled grid cell. */
  lemma BlockedIsOverlap(m: int, v: int, color: int)
    requires v == 0 || v == color
    requires color != 0
    ensures Blocked(m, v, color) <==> v != 0 && m != 0
  {
  }

  /** Some filled cell of bottom-up row i, column j, lands on a filled grid
      cell [ny + i][nx + j]. */
  ghost predicate Overlaps(grid: array2<int>, rows: Shape, nx: int, ny: int)
    reads grid
    requires FitsRows(grid, rows, nx, ny)
  {
    exists i, j :: 0 <= i < |rows| && 0 <= j < |rows[i]| &&
      rows[i][j] != 0 && At(grid, ny + i, nx + j) != 0
  }

  /** For a piece whose cells are 0 or its non-zero colour, the scan reports a
      collision exactly when the piece overlaps a filled grid cell. */
  lemma CollidesIsOverlap(grid: array2<int>, rows: Shape, color: int, nx: int, ny: int)
    requires FitsRows(grid, rows, nx, ny)
    ensures PieceCells(rows, color) && color != 0 ==>
      (RowsCollide(grid, rows, color, nx, ny, 0) <==> Overlaps(grid, rows, nx, ny))
  {
    if PieceCells(rows, color) && color != 0 {
      if RowsCollide(grid, rows, color, nx, ny, 0) {
        var i, j :| 0 <= i < |rows| && 0 <= j < |rows[i]| &&
          Blocked(At(grid, ny + i, nx + j), rows[i][j], color);
        BlockedIsOverlap(At(grid, ny + i, nx + j), rows[i][j], color);
      }
      if exists i, j :: 0 <= i < |rows| && 0 <= j < |rows[i]| &&
          rows[i][j] != 0 && At(grid, ny + i, nx + j) != 0
      {
        var i, j :| 0 <= i < |rows| && 0 <= j < |rows[i]| &&
          rows[i][j] != 0 && At(grid, ny + i, nx + j) != 0;
        BlockedIsOverlap(At(grid, ny + i, nx + j), rows[i][j], color);
      }
    }
  }

  /** Reversing the rows keeps the piece-cell discipline. */
  lemma ReverseKeepsPieceCells(s: Shape, color: int)
    ensures PieceCells(s, color) ==> PieceCells(Reverse(s), color)
  {
    var r := Reverse(s);
    forall i, j | 0 <= i < |r| && 0 <= j < |r[i]| ensures PieceCells(s, color) ==> r[i][j] == 0 || r[i][j] == color {
      assert r[i] == s[|s| - 1 - i];
    }
  }
}
