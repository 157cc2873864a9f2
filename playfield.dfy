/** The playfield matrix: rows of integer cells, row 0 at the bottom.
    The walls (first and last column) and the floor (row 0) hold 1, every
    other cell starts at 0; locked pieces leave their colour codes behind. */
module Playfield {

  const Rows := 21
  const Cols := 12
  const LeftWall := 0
  const RightWall := Cols - 1
  const Floor := 0

  /** The wall and floor cells. */
  predicate IsBorder(i: int, j: int) {
    j == LeftWall || j == RightWall || i == Floor
  }

  /** A Python list index into a list of length n: -n..n-1 are legal. */
  predicate InRange(k: int, n: nat) {
    0 <= k + n && k < n
  }

  /** The item a Python index names: a negative index counts from the end. */
  function Wrap(k: int, n: nat): (r: nat)
    requires InRange(k, n)
    ensures r < n && r % n == k % n
  {
    if k < 0 then k + n else k
  }

  /** grid[row][col] as Python reads it from the list of rows. */
  function At(grid: array2<int>, row: int, col: int): int
    reads grid
    requires InRange(row, grid.Length0) && InRange(col, grid.Length1)
  {
    grid[Wrap(row, grid.Length0), Wrap(col, grid.Length1)]
  }

  /** The contents of a matrix, row by row. */
  ghost function Snapshot(g: array2<int>): (s: seq<seq<int>>)
    reads g
    ensures |s| == g.Length0
    ensures forall a :: 0 <= a < |s| ==> |s[a]| == g.Length1
    ensures forall a, b :: 0 <= a < g.Length0 && 0 <= b < g.Length1 ==> s[a][b] == g[a, b]
  {
    seq(g.Length0, a requires 0 <= a < g.Length0 reads g =>
      seq(g.Length1, b requires 0 <= b < g.Length1 reads g => g[a, b]))
  }

  /** Two Python indices closer together than the list is long name
      different items. */
  lemma WrapInjective(k1: int, k2: int, n: nat)
    requires InRange(k1, n) && InRange(k2, n)
    requires k1 - k2 < n && k2 - k1 < n
    requires Wrap(k1, n) == Wrap(k2, n)
    ensures k1 == k2
  {
  }

  class Grid {
    /** The matrix; every cell of it is a separate storage location, so
        writing one cell never changes another row. */
    const cells: array2<int>

    /** A bordered Rows x Cols matrix. */
    constructor ()
      ensures fresh(cells)
      ensures cells.Length0 == Rows && cells.Length1 == Cols
      ensures forall i, j :: 0 <= i < Rows && 0 <= j < Cols ==>
        cells[i, j] == if IsBorder(i, j) then 1 else 0
    {
      var g := new int[Rows, Cols]((i, j) => 0);
      var i := 0;
      while i < Rows
        invariant 0 <= i <= Rows
        invariant forall r, c :: 0 <= r < Rows && 0 <= c < Cols ==>
          g[r, c] == if r < i && IsBorder(r, c) then 1 else 0
      {
        var j := 0;
        while j < Cols
          invariant 0 <= j <= Cols
          invariant forall r, c :: 0 <= r < Rows && 0 <= c < Cols ==>
            g[r, c] == if (r < i || (r == i && c < j)) && IsBorder(r, c) then 1 else 0
        {
          if j == LeftWall || j == RightWall || i == Floor {
            g[i, j] := 1;
          }
          j := j + 1;
        }
        i := i + 1;
      }
      cells := g;
    }

    /** The rows in the order the text form of the grid lists them: the top
        row first and the floor row 0 last. */
    method Lines() returns (lines: seq<seq<int>>)
      ensures |lines| == cells.Length0
      ensures forall k :: 0 <= k < |lines| ==> |lines[k]| == cells.Length1
      ensures forall k, c :: 0 <= k < |lines| && 0 <= c < |lines[k]| ==>
        lines[k][c] == cells[cells.Length0 - 1 - k, c]
    {
      lines := [];
      var i := cells.Length0;
      while i > 0
        invariant 0 <= i <= cells.Length0
        invariant |lines| == cells.Length0 - i
        invariant forall k :: 0 <= k < |lines| ==> |lines[k]| == cells.Length1
        invariant forall k, c :: 0 <= k < |lines| && 0 <= c < |lines[k]| ==>
          lines[k][c] == cells[cells.Length0 - 1 - k, c]
      {
        i := i - 1;
        var line := [];
        var j := 0;
        while j < cells.Length1
          invariant 0 <= j <= cells.Length1
          invariant |line| == j
          invariant forall c :: 0 <= c < j ==> line[c] == cells[i, c]
        {
          line := line + [cells[i, j]];
          j := j + 1;
        }
        lines := lines + [line];
      }
    }
  }
}
