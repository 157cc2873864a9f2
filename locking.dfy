/** What lock-down does to the playfield, as the list of cell writes it
    performs. Lock-down walks the shape bottom-up like the collision test and
    writes each filled cell's colour into grid[y + i][x + j], skipping cells
    that land on a wall column or on the floor row. */
module Locking {
  import opened Rotation
  import opened Playfield

  /** A piece that locks with a cell on this row or above is locked out. */
  const Skyline := 21

  /** One assignment grid[row][col] = value, with the row and column as
      computed (before Python resolves negative indices). */
  datatype Write = Write(row: int, col: int, value: int)

  /** Lock-down writes a shape cell with value v landing on (row, col)
      exactly when it is filled and lands off the walls and the floor. */
  predicate Lockable(row: int, col: int, v: int) {
    col != LeftWall && col != RightWall && row != Floor && v != 0
  }

  /** The writes for cells 0..n-1 of one row lying on grid row gy. */
  function RowWrites(row: seq<int>, nx: int, gy: int, n: nat): seq<Write>
    requires n <= |row|
  {
    if n == 0 then []
    else
      var cell := if Lockable(gy, nx + n - 1, row[n - 1]) then [Write(gy, nx + n - 1, row[n - 1])] else [];
      RowWrites(row, nx, gy, n - 1) + cell
  }

  /** The writes for bottom-up rows 0..n-1. */
  function RowsWrites(rows: Shape, nx: int, ny: int, n: nat): seq<Write>
    requires n <= |rows|
  {
    if n == 0 then []
    else RowsWrites(rows, nx, ny, n - 1) + RowWrites(rows[n - 1], nx, ny + n - 1, |rows[n - 1]|)
  }

  /** Every write lock-down performs for shape at (x, y), in the order it
      performs them. */
  function LockWrites(shape: Shape, x: int, y: int): seq<Write> {
    RowsWrites(Reverse(shape), x, y, |shape|)
  }

  /** Every cell lock-down writes has a row and a column within Python's
      index range for an h x wd grid. */
  predicate LockFits(h: nat, wd: nat, rows: Shape, nx: int, ny: int) {
    forall i, j :: 0 <= i < |rows| && 0 <= j < |rows[i]| && Lockable(ny + i, nx + j, rows[i][j]) ==>
      InRange(ny + i, h) && InRange(nx + j, wd)
  }

  /** Write w lands on cell (a, b) of an h x wd grid. */
  predicate Hits(w: Write, h: nat, wd: nat, a: int, b: int) {
    InRange(w.row, h) && InRange(w.col, wd) && Wrap(w.row, h) == a && Wrap(w.col, wd) == b
  }

  /** The value cell (a, b) of an h x wd grid holds once the writes ws have
      been applied, in order, to a cell that held v0: the last write that
      lands on it wins. */
  function Final(ws: seq<Write>, h: nat, wd: nat, a: int, b: int, v0: int): int {
    if ws == [] then v0
    else if Hits(ws[|ws| - 1], h, wd, a, b) then ws[|ws| - 1].value
    else Final(ws[..|ws| - 1], h, wd, a, b, v0)
  }

  /** Some write in ws lands at or above the skyline row. */
  predicate Overflows(ws: seq<Write>) {
    exists k :: 0 <= k < |ws| && ws[k].row >= Skyline
  }

  lemma OverflowsAppend(ws: seq<Write>, more: seq<Write>)
    ensures Overflows(ws + more) <==> Overflows(ws) || Overflows(more)
  {
    var all := ws + more;
    if Overflows(all) {
      var k :| 0 <= k < |all| && all[k].row >= Skyline;
      if k >= |ws| {
        assert more[k - |ws|] == all[k];
      }
    }
    if Overflows(more) {
      var k :| 0 <= k < |more| && more[k].row >= Skyline;
      assert all[|ws| + k] == more[k];
    }
    if Overflows(ws) {
      var k :| 0 <= k < |ws| && ws[k].row >= Skyline;
      assert all[k] == ws[k];
    }
  }

  /** Applying one more write changes only the cell it lands on. */
  lemma FinalStep(ws: seq<Write>, w: Write, h: nat, wd: nat, a: int, b: int, v0: int)
    ensures Final(ws + [w], h, wd, a, b, v0) ==
      if Hits(w, h, wd, a, b) then w.value else Final(ws, h, wd, a, b, v0)
  {
    assert (ws + [w])[..|ws|] == ws;
  }

  lemma {:induction false} RowWriteMember(row: seq<int>, nx: int, gy: int, n: nat, w: Write)
    requires n <= |row|
    ensures w in RowWrites(row, nx, gy, n) <==>
      exists j :: 0 <= j < n && Lockable(gy, nx + j, row[j]) && w == Write(gy, nx + j, row[j])
  {
    if n > 0 {
      RowWriteMember(row, nx, gy, n - 1, w);
    }
  }

  lemma {:induction false} RowsWriteMember(rows: Shape, nx: int, ny: int, n: nat, w: Write)
    requires n <= |rows|
    ensures w in RowsWrites(rows, nx, ny, n) <==>
      exists i, j :: 0 <= i < n && 0 <= j < |rows[i]| && Lockable(ny + i, nx + j, rows[i][j]) &&
        w == Write(ny + i, nx + j, rows[i][j])
  {
    if n > 0 {
      RowsWriteMember(rows, nx, ny, n - 1, w);
      RowWriteMember(rows[n - 1], nx, ny + n - 1, |rows[n - 1]|, w);
      if w in RowWrites(rows[n - 1], nx, ny + n - 1, |rows[n - 1]|) {
        var j :| 0 <= j < |rows[n - 1]| && Lockable(ny + n - 1, nx + j, rows[n - 1][j]) &&
          w == Write(ny + n - 1, nx + j, rows[n - 1][j]);
        assert 0 <= n - 1 < n;
      }
    }
  }

  /** Lock-down writes exactly the filled cells of the bottom-up rows that
      land off the walls and the floor, each with its own value. */
  lemma LockWriteMember(shape: Shape, x: int, y: int, w: Write)
    ensures w in LockWrites(shape, x, y) <==>
      exists i, j :: 0 <= i < |shape| && 0 <= j < |Reverse(shape)[i]| &&
        Lockable(y + i, x + j, Reverse(shape)[i][j]) && w == Write(y + i, x + j, Reverse(shape)[i][j])
  {
    var rows := Reverse(shape);
    RowsWriteMember(rows, x, y, |rows|, w);
    if w in LockWrites(shape, x, y) {
      var i, j :| 0 <= i < |rows| && 0 <= j < |rows[i]| && Lockable(y + i, x + j, rows[i][j]) &&
        w == Write(y + i, x + j, rows[i][j]);
      assert 0 <= i < |shape| && 0 <= j < |Reverse(shape)[i]|;
      assert Lockable(y + i, x + j, Reverse(shape)[i][j]);
      assert w == Write(y + i, x + j, Reverse(shape)[i][j]);
    } else {
      forall i, j | 0 <= i < |shape| && 0 <= j < |rows[i]|
        ensures !(Lockable(y + i, x + j, rows[i][j]) && w == Write(y + i, x + j, rows[i][j]))
      {
        assert i < |rows|;
      }
    }
  }

  /** Lock-down reaches the skyline exactly when some lockable cell of the
      shape lands on a row at or above it. */
  lemma LockedOutMeaning(shape: Shape, x: int, y: int)
    ensures Overflows(LockWrites(shape, x, y)) <==>
      exists i, j :: 0 <= i < |shape| && 0 <= j < |Reverse(shape)[i]| &&
        Lockable(y + i, x + j, Reverse(shape)[i][j]) && y + i >= Skyline
  {
    var rows := Reverse(shape);
    var ws := LockWrites(shape, x, y);
    if Overflows(ws) {
      var k :| 0 <= k < |ws| && ws[k].row >= Skyline;
      LockWriteMember(shape, x, y, ws[k]);
      var i, j :| 0 <= i < |shape| && 0 <= j < |rows[i]| &&
        Lockable(y + i, x + j, rows[i][j]) && ws[k] == Write(y + i, x + j, rows[i][j]);
      assert y + i >= Skyline;
    }
    if exists i, j :: 0 <= i < |shape| && 0 <= j < |rows[i]| &&
        Lockable(y + i, x + j, rows[i][j]) && y + i >= Skyline
    {
      var i, j :| 0 <= i < |shape| && 0 <= j < |rows[i]| &&
        Lockable(y + i, x + j, rows[i][j]) && y + i >= Skyline;
      var w := Write(y + i, x + j, rows[i][j]);
      LockWriteMember(shape, x, y, w);
      assert 0 <= i < |shape| && 0 <= j < |Reverse(shape)[i]|;
      assert Lockable(y + i, x + j, Reverse(shape)[i][j]) && w == Write(y + i, x + j, Reverse(shape)[i][j]);
      var k :| 0 <= k < |ws| && ws[k] == w;
    }
  }

  /** A cell no write lands on keeps its value. */
  lemma {:induction false} FinalUntouched(ws: seq<Write>, h: nat, wd: nat, a: int, b: int, v0: int)
    requires forall k :: 0 <= k < |ws| ==> !Hits(ws[k], h, wd, a, b)
    ensures Final(ws, h, wd, a, b, v0) == v0
  {
    if ws != [] {
      var init := ws[..|ws| - 1];
      assert forall k :: 0 <= k < |init| ==> init[k] == ws[k];
      FinalUntouched(init, h, wd, a, b, v0);
    }
  }

  /** A cell some write lands on, where every write landing on it carries
      the value v, ends up holding v. */
  lemma {:induction false} FinalUniform(ws: seq<Write>, h: nat, wd: nat, a: int, b: int, v0: int, v: int)
    requires forall k :: 0 <= k < |ws| && Hits(ws[k], h, wd, a, b) ==> ws[k].value == v
    requires exists k :: 0 <= k < |ws| && Hits(ws[k], h, wd, a, b)
    ensures Final(ws, h, wd, a, b, v0) == v
  {
    var last := ws[|ws| - 1];
    if !Hits(last, h, wd, a, b) {
      var init := ws[..|ws| - 1];
      assert forall k :: 0 <= k < |init| ==> init[k] == ws[k];
      var k :| 0 <= k < |ws| && Hits(ws[k], h, wd, a, b);
      assert k < |init|;
      FinalUniform(init, h, wd, a, b, v0, v);
    }
  }

  /** Lock-down leaves alone every grid cell that no lockable shape cell
      lands on. */
  lemma LockDownKeeps(shape: Shape, x: int, y: int, h: nat, wd: nat, a: int, b: int, v0: int)
    requires forall i, j ::
      (0 <= i < |shape| && 0 <= j < |Reverse(shape)[i]| && Lockable(y + i, x + j, Reverse(shape)[i][j])) ==>
        !Hits(Write(y + i, x + j, Reverse(shape)[i][j]), h, wd, a, b)
    ensures Final(LockWrites(shape, x, y), h, wd, a, b, v0) == v0
  {
    var ws := LockWrites(shape, x, y);
    forall k | 0 <= k < |ws| ensures !Hits(ws[k], h, wd, a, b) {
      LockWriteMember(shape, x, y, ws[k]);
    }
    FinalUntouched(ws, h, wd, a, b, v0);
  }

  /** When the shape is no taller than the grid and the row is no wider,
      a lockable cell (i, j) is the only shape cell landing on its grid cell,
      so lock-down leaves its value there. */
  lemma LockDownWrites(shape: Shape, x: int, y: int, h: nat, wd: nat, i: nat, j: nat, v0: int)
    requires i < |shape| && j < |Reverse(shape)[i]|
    requires |shape| <= h && |Reverse(shape)[i]| <= wd
    requires Lockable(y + i, x + j, Reverse(shape)[i][j])
    requires InRange(y + i, h) && InRange(x + j, wd)
    ensures Final(LockWrites(shape, x, y), h, wd, Wrap(y + i, h), Wrap(x + j, wd), v0) == Reverse(shape)[i][j]
  {
    var rows := Reverse(shape);
    var ws := LockWrites(shape, x, y);
    var a, b := Wrap(y + i, h), Wrap(x + j, wd);
    var mine := Write(y + i, x + j, rows[i][j]);
    LockWriteMember(shape, x, y, mine);
    var k0 :| 0 <= k0 < |ws| && ws[k0] == mine;
    forall k | 0 <= k < |ws| && Hits(ws[k], h, wd, a, b) ensures ws[k].value == rows[i][j] {
      LockWriteMember(shape, x, y, ws[k]);
      var i', j' :| 0 <= i' < |shape| && 0 <= j' < |rows[i']| &&
        Lockable(y + i', x + j', rows[i'][j']) && ws[k] == Write(y + i', x + j', rows[i'][j']);
      WrapInjective(y + i', y + i, h);
      WrapInjective(x + j', x + j, wd);
    }
    FinalUniform(ws, h, wd, a, b, v0, rows[i][j]);
  }

  /** On a playfield of Rows (21) rows no write lock-down can perform lands
      at or above the skyline: a write to row 21 or higher would be outside
      Python's index range, so the locked-out test never fires. */
  lemma SkylineOutOfReach(shape: Shape, x: int, y: int, wd: nat)
    requires LockFits(Rows, wd, Reverse(shape), x, y)
    ensures !Overflows(LockWrites(shape, x, y))
  {
    LockedOutMeaning(shape, x, y);
    var rows := Reverse(shape);
    forall i, j | 0 <= i < |shape| && 0 <= j < |rows[i]| && Lockable(y + i, x + j, rows[i][j])
      ensures y + i < Skyline
    {
      assert InRange(y + i, Rows);
    }
  }
}
