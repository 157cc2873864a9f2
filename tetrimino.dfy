/** The falling piece: its shape, colour and position on the shared
    playfield matrix, its guarded moves and turns, the key-driven drop flags,
    and lock-down, which writes the piece into the matrix. */
module Piece {
  import opened Rotation
  import opened Playfield
  import opened Collision
  import opened Locking

  /** The keys the piece reacts to; every other key is Other. */
  datatype Key = Left | Right | Up | Down | X | Z | LCtrl | Space | Other

  class Tetrimino {
    var shape: Shape
    const color: int
    /** The playfield matrix, the same storage the Grid holds. */
    const cells: array2<int>
    /** Grid column and row of the shape's bottom-left cell. */
    var x: int
    var y: int

    var downPressed: bool
    var hardDrop: bool
    var hardDropStart: int
    var hardDropLock: int
    var softDropStart: int
    var softDropLock: int
    /** Whether the lock-down timer has been started. */
    var lockTimer: bool

    var lockedOut: bool
    var blockedOut: bool

    /** A rectangular shape whose cells are empty or of the piece's colour,
        a colour code of 2 or more (0 is empty, 1 is wall and floor). */
    ghost predicate Valid()
      reads this
    {
      IsMatrix(shape) && color >= 2 && PieceCells(shape, color)
    }

    /** A piece of the given shape and colour at (x0, y0) on the grid's
        matrix, sharing the grid's storage; it is blocked out when it collides
        where it appears. The game spawns pieces at (4, 19), the I piece at
        (4, 18); the shape, colour and position are inputs here. */
    constructor (shape0: Shape, color0: int, grid: Grid, x0: int, y0: int)
      requires IsMatrix(shape0) && color0 >= 2 && PieceCells(shape0, color0)
      requires Fits(grid.cells, shape0, x0, y0)
      ensures Valid()
      ensures shape == shape0 && color == color0 && cells == grid.cells && x == x0 && y == y0
      ensures !downPressed && !hardDrop && !lockTimer && !lockedOut
      ensures hardDropStart == 0 && hardDropLock == 0 && softDropStart == 0 && softDropLock == 0
      ensures blockedOut <==> Overlaps(cells, Reverse(shape), x, y)
    {
      shape := shape0;
      color := color0;
      cells := grid.cells;
      downPressed, hardDrop := false, false;
      hardDropStart, hardDropLock, softDropStart, softDropLock := 0, 0, 0, 0;
      lockTimer := false;
      x, y := x0, y0;
      lockedOut := false;
      new;
      blockedOut := IsBlockedOut();
    }

    /** The collision test at a proposed position (nx, ny). */
    function IsCollisionOnMove(nx: int, ny: int): (r: bool)
      reads this, cells
      requires Fits(cells, shape, nx, ny)
      ensures Valid() ==> (r <==> Overlaps(cells, Reverse(shape), nx, ny))
    {
      ReverseKeepsPieceCells(shape, color);
      CollidesIsOverlap(cells, Reverse(shape), color, nx, ny);
      RowsCollide(cells, Reverse(shape), color, nx, ny, 0)
    }

    /** The collision test of a proposed shape at the current position. */
    function IsCollisionOnRotate(newShape: Shape): (r: bool)
      reads this, cells
      requires Fits(cells, newShape, x, y)
      ensures PieceCells(newShape, color) && color != 0 ==> (r <==> Overlaps(cells, Reverse(newShape), x, y))
    {
      ReverseKeepsPieceCells(newShape, color);
      CollidesIsOverlap(cells, Reverse(newShape), color, x, y);
      RowsCollide(cells, Reverse(newShape), color, x, y, 0)
    }

    /** The piece collides where it stands. */
    function IsBlockedOut(): (r: bool)
      reads this, cells
      requires Fits(cells, shape, x, y)
      ensures Valid() ==> (r <==> Overlaps(cells, Reverse(shape), x, y))
    {
      IsCollisionOnMove(x, y)
    }

    method MoveLeft()
      requires Valid() && Fits(cells, shape, x - 1, y)
      modifies this`x, this`y
      ensures Valid() && y == old(y)
      ensures x == if old(IsCollisionOnMove(x - 1, y)) then old(x) else old(x) - 1
      ensures x != old(x) ==> !Overlaps(cells, Reverse(shape), x, y)
    {
      var newX, newY := x - 1, y;
      if !IsCollisionOnMove(newX, newY) {
        x, y := newX, newY;
      }
    }

    method MoveRight()
      requires Valid() && Fits(cells, shape, x + 1, y)
      modifies this`x, this`y
      ensures Valid() && y == old(y)
      ensures x == if old(IsCollisionOnMove(x + 1, y)) then old(x) else old(x) + 1
      ensures x != old(x) ==> !Overlaps(cells, Reverse(shape), x, y)
    {
      var newX, newY := x + 1, y;
      if !IsCollisionOnMove(newX, newY) {
        x, y := newX, newY;
      }
    }

    /** One row down if the row below is free; otherwise start the lock-down
        timer, unless it already runs, and record how far the soft and hard
        drops fell. */
    method MoveDown()
      requires Valid() && Fits(cells, shape, x, y - 1)
      modifies this`x, this`y, this`lockTimer, this`softDropLock, this`hardDropLock
      ensures Valid() && x == old(x)
      ensures !old(IsCollisionOnMove(x, y - 1)) ==>
        y == old(y) - 1 && lockTimer == old(lockTimer) &&
        softDropLock == old(softDropLock) && hardDropLock == old(hardDropLock)
      ensures y != old(y) ==> y == old(y) - 1 && !Overlaps(cells, Reverse(shape), x, y)
      ensures old(IsCollisionOnMove(x, y - 1)) && !old(lockTimer) ==>
        y == old(y) && lockTimer &&
        softDropLock == softDropStart - y && hardDropLock == hardDropStart - y
      ensures old(IsCollisionOnMove(x, y - 1)) && old(lockTimer) ==>
        y == old(y) && lockTimer &&
        softDropLock == old(softDropLock) && hardDropLock == old(hardDropLock)
    {
      var newX, newY := x, y - 1;
      if !IsCollisionOnMove(newX, newY) {
        x, y := newX, newY;
      } else if !lockTimer {
        lockTimer := true;
        softDropLock := softDropStart - y;
        hardDropLock := hardDropStart - y;
      }
    }

    /** Take the clockwise turn of the shape unless it collides in place. */
    method RotateClockwise()
      requires Valid() && Fits(cells, Clockwise(shape), x, y)
      modifies this`shape
      ensures Valid()
      ensures shape == if old(IsCollisionOnRotate(Clockwise(shape))) then old(shape) else Clockwise(old(shape))
      ensures shape != old(shape) ==> Fits(cells, shape, x, y) && !Overlaps(cells, Reverse(shape), x, y)
    {
      var attempt := Clockwise(shape);
      if !IsCollisionOnRotate(attempt) {
        ClockwiseDims(shape);
        TurnsKeepPieceCells(shape, color);
        shape := attempt;
      }
    }

    /** Take the counter-clockwise turn of the shape unless it collides in
        place. */
    method RotateCounterClockwise()
      requires Valid() && Fits(cells, CounterClockwise(shape), x, y)
      modifies this`shape
      ensures Valid()
      ensures shape == if old(IsCollisionOnRotate(CounterClockwise(shape))) then old(shape) else CounterClockwise(old(shape))
      ensures shape != old(shape) ==> Fits(cells, shape, x, y) && !Overlaps(cells, Reverse(shape), x, y)
    {
      var attempt := CounterClockwise(shape);
      if !IsCollisionOnRotate(attempt) {
        CounterClockwiseDims(shape);
        TurnsKeepPieceCells(shape, color);
        shape := attempt;
      }
    }

    /** Down starts a soft drop from the current row; Up and X turn
        clockwise, LCtrl and Z counter-clockwise; other keys do nothing. */
    method OnKeyPress(key: Key)
      requires Valid()
      requires key == Up || key == X ==> Fits(cells, Clockwise(shape), x, y)
      requires key == LCtrl || key == Z ==> Fits(cells, CounterClockwise(shape), x, y)
      modifies this`downPressed, this`softDropStart, this`shape
      ensures Valid()
      ensures key == Down ==> downPressed && softDropStart == y && shape == old(shape)
      ensures key == Up || key == X ==>
        downPressed == old(downPressed) && softDropStart == old(softDropStart) &&
        shape == if old(IsCollisionOnRotate(Clockwise(shape))) then old(shape) else Clockwise(old(shape))
      ensures key == LCtrl || key == Z ==>
        downPressed == old(downPressed) && softDropStart == old(softDropStart) &&
        shape == if old(IsCollisionOnRotate(CounterClockwise(shape))) then old(shape) else CounterClockwise(old(shape))
      ensures key !in {Down, Up, X, LCtrl, Z} ==> unchanged(this)
    {
      if key == Down {
        downPressed := true;
        softDropStart := y;
      } else if key == Up {
        RotateClockwise();
      } else if key == X {
        RotateClockwise();
      } else if key == LCtrl {
        RotateCounterClockwise();
      } else if key == Z {
        RotateCounterClockwise();
      }
    }

    /** Left and Right move one column unless a hard drop is under way; Down
        ends the soft drop; Space starts a hard drop from the current row;
        other keys do nothing. */
    method OnKeyRelease(key: Key)
      requires Valid()
      requires key == Left && !hardDrop ==> Fits(cells, shape, x - 1, y)
      requires key == Right && !hardDrop ==> Fits(cells, shape, x + 1, y)
      modifies this`x, this`y, this`downPressed, this`softDropStart, this`hardDrop, this`hardDropStart
      ensures Valid()
      ensures key == Left ==>
        y == old(y) && x == (if old(hardDrop) || old(IsCollisionOnMove(x - 1, y)) then old(x) else old(x) - 1) &&
        downPressed == old(downPressed) && softDropStart == old(softDropStart) &&
        hardDrop == old(hardDrop) && hardDropStart == old(hardDropStart)
      ensures key == Right ==>
        y == old(y) && x == (if old(hardDrop) || old(IsCollisionOnMove(x + 1, y)) then old(x) else old(x) + 1) &&
        downPressed == old(downPressed) && softDropStart == old(softDropStart) &&
        hardDrop == old(hardDrop) && hardDropStart == old(hardDropStart)
      ensures key == Down ==>
        x == old(x) && y == old(y) && !downPressed && softDropStart == 0 &&
        hardDrop == old(hardDrop) && hardDropStart == old(hardDropStart)
      ensures key == Space ==>
        x == old(x) && y == old(y) && hardDrop && hardDropStart == y &&
        downPressed == old(downPressed) && softDropStart == old(softDropStart)
      ensures key !in {Left, Right, Down, Space} ==> unchanged(this)
    {
      if key == Left {
        if !hardDrop {
          MoveLeft();
        }
      } else if key == Right {
        if !hardDrop {
          MoveRight();
        }
      } else if key == Down {
        downPressed := false;
        softDropStart := 0;
      } else if key == Space {
        hardDrop := true;
        hardDropStart := y;
      }
    }

    /** Write every filled cell of the piece that lands off the walls and the
        floor into the matrix, and record whether any of them lies at or above
        the skyline row. */
    method LockDown()
      requires Valid() && LockFits(cells.Length0, cells.Length1, Reverse(shape), x, y)
      modifies this`lockedOut, cells
      ensures Valid()
      ensures forall a, b :: 0 <= a < cells.Length0 && 0 <= b < cells.Length1 ==>
        cells[a, b] == Final(LockWrites(shape, x, y), cells.Length0, cells.Length1, a, b, old(cells[a, b]))
      ensures lockedOut <==> (exists i, j :: 0 <= i < |shape| && 0 <= j < |Reverse(shape)[i]| &&
                                Lockable(y + i, x + j, Reverse(shape)[i][j]) && y + i >= Skyline)
    {
      LockRows(Reverse(shape), x, y);
      LockedOutMeaning(shape, x, y);
    }

    /** Lock-down's outer loop over the bottom-up rows, with the piece at
        (px, py): applies every write in order and raises lockedOut when one
        lands at or above the skyline. */
    method LockRows(rows: Shape, px: int, py: int)
      requires LockFits(cells.Length0, cells.Length1, rows, px, py)
      modifies this`lockedOut, cells
      ensures forall a, b :: 0 <= a < cells.Length0 && 0 <= b < cells.Length1 ==>
        cells[a, b] == Final(RowsWrites(rows, px, py, |rows|), cells.Length0, cells.Length1, a, b, old(cells[a, b]))
      ensures lockedOut == Overflows(RowsWrites(rows, px, py, |rows|))
    {
      ghost var orig := Snapshot(cells);
      lockedOut := false;
      var h, wd := cells.Length0, cells.Length1;
      var i := 0;
      while i < |rows|
        invariant 0 <= i <= |rows|
        invariant forall a, b :: 0 <= a < h && 0 <= b < wd ==>
          cells[a, b] == Final(RowsWrites(rows, px, py, i), h, wd, a, b, orig[a][b])
        invariant lockedOut == Overflows(RowsWrites(rows, px, py, i))
      {
        LockRow(rows[i], px, py + i, RowsWrites(rows, px, py, i), orig);
        i := i + 1;
      }
    }

    /** Lock-down's inner loop: the cells of one bottom-up row of the shape,
        lying on grid row gy, written after the writes done that started
        from the matrix orig. */
    method LockRow(row: seq<int>, px: int, gy: int, ghost done: seq<Write>, ghost orig: seq<seq<int>>)
      requires forall j :: 0 <= j < |row| && Lockable(gy, px + j, row[j]) ==>
        InRange(gy, cells.Length0) && InRange(px + j, cells.Length1)
      requires |orig| == cells.Length0 && forall a :: 0 <= a < |orig| ==> |orig[a]| == cells.Length1
      requires forall a, b :: 0 <= a < cells.Length0 && 0 <= b < cells.Length1 ==>
        cells[a, b] == Final(done, cells.Length0, cells.Length1, a, b, orig[a][b])
      requires lockedOut == Overflows(done)
      modifies this`lockedOut, cells
      ensures forall a, b :: 0 <= a < cells.Length0 && 0 <= b < cells.Length1 ==>
        cells[a, b] == Final(done + RowWrites(row, px, gy, |row|), cells.Length0, cells.Length1, a, b, orig[a][b])
      ensures lockedOut == Overflows(done + RowWrites(row, px, gy, |row|))
    {
      var h, wd := cells.Length0, cells.Length1;
      var j := 0;
      assert done + RowWrites(row, px, gy, 0) == done;
      while j < |row|
        invariant 0 <= j <= |row|
        invariant forall a, b :: 0 <= a < h && 0 <= b < wd ==>
          cells[a, b] == Final(done + RowWrites(row, px, gy, j), h, wd, a, b, orig[a][b])
        invariant lockedOut == Overflows(done + RowWrites(row, px, gy, j))
      {
        var gx := px + j;
        ghost var sofar := done + RowWrites(row, px, gy, j);
        if gx != LeftWall && gx != RightWall && gy != Floor && row[j] != 0 {
          var w := Write(gy, gx, row[j]);
          assert done + RowWrites(row, px, gy, j + 1) == sofar + [w];
          OverflowsAppend(sofar, [w]);
          assert [w][0] == w;
          assert Overflows([w]) <==> gy >= Skyline;
          cells[Wrap(gy, h), Wrap(gx, wd)] := row[j];
          forall a, b | 0 <= a < h && 0 <= b < wd
            ensures cells[a, b] == Final(sofar + [w], h, wd, a, b, orig[a][b])
          {
            FinalStep(sofar, w, h, wd, a, b, orig[a][b]);
          }
          if gy >= Skyline {
            lockedOut := true;
          }
        } else {
          assert done + RowWrites(row, px, gy, j + 1) == sofar;
        }
        j := j + 1;
      }
    }
  }
}
