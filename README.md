# Falling piece and playfield of a Tetris clone, in Dafny

This project models the piece-versus-playfield logic of a small Python
Tetris clone.

**The playfield** (`Grid`) is a 21 x 12 integer matrix. Row 0 is at the
bottom. Column 0, column 11 and row 0 hold 1 (the walls and the floor), and
every other cell holds 0. Locked pieces leave their colour codes behind.

**The falling piece** (`Tetrimino`) has these parts:

- A shape: a small integer matrix, listed top-down, whose filled cells carry
  the piece's colour code (2 or more).
- A position `(x, y)`: the grid column and row of the shape's bottom-left
  cell.
- The drop flags: `down_pressed`, `hard_drop` and the soft/hard drop
  counters.
- Two failure flags: `locked_out` and `blocked_out`.

**What the piece does:**

- It turns clockwise (`zip(*reversed(shape))`) and counter-clockwise
  (`reversed(zip(*shape))`).
- It tests a proposed position or shape for collision. The test scans the
  shape bottom-up: shape row `i` from the bottom sits on grid row `y + i`.
- It moves and turns only when the target does not collide.
- Key presses and releases drive the drop flags.
- Lock-down writes the piece's cells into the playfield in place.

Files:

- `rotation.dfy` (module `Rotation`) models the two turns on values. They are
  exactly Python's `zip` and `reversed`, including `zip`'s truncation to the
  shortest row.
- `playfield.dfy` (module `Playfield`) holds the playfield as a class over a
  shared `array2<int>`, the index constants, and Python's list indexing.
- `collision.dfy` (module `Collision`) writes the nested scan with its early
  return as two recursive functions.
- `locking.dfy` (module `Locking`) specifies lock-down as the ordered list of
  cell writes it performs, and proves what that list does to the matrix.
- `tetrimino.dfy` (module `Piece`) holds the piece as a class whose methods
  update its fields and write the shared matrix.

**Index bounds.**

- The piece works on any `h x wd` matrix. The `Grid` constructor builds the
  21 x 12 one.
- Python reads `grid[r][c]` with a negative index counting from the end, and
  raises `IndexError` outside `-n..n-1`. The model writes this as `Wrap` and
  `InRange`.
- Lock-down and the grid reads of the collision scan require in range every
  index they could touch. The scan stops at its first blocked cell, so
  this precondition also excludes some runs that do not raise: those where the
  scan meets a blocked cell before it reaches an out-of-range row (see
  "## Left out").
- On the 21-row playfield this has a consequence, proved as
  `Locking.SkylineOutOfReach`. Lock-down writes `grid[y][x]` before it tests
  `y >= 21`, and a row of 21 or more is outside the list. So `locked_out`
  cannot become true there: such a run raises first.
- Likewise, a piece spawned at `y = 19` with a shape three rows tall reaches
  row 21 in `is_blocked_out`, unless a lower row of the piece collides first,
  in which case Python reports the piece blocked out without raising. The
  constructor's precondition excludes that position either way.

## Model

| member | source | states |
|---|---|---|
| Rotation.Reverse | tetrimino.py:172 | `reversed(s)` has the length of `s`, and item `k` is item `len(s)-1-k` of `s` |
| Rotation.Zip | tetrimino.py:139 | the reference definition of `zip(*rows)`, which the two turns are proved against: it yields as many tuples as the shortest row is long; tuple `a` has one item per row, and item `b` is `rows[b][a]` |
| Rotation.MinWidth | tetrimino.py:139 | the tuple count of `zip` is 0 for no rows; otherwise it is at most every row's length and equals the length of some row |
| Rotation.ClockwiseIsZipReversed | tetrimino.py:139 | `zip(*reversed(s))` is the clockwise turn: `MinWidth(s)` rows of `len(s)` cells, with cell `[a][b]` equal to `s[len(s)-1-b][a]` |
| Rotation.CounterClockwiseIsReversedZip | tetrimino.py:148 | `reversed(zip(*s))` is the counter-clockwise turn, with cell `[a][b]` equal to `s[b][MinWidth(s)-1-a]` |
| Rotation.ClockwiseDims | tetrimino.py:139 | a clockwise turn of an r x c matrix is a c x r matrix |
| Rotation.CounterClockwiseDims | tetrimino.py:148 | a counter-clockwise turn of an r x c matrix is a c x r matrix |
| Rotation.CounterClockwiseUndoesClockwise | tetrimino.py:139-148 | turning a matrix clockwise and then counter-clockwise gives it back |
| Rotation.ClockwiseUndoesCounterClockwise | tetrimino.py:139-148 | turning a matrix counter-clockwise and then clockwise gives it back |
| Rotation.HalfTurn | tetrimino.py:139 | two clockwise turns of an r x c matrix give an r x c matrix with cell `[a][b]` equal to `s[r-1-a][c-1-b]` |
| Rotation.FourTurns | tetrimino.py:139 | four clockwise turns give the original matrix back |
| Rotation.TurnsKeepPieceCells | tetrimino.py:139-148 | if every cell is 0 or the piece's colour, the same holds after either turn |
| Rotation.ReverseKeepsCells | tetrimino.py:139 | reversing the rows keeps the multiset of cell values |
| Rotation.ZipKeepsCells | tetrimino.py:139-148 | `zip(*s)` of a matrix keeps the multiset of cell values |
| Rotation.TurnsKeepCells | tetrimino.py:139-148 | both turns of a matrix keep its multiset of cell values, and with it the number of filled cells |
| Playfield.Wrap | tetrimino.py:174 | a Python index in `-n..n-1` names the item at position `k mod n`, which lies in `0..n-1` |
| Playfield.WrapInjective | tetrimino.py:259 | two in-range indices less than `n` apart that name the same item are equal |
| Playfield.Grid.constructor | grid.py:8-18 | the playfield is 21 rows of 12 separate cells; cell `[i][j]` is 1 exactly when `j == 0`, `j == 11` or `i == 0`, and 0 otherwise |
| Playfield.Grid.Lines | grid.py:28-29 | the rows in the order the text form lists them: line `k` of the `n` lines is row `n-1-k`, so the top row comes first and floor row 0 last |
| Collision.RowCollides | tetrimino.py:173-177 | the inner scan of one shape row reports a collision exactly when some cell from `j` on is blocked against the grid cell it lands on, `[gy][nx+k]` |
| Collision.RowsCollide | tetrimino.py:172-178 | the whole scan reports a collision exactly when some cell of some bottom-up row `i'`, column `k`, is blocked against grid cell `[ny+i'][nx+k]` |
| Collision.BlockedIsOverlap | tetrimino.py:175-176 | for a shape cell that is 0 or the (non-zero) colour, the test `m+v != color and m+v != m` holds exactly when both the cell and the grid value are non-zero |
| Collision.CollidesIsOverlap | tetrimino.py:163-178 | for a piece whose cells are 0 or its non-zero colour, the scan reports a collision exactly when a filled cell lands on a filled grid cell |
| Collision.ReverseKeepsPieceCells | tetrimino.py:172 | the bottom-up rows of a piece still hold only 0 or its colour |
| Locking.LockWriteMember | tetrimino.py:253-259 | a write is among lock-down's writes exactly when it puts the value of a bottom-up cell `(i, j)` on `(y+i, x+j)`, the value is non-zero, the column is not 0 or 11 and the row is not 0 |
| Locking.LockedOutMeaning | tetrimino.py:252-261 | some lock-down write lands at or above row 21 exactly when some written cell has `y+i >= 21` |
| Locking.LockDownKeeps | tetrimino.py:253-259 | a grid cell that no written shape cell lands on keeps its value |
| Locking.LockDownWrites | tetrimino.py:253-259 | for a shape no taller and no wider than the grid, every written shape cell's value ends up in its grid cell |
| Locking.SkylineOutOfReach | tetrimino.py:258-261 | on a 21-row grid, every lock-down that stays within Python's index range writes no row at or above 21 |
| Locking.OverflowsAppend | tetrimino.py:260-261 | some write of `ws + more` reaches the skyline exactly when some write of `ws` or of `more` does |
| Piece.Tetrimino.constructor | tetrimino.py:11-50 | the new piece shares the grid's matrix, starts with every drop flag and counter cleared and the timer stopped, is not locked out, and is blocked out exactly when a filled cell overlaps a filled grid cell at its start position |
| Piece.Tetrimino.IsCollisionOnMove | tetrimino.py:163-178 | for a valid piece, the test at `(nx, ny)` holds exactly when a filled bottom-up cell `(i, j)` lands on a filled grid cell `[ny+i][nx+j]` |
| Piece.Tetrimino.IsCollisionOnRotate | tetrimino.py:180-195 | the same test for a proposed shape at the current position, which holds exactly when the new shape overlaps a filled grid cell |
| Piece.Tetrimino.IsBlockedOut | tetrimino.py:155-161 | for a valid piece, it holds exactly when the piece overlaps a filled grid cell where it stands |
| Piece.Tetrimino.MoveLeft | tetrimino.py:111-116 | x drops by exactly 1 when the position to the left is free and is unchanged otherwise; y is unchanged; after a move the piece overlaps nothing |
| Piece.Tetrimino.MoveRight | tetrimino.py:118-123 | x grows by exactly 1 when the position to the right is free and is unchanged otherwise; y is unchanged; after a move the piece overlaps nothing |
| Piece.Tetrimino.MoveDown | tetrimino.py:125-135 | a free row below: y drops by exactly 1 and nothing else changes. Otherwise, with no timer running: the timer starts, `soft_drop_lock = soft_drop_start - y` and `hard_drop_lock = hard_drop_start - y`. Otherwise nothing changes. x never changes |
| Piece.Tetrimino.RotateClockwise | tetrimino.py:137-144 | the shape becomes its clockwise turn exactly when that turn does not collide in place, and is unchanged otherwise; the piece stays valid and a new shape overlaps nothing |
| Piece.Tetrimino.RotateCounterClockwise | tetrimino.py:146-153 | the shape becomes its counter-clockwise turn exactly when that turn does not collide in place, and is unchanged otherwise; the piece stays valid and a new shape overlaps nothing |
| Piece.Tetrimino.OnKeyPress | tetrimino.py:52-76 | Down sets `down_pressed` and `soft_drop_start = y` without moving or turning the piece. Up and X attempt a clockwise turn, LCtrl and Z a counter-clockwise one, leaving the drop flags alone. Any other key changes nothing |
| Piece.Tetrimino.OnKeyRelease | tetrimino.py:78-97 | Left/Right move one column (as the guarded moves) only while no hard drop is under way. Down clears `down_pressed` and `soft_drop_start`. Space sets `hard_drop` and `hard_drop_start = y`. Down and Space never move the piece. Any other key changes nothing |
| Piece.Tetrimino.LockDown | tetrimino.py:246-262 | every grid cell ends as the last lock-down write landing on it leaves it (its old value if none does); `locked_out` holds exactly when some written cell has row `y+i >= 21`; the piece is unchanged |
| Piece.Tetrimino.LockRows | tetrimino.py:252-261 | the outer loop applies the writes of all bottom-up rows in order and sets `locked_out` exactly when one of them reaches the skyline |
| Piece.Tetrimino.LockRow | tetrimino.py:254-261 | the inner loop applies one row's writes after those already done and keeps `locked_out` equal to "some write so far reached the skyline" |

## Left out

- Sound loading and playback (`arcade.load_sound` and `play_sound`): library side effects with no bearing on the state.
- Drawing: `draw` of the piece and of the grid, the rectangle lists and the pixel arithmetic. This is display layout of the rendering library.
- `speed`: floating-point exponentiation of the fall interval.
- `on_update` and `time_delta_ms`: they compare wall-clock times. The lock-down timer is a boolean `lockTimer` that records whether the timer is running. `move_down` starts it; nothing in the model stops it, because only `on_update` does.
- `level` and `move_down_timer`: only `speed` and `on_update` use them.
- `grid.refresh()`, called at the end of `lock_down`: grid.py does not define it, so it is not part of this model.
- The `Shape` enum: shape.py is not part of this model. The shape matrix, the colour and the starting position are constructor inputs. The game spawns at (4, 19), or (4, 18) for the I piece.
- The `grid` back-reference of the piece: the piece holds only the shared matrix, the one thing its logic uses.
- The text form of the grid and of the piece (`__str__`): `Grid.Lines` gives the rows in the order the text lists them, not the joined string.
- Runs that raise `IndexError`: every operation requires the indices it reads or writes to be within Python's range for the matrix.
- Runs that stop early at a collision: Piece.Tetrimino.constructor, IsCollisionOnMove, IsCollisionOnRotate, IsBlockedOut, MoveLeft, MoveRight, MoveDown, RotateClockwise, RotateCounterClockwise, OnKeyPress and OnKeyRelease require `Collision.Fits`. That predicate puts every row the scan could reach in range. So the model does not cover a scan that finds a blocked cell before it would read an out-of-range row, which Python completes without raising. One example is a three-row piece spawned at y = 19 over a filled row 19: Python reports it blocked out.
- Piece.Tetrimino.IsCollisionOnMove: its meaning as an overlap is stated only for a valid piece, with cells 0 or its colour and a colour of 2 or more. For other shapes only the raw scan (`Collision.RowsCollide`) describes it.
- The game loop, next-piece queue, line clearing, scoring and levels: these are outside the piece and the grid.
