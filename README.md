# Tetrominoes rule engine

A model of the rule engine of `tetro.py`, a falling-block puzzle written with
pygame: the cell geometry of pieces (`Blocks`), the wall, the pile of locked
pieces, the falling piece (`Mino`) with its moves, rotation and line deletion,
and the `Game` operations that detect collisions, slide the pile sideways,
clear full rows, start over, and run the gravity and lock steps of the game
loop.

The modules follow the program's structure:

- `Config` (config.dfy): the playfield size (10 columns, 20 rows), the
  gravity interval (1000 ms) and the table of seven shapes.
- `Blocks` (blocks.dfy): cells as `(x, y)` pairs, `width`, `height`, `load`
  and the `shape` grid, with the round trips between cells and text grids.
- `Wall` (wall.dfy): the U-shaped wall built by `Wall.__init__`.
- `Rotation` (rotation.dfy): `_calc_rotate` and its properties.
- `Occupancy` (occupancy.dfy): a piece as a value `Piece(x, y, points)`, its
  board cells (columns wrapped around the playfield, as the pile computes
  them), the collision test, the playfield invariant and the sideways slide.
- `LineClear` (line_clear.dfy): `delete_line` on values, the removal of
  emptied pieces, the full-row scan, and the proof that the passes of
  `clear_line` compact the pile and leave no full row.
- `Tetro` (tetro.dfy): the classes `Mino`, `Pile` and `Game`, whose methods
  update their fields in place. The pile keeps a ghost record `pieces` of the
  values of its piece objects, and every contract is stated on values, where
  the lemmas of the other modules apply. `Game.Valid` is the state the game
  keeps: the wall as built, resting pile pieces, and a well-formed current
  piece, not in the pile, inside the playfield. Every operation preserves it.

The model keeps these behaviours of the code:

- A piece in the LANDING state never goes back to FALLING. Only a successful
  downward step can set LANDING, and nothing resets it.
- The soft-drop key calls `move_down()` with its default `land=True`, so a
  blocked soft drop locks the piece.
- `gameover` re-runs `__init__`, which does not assign `direction`, so the
  sliding direction survives a restart.
- The lock step spawns the next piece before it clears the rows, and it tests
  that piece for game over only after the rows are cleared.

## Model

| member | source | states |
|---|---|---|
| `Blocks.Width` | tetro.py:74-79 | 0 for no cells; otherwise every cell's column is below it and some cell lies in the last column, i.e. the largest column plus one |
| `Blocks.Height` | tetro.py:81-86 | 0 for no cells; otherwise every cell's row is below it and some cell lies in the last row |
| `Blocks.TightDimensions` | tetro.py:74-97 | a rectangular grid of '#' and ' ' with a '#' in its last line and in its last column loads to non-negative cells whose width is the line length and whose height is the number of lines |
| `Blocks.InGridPoints` | tetro.py:91-97 | a cell is loaded exactly when its line exists, its column lies within that line, and the character there is '#' |
| `Blocks.Load` | tetro.py:91-97 | the scan over lines and characters collects exactly the '#' cells of the grid |
| `Blocks.Shape` | tetro.py:99-104 | the grid has `height` lines of `width` characters, with '#' exactly at the cells |
| `Blocks.LoadShape` | tetro.py:91-104 | loading the grid of a set of non-negative cells gives the same set back |
| `Blocks.ShapeLoad` | tetro.py:91-104 | for such a grid (rectangular, with a '#' in its last line and last column), the grid of the loaded cells is that grid again |
| `Blocks.TightWellFormed` | tetro.py:91-97 | a grid using every line and every column loads to a well-formed shape with the grid's width and height |
| `Blocks.LoadWithoutRow` | tetro.py:210-218 | popping line r of the grid and loading the rest removes row r and moves the rows below it up by one |
| `Blocks.RemoveRowBeyond` | tetro.py:210-218 | when no line is popped (the row is at or past the height), the reloaded cells are unchanged |
| `Wall.InCells` | tetro.py:113-121 | a cell is in the wall exactly when it lies in column 0 or CellCols+1 above the floor, or on floor row CellRows within columns 0..CellCols+1 |
| `Wall.Build` | tetro.py:113-121 | the two loops build exactly those cells, 2*CellRows + CellCols + 2 of them |
| `Rotation.Rotated` | tetro.py:188-198 | `_calc_rotate`: every cell turned within the shape's own width and height; its meaning is stated by `InRotated`, `RotatedSize`, `RotatedDimensions` and `RotateInverse` |
| `Rotation.InRotated` | tetro.py:188-198 | a cell is in the turned shape exactly when the cell it came from (clockwise or counter-clockwise) is in the shape |
| `Rotation.RotatedSize` | tetro.py:188-198 | a turn keeps the number of cells |
| `Rotation.RotatedDimensions` | tetro.py:188-198 | a shape in the corner of its box stays there, and its width and height trade places |
| `Rotation.RotateInverse` | tetro.py:200-208 | a clockwise turn followed by a counter-clockwise one, or the opposite order, gives the shape back |
| `Rotation.HalfTurn` | tetro.py:188-198 | two clockwise turns and two counter-clockwise turns give the same shape |
| `Rotation.FourTurns` | tetro.py:200-208 | four quarter turns in the same direction give the shape back, as `rotate_right` or `rotate_left` pressed four times on a clear playfield does |
| `Rotation.RotatedWellFormed` | tetro.py:188-198 | a well-formed shape stays well-formed after a turn |
| `Occupancy.WrappedColumns` | tetro.py:132-137 | every board cell a piece gives the pile lies in a playable column 0..CellCols-1 |
| `Occupancy.PileCells` | tetro.py:132-137 | the union of the board cells of the pieces, columns wrapped; characterised by `PileCellsIff` and `PileCellsAppend` |
| `Occupancy.PileCellsIff` | tetro.py:132-137 | a cell is in the pile exactly when it is a board cell of one of its pieces |
| `Occupancy.PileCellsAppend` | tetro.py:132-143 | appending a piece adds exactly its board cells to the pile |
| `Occupancy.CollideWith` | tetro.py:297-300 | some cell, shifted by (px, py), is a cell of the other block; equal to the intersection test by `CollideWithIff` |
| `Occupancy.Collides` | tetro.py:302-306 | `collide` at a given anchor: the wall one column to the right, or the pile; characterised by `CollidesIff` and `InFieldClearOfWall` |
| `Occupancy.CollideWithIff` | tetro.py:297-300 | `_collide_with` holds exactly when the translated cells meet the other cells |
| `Occupancy.CollidesIff` | tetro.py:302-306 | with the built wall, `collide` holds exactly when some cell meets the wall one column to the right or meets the pile |
| `Occupancy.InFieldClearOfWall` | tetro.py:302-306 | a piece inside the playfield never meets the wall |
| `Occupancy.StepStaysInField` | tetro.py:158-163 | a one-cell step that does not collide keeps a sound piece well-formed and inside the playfield |
| `Occupancy.TurnStaysInField` | tetro.py:200-205 | a turn keeps the cells well-formed, and a turn that does not collide keeps the piece inside the playfield |
| `Occupancy.Slid` | tetro.py:308-310 | the new column is in 0..CellCols-1 and congruent to column + direction; row and cells are unchanged |
| `Occupancy.SlidCells` | tetro.py:308-310 | a slid piece's board cells are its old ones moved `direction` columns, wrapping around |
| `Occupancy.SlideCells` | tetro.py:308-310 | sliding every piece moves the whole pile `direction` columns, wrapping around |
| `LineClear.DeletedLine` | tetro.py:210-218 | the column is kept, and non-negative cells and row stay non-negative |
| `LineClear.DeletedLineAbsolute` | tetro.py:210-218 | the piece's cells on row cy disappear, its cells above cy move down one row, and those below stay |
| `LineClear.DeletedLineCells` | tetro.py:210-218 | the same on the wrapped board cells the pile shows |
| `LineClear.DeletedLineBelow` | tetro.py:210-218 | a piece lying wholly below row cy is unchanged |
| `LineClear.DeleteLineAllCells` | tetro.py:319-321 | deleting line cy from every piece removes row cy from the pile and moves the rows above it down by one |
| `LineClear.Prune` | tetro.py:322-324 | the pieces that still have cells, in their order, never more than before; characterised by `PruneMembers` and `PruneCells` |
| `LineClear.PruneMembers` | tetro.py:322-324 | the pieces kept are exactly those with cells |
| `LineClear.PruneCells` | tetro.py:322-324 | dropping the emptied pieces leaves the pile's cells unchanged |
| `LineClear.ClearStepResting` | tetro.py:319-324 | one pass keeps every piece resting |
| `LineClear.ClearStepCells` | tetro.py:319-324 | one pass for row t removes row t from the pile and moves the rows above it down by one |
| `LineClear.ClearPiecesCells` | tetro.py:318-325 | the passes over all target rows keep the pieces resting and act on the pile's cells row by row |
| `LineClear.ClearAllCompact` | tetro.py:318-325 | passes over increasing targets equal one compaction: cells on target rows go, and every other cell moves down by the number of targets below it |
| `LineClear.CompactNoFullRow` | tetro.py:312-325 | when the targets include every full row, no full row is left after the compaction |
| `LineClear.CompactCount` | tetro.py:318-325 | the compaction moves the surviving cells one-to-one: the cells after it and the cells on the target rows add up to the cells before it |
| `LineClear.RowCount` | tetro.py:314 | a full line of `#` across `cell_cols` columns covers exactly `CellCols` cells |
| `LineClear.OnTargetsCount` | tetro.py:312-315 | full target rows inside the playable columns hold exactly `CellCols` cells each |
| `LineClear.CompactSize` | tetro.py:312-325 | clearing full target rows removes exactly `CellCols` cells per target row |
| `LineClear.FullLineIffRowFull` | tetro.py:313-316 | a grid line equal to CellCols '#' characters is exactly a row with all playable columns occupied |
| `LineClear.FullRows` | tetro.py:313-316 | the scan returns the rows whose line is full, in increasing order, and no other rows |
| `Tetro.RestingCells` | tetro.py:132-137 | a pile of resting pieces occupies non-negative rows of playable columns |
| `Tetro.Flipped` | tetro.py:325 | one sign change per pass: the direction itself after an even number of passes and its negation after an odd number |
| `Tetro.SpawnPiece` | tetro.py:289-295 | the piece `create_mino` makes from shape k: the loaded cells, centred in row 0; `ShapeTable` proves it lies inside the playfield |
| `Tetro.ShapeTable` | tetro.py:15-64 | every entry of the shape table loads to a well-formed shape as wide as its first line, centred inside the playfield |
| `Tetro.Mino.constructor` | tetro.py:150-156 | a falling piece at the given position, with the given colour and the cells loaded from the grid |
| `Tetro.Mino.Empty` | tetro.py:88-89 | for non-negative cells, a piece is empty exactly when its width and height are 0 |
| `Tetro.Mino.Move` | tetro.py:158-163 | the piece moves exactly when the shifted piece does not collide with the wall or the pile, and the game stays sound |
| `Tetro.Mino.MoveLeft` | tetro.py:165-166 | one column left exactly when not blocked, staying inside the playfield |
| `Tetro.Mino.MoveRight` | tetro.py:168-169 | one column right exactly when not blocked, staying inside the playfield |
| `Tetro.Mino.MoveDown` | tetro.py:171-181 | one row down exactly when not blocked; success resets the timer and sets LANDING when the next row is blocked; a blocked step locks the piece when `land` is set and otherwise changes nothing |
| `Tetro.Mino.Drop` | tetro.py:183-186 | the piece ends straight below where it was, resting on the pile or the floor, after passing only free rows (`FreeBelow`), so it stops at the first blocked row; locked when `land` is set and otherwise LANDING if it moved; the timer is 0 after any descent and unchanged otherwise |
| `Tetro.Game.FreeBelowNext` | tetro.py:183-185 | a piece that has fallen freely for n rows and whose next row is not blocked has fallen freely for n + 1 rows: each step of `drop` keeps the fall free |
| `Tetro.Mino.DryRun` | tetro.py:200-204 | the copy at the same anchor with the turned cells collides exactly when those turned cells would |
| `Tetro.Mino.RotateRight` | tetro.py:200-205 | the piece takes the turned cells exactly when the turned piece does not collide, and the game stays sound |
| `Tetro.Mino.RotateLeft` | tetro.py:207-208 | the same with the counter-clockwise turn |
| `Tetro.Mino.DeleteLine` | tetro.py:210-218 | the scan, pop, step down and reload give the piece described by `DeletedLine` |
| `Tetro.Pile.constructor` | tetro.py:127-130 | an empty pile |
| `Tetro.Pile.Points` | tetro.py:132-137 | `points` of the pile objects; equal to the cells of the recorded pieces by `PointsAre`, and characterised by `InPoints` |
| `Tetro.Pile.PointsAre` | tetro.py:132-137 | the pile's `points` are the board cells of its recorded pieces |
| `Tetro.Pile.InPoints` | tetro.py:132-137 | a cell is in `points` exactly when some piece object of the list has it as a board cell, and it lies in a playable column |
| `Tetro.Pile.Add` | tetro.py:139-143 | the piece is appended to the list, and a resting piece not already there keeps the pile sound |
| `Tetro.Pile.DeleteLine` | tetro.py:319-321 | every piece object of the list gets `delete_line(cy)`; only their rows and cells change, and the list is unchanged |
| `Tetro.Pile.PruneEmpty` | tetro.py:322-324 | the emptied pieces are removed in place, the others keep their order, and no new object appears |
| `Tetro.Pile.ClearRow` | tetro.py:318-325 | one pass for row t keeps the pile sound and drops only pieces of the old list |
| `Tetro.Pile.ClearRows` | tetro.py:318-325 | the passes over the targets, in order, keep the pile sound and leave the pieces `ClearPieces` describes |
| `Tetro.Spawn` | tetro.py:289-295 | a fresh falling piece of the drawn shape, centred in the top row |
| `Tetro.ClearedPile` | tetro.py:312-325 | when the targets are all the full rows, in increasing order, the cleared pile rests, its cells are the compaction, no full row is left, and it has `CellCols` cells fewer per target |
| `Tetro.SlidPile` | tetro.py:308-310 | sliding keeps the pile resting and moves its cells `direction` columns, wrapping around |
| `Tetro.Game.constructor` | tetro.py:278-287 | the built wall, an empty pile, a fresh piece of the drawn shape, timer 0, interval 1000, direction 1; the game is sound |
| `Tetro.Game.CreateMino` | tetro.py:289-295 | a fresh falling piece of the drawn shape becomes the current one, inside the playfield |
| `Tetro.Game.Collide` | tetro.py:302-306 | `collide` on the current objects; equal to `Occupancy.Collides` on the recorded pieces by `CollideIs` |
| `Tetro.Game.CollideIs` | tetro.py:302-306 | `collide` on the pile objects answers the same as the collision test on the recorded pieces |
| `Tetro.Game.Slide` | tetro.py:308-310 | every pile piece moves `direction` columns, wrapping around; only their columns change, and the game stays sound |
| `Tetro.Game.FullPileRows` | tetro.py:313-316 | the targets are exactly the full rows of the pile, in increasing order |
| `Tetro.Game.ClearLine` | tetro.py:312-325 | the targets are exactly the full rows; the pile becomes `ClearPieces` of the old one; the direction flips once per target; the game stays sound |
| `Tetro.Game.GameOver` | tetro.py:331-332 | a new wall, an empty pile and a fresh piece of the drawn shape, timer and interval reset, direction kept |
| `Tetro.Game.Gravity` | tetro.py:361-366 | nothing happens until the timer passes the interval; then it loses one interval and an unlocked piece steps down (resetting the timer) or locks, and the pile slides only while the piece is still falling |
| `Tetro.Game.Settle` | tetro.py:367-370 | the locked piece joins the pile, a fresh piece of shape k becomes current, and the full rows of the enlarged pile are cleared |
| `Tetro.Game.Lock` | tetro.py:367-372 | only a locked piece settles; the game restarts exactly when the new piece collides with the cleared pile, which resets timer and interval; a lock without restart keeps timer and interval; an unlocked piece changes nothing: the same piece keeps its row and cells, and pile, timer and interval stay as they were |

## Left out

- Rendering, the clear-row animation, the `display` timing, `dump`, the
  command-line options and the network import: they are I/O.
- The key-event dispatch of the game loop (tetro.py:338-359) is left out. The
  moves it calls are modelled, and a caller can apply them in any order.
- The random shape choice of `create_mino` is not modelled. The drawn shape
  index is a parameter (`k`, and `k2` for the restart).
- The elapsed time that `display` adds to `msec` is not modelled. `Gravity`
  reads `msec` as the caller set it.
- `Tetro.Pile.Add`: the halving of the piece's colour saturation is left out.
  It only affects drawing.
- `Tetro.Mino.Drop`: the `display` calls between steps are left out.
- The `game` back-reference of `Mino` is modelled by passing the `Game` as a
  parameter to the methods that use it.
- `Tetro.Mino.Move`: requires a one-cell step. The source calls `_move` only
  from `move_left`, `move_right` and `move_down`.
- `Blocks.Shape`: requires non-negative cells. The source's `% width` only
  matters for negative columns, which no loaded or turned shape has.
- The `Mino` and `Game` methods require `Game.Valid`, which the constructor
  establishes and every operation keeps. No contract is stated for a game
  outside that invariant.
- `Tetro.Game.ClearLine`: the passes run in `Pile.ClearRows`, and the
  direction is flipped once per target after them (`Flipped`). Nothing in a
  pass reads the direction, so the final state is the same as flipping
  inside the loop.
- `Tetro.Game.Lock`: the tick and lock blocks of one loop iteration are
  separate methods (`Gravity`, then `Lock`). The outer loop itself is not
  modelled.
- Python's unbounded integers match Dafny's `int`. Python's `%` and `//`
  round toward minus infinity and Dafny's are Euclidean. The two agree for
  every operand when the divisor is positive, and every divisor here is the
  positive `CellCols` or 2. That includes the negative column
  `c.0 + direction` that `ShiftColumns` can form when the pile slides left.
