# Tetrix: a verified model of the falling-block game core

Tetrix is a small Tetris-like game written with pygame. This project models its
simulation core in Dafny and proves what the code promises about it:

- **pieces** (`piece.py`): twelve fixed 0/1 shape templates, a colour, an
  origin, clockwise rotation, unit moves and the list of absolute cells;
- **the game state** (`TetrixGame` in `main.py`): a 20 x 10 grid of settled
  cells, the active and the next piece, the score, the game-over flag and the
  held-key repeat state;
- **the operations on that state**: the collision test, locking a piece, line
  clearing, hard drop, the key commands, held-key repeat and the gravity/spawn
  step.

There are three modules.

- `Pieces` (`piece.dfy`) holds the template table, the palette and the pure
  rotation `Rotated`. It also holds the cell counts and the row-major position
  list `PositionsOf`. The class `Piece` has the fields of the Python object,
  and its methods are proved against those functions.
- `Board` (`board.dfy`) defines the grid and the pure specifications of the
  game operations:
  - `Blocked`/`Collides` for the collision test,
  - `Placed` for what locking writes,
  - `Cleared` and `FullRowCount` for line clearing,
  - `LandingRow` for where a hard drop comes to rest.
- `Tetrix` (`game.dfy`) is the class `Game`. Its fields are those of
  `TetrixGame`, and its methods update them in place. `Game.Valid` is the
  invariant that every command method keeps (constructor, `KeyDown`, `KeyUp`,
  `AdvanceTimers`, `RepeatMoves`, `FallStep`, and every step they call except
  the two helpers named below):
  - the grid is 20 x 10;
  - both pieces have valid shapes;
  - the next piece waits at the origin;
  - while the game runs, the active piece overlaps neither walls, floor nor
    settled cells.

  Two helpers do not state it. `CheckCollision` only needs a well-formed grid
  and changes nothing. `ClearLines` only keeps the grid well formed. Run while
  a piece is active, its row shift could move settled cells onto that piece.
  `LockPiece` calls it only after the active piece is gone (main.py:93-94),
  and `LockPiece` itself keeps `Valid`.

Grid cells are `Empty` or `Block(color)`. They stand for the Python grid's `0`
and colour tuples.

Choices made in the model:

- **Randomness.** Random choices are parameters. The drawn shape is an index
  into `ShapeNames` and the drawn colour an index into `Palette`.
- **Timers.** Movement timers are integers in milliseconds (150 ms delay,
  50 ms interval).
- **Frame steps.** The frame loop's steps are separate methods: `KeyDown`,
  `KeyUp`, `AdvanceTimers`, `RepeatMoves` and `FallStep`.
- **Repeat after game over.** The held-key repeat block in `main.py:247-261`
  is not guarded by `game_over`, whereas key events are (`main.py:199-211`).
  The model follows the code: `RepeatMoves` still moves the piece after the
  game is over. Every repeated move is guarded by the collision test.

## Model

| member | source | states |
|---|---|---|
| Pieces.TemplateKeys | main.py:174-175 | the template table is keyed by exactly the twelve names the game draws from |
| Pieces.TemplateIsShape | piece.py:6-66 | the named template is a non-empty rectangular 0/1 matrix with an occupied cell |
| Pieces.TemplatesAreShapes | piece.py:6-66 | every template is a non-empty rectangular 0/1 matrix with at least one occupied cell, and every drawn name has a template |
| Pieces.Rotated | piece.py:86-96 | an R x C matrix becomes a C x R matrix with rotated[j][R-1-i] = shape[i][j] |
| Pieces.RotatedTimes | piece.py:86-96 | n rotations keep the matrix rectangular; even counts keep, odd counts swap its dimensions |
| Pieces.RotatedTwice | piece.py:86-96 | two rotations are the half turn: cell (a, b) comes from (R-1-a, C-1-b) |
| Pieces.RotateFourTimesIsIdentity | main.py:227-231 | four rotations give back the original matrix for every rectangular matrix, so the roll-back by three more rotations restores the shape |
| Pieces.HalfTurnTwice | piece.py:86-96 | two half turns are the identity |
| Pieces.RotatedHasOccupied | piece.py:86-96 | a rotated shape still has an occupied cell |
| Pieces.RotationPreservesCount | piece.py:86-96 | one rotation preserves the number of occupied cells |
| Pieces.CountByColumns | piece.py:92-94 | counting occupied cells row by row or column by column gives the same number |
| Pieces.OccupiedReversed | piece.py:92-94 | a row read backwards (as a source row lands in a rotated column) has the same number of occupied cells |
| Pieces.RowPositionsFacts | piece.py:110-112 | one row yields one position per occupied cell, strictly left to right, exactly the occupied cells of that row |
| Pieces.PositionsCount | piece.py:107-113 | get_positions returns exactly one pair per occupied cell |
| Pieces.PositionsMembers | piece.py:107-113 | a pair is listed iff it is (x + j, y + i) for an occupied cell (i, j), and it lies within the shape's rows |
| Pieces.PositionsOrdered | piece.py:107-113 | the pairs come in strictly increasing row-major order |
| Pieces.Piece.constructor | piece.py:68-84 | shape is the named template, x = y = 0, the colour is the drawn palette entry, and the piece is valid |
| Pieces.Piece.Create | piece.py:68-69 | construction by name yields no piece exactly when the name is not in the template table |
| Pieces.Piece.Rotate | piece.py:86-96 | the new shape is the clockwise rotation of the old one; type, colour and origin are unchanged; the piece stays valid |
| Pieces.Piece.MoveLeft | piece.py:98-99 | x decreases by one and nothing else changes |
| Pieces.Piece.MoveRight | piece.py:101-102 | x increases by one and nothing else changes |
| Pieces.Piece.MoveDown | piece.py:104-105 | y increases by one and nothing else changes |
| Pieces.Piece.Positions | piece.py:107-113 | the nested loops build the row-major position list, of length Count(shape), without changing the piece |
| Board.EmptyGrid | main.py:24 | the initial grid has 20 rows of 10 empty cells |
| Board.FloorCollides | main.py:77-78 | a shape whose origin is on or below the floor collides |
| Board.Line3AtSevenCannotMoveRight | main.py:77 | a Line_3 piece at x = 7 is blocked at offset +1 by the right wall |
| Board.PlacedCells | main.py:86-92 | for a non-colliding piece, every occupied cell with y >= 0 lies in the grid on an empty cell and receives the piece colour; cells the piece does not cover keep their content |
| Board.PlacedKeepsSettledCells | main.py:86-92 | locking never empties a settled cell |
| Board.NonFullRowsFacts | main.py:99-105 | kept plus removed rows make up all rows; kept rows are original, non-full rows; no row is removed iff no row is full, and then the rows are unchanged |
| Board.ScanRemovesFullRow | main.py:100-103 | deleting the full row at the scan index and inserting an empty row on top advances the scan by one removed row without moving the index |
| Board.ScanKeepsRow | main.py:104-105 | a non-full row at the scan index is kept and the index moves up |
| Board.ScanDone | main.py:99 | when the scan has passed the top, the rows are exactly the cleared grid |
| Board.ClearedIsWellFormed | main.py:96-106 | clearing leaves exactly 20 rows of 10 cells and no full row |
| Board.ClearedWithoutFullRows | main.py:96-106 | on a grid without a full row, clearing removes nothing and leaves the grid as it was |
| Board.ClearedIsIdempotent | main.py:96-106 | clearing a cleared grid changes nothing |
| Board.FullRowIsCounted | main.py:100-101 | a grid with a full row has a positive count of cleared lines |
| Board.LandingRow | main.py:162-167 | the resting row is at or below the start, every row passed on the way is free, and one more row down collides |
| Board.LandingRowUnique | main.py:165-166 | the row reached through free rows and blocked just below is the landing row, so the drop loop ends exactly there |
| Board.EmptyGridLanding | main.py:162-167 | on an empty grid, a piece dropped from y = 0 that fits there comes to rest with every occupied cell inside the grid and its lowest occupied cell on the bottom row |
| Tetrix.Game.constructor | main.py:24-40 | a fresh game has an empty grid, no active piece, score 0, no held keys, zeroed timers and a next piece of the drawn shape and colour (main.py:178) |
| Tetrix.Game.CheckCollision | main.py:66-81 | true iff some occupied cell, shifted by the offset, is left or right of the grid, below the floor, or on a settled cell at y >= 0; false without an active piece; changes nothing and reads the grid only in bounds |
| Tetrix.Game.LockPiece | main.py:83-94 | for a non-colliding piece the grid becomes the cleared form of the grid with the piece written in, the score grows by 100 per cleared row, and there is no active piece |
| Tetrix.Game.ClearLines | main.py:96-106 | the in-place bottom-up scan leaves the cleared grid and adds 100 per removed row to the score; nothing else changes |
| Tetrix.Game.HardDrop | main.py:162-167 | the piece comes to rest on its landing row and is locked there; afterwards there is no active piece |
| Tetrix.Game.Sink | main.py:165-166 | the drop loop terminates with the piece on its landing row, still not colliding, with shape, x and colour unchanged |
| Tetrix.Game.Shift | main.py:217-226 | a guarded move changes the piece by the offset iff it does not collide there, and otherwise changes nothing |
| Tetrix.Game.RotateCommand | main.py:227-231 | the piece ends rotated when the rotation fits and with its original shape otherwise; the game invariant is kept |
| Tetrix.Game.KeyDown | main.py:199-233 | ignored when the game is over or there is no active piece; left/right/down set the held flag and make one guarded move; up rotates with roll-back; space hard-drops; the repeat timers never change, up and space leave the held flags alone, and every key but space keeps the same active piece with its colour and type |
| Tetrix.Game.KeyUp | main.py:235-244 | ignored when the game is over; otherwise releasing a key clears its held flag and resets its timer |
| Tetrix.Game.AdvanceTimers | main.py:184-190 | the timer of every held key grows by the frame time; nothing else changes |
| Tetrix.Game.RepeatMoves | main.py:246-261 | with an active piece, each held key whose timer has reached the delay makes one guarded move (left, then right, then down) and is re-armed to delay minus interval; other timers are unchanged; the piece keeps its shape, colour and type |
| Tetrix.Game.RepeatKey | main.py:248-251 | one key's repeat: a guarded move when it fires, and the re-armed or unchanged timer; shape, colour and type are kept |
| Tetrix.Game.FallStep | main.py:264-277 | when not game over, a free piece moves down one row keeping shape, x, colour and type, a blocked one is locked while the next piece stays unchanged, and with no piece the next one is spawned with its shape, colour and type kept; a game that is over is unchanged |
| Tetrix.Game.Fall | main.py:266-270 | a free piece moves down one row keeping shape, x, colour and type; a blocked piece is locked and the cleared rows are scored |
| Tetrix.Game.Spawn | main.py:271-275 | the next piece becomes current, keeping its shape, colour and type, at x = 10 // 2 - width // 2, y = 0; a new next piece is made; game over is set iff the new piece collides |

## Left out

- Rendering, window and font setup are not modelled (`draw_next_piece`, `draw_grid`, `draw_score`, `draw_game_over`, the draw section of `run`, and the screen, offset and font fields). They are pygame calls with no game logic.
- Event polling, the quit event and the restart/quit button hit-testing are not modelled. The commands are methods instead, and a restart is a fresh `Game`.
- The fall timer (`fall_time` against `fall_speed`, main.py:171-172, 182, 265, 277) is not modelled. `FallStep` is the step taken when the timer crosses the threshold.
- Tetrix.Game.AdvanceTimers: frame times are whole milliseconds. The source adds float seconds, and its rounding is not modelled.
- Tetrix.Game.RepeatMoves: the re-arm value `move_delay - move_interval` is exactly 100 ms here. In the source it is the float 0.15 - 0.05.
- Pieces.Piece.constructor: it requires a known shape name. `Pieces.Piece.Create` models the failing lookup for an unknown name as "no piece".
- Randomness (`random.choice` of shape and colour) is not modelled: the drawn indices are parameters.
- Tetrix.Game.LockPiece: it requires a piece that does not collide where it is. Locking a colliding piece would index outside the grid in the source, wrap around for a negative column, or overwrite a settled cell.
- Tetrix.Game.HardDrop: it requires a piece that does not collide where it is, as LockPiece does. The game invariant guarantees this while the game runs, and hard drop is only reachable then.
- The templates are not checked against their rendered appearance. Only their shape, contents and rotation properties are modelled.
