/** The game state and its commands: the grid of settled cells, the active and
    the next piece, the score and the game-over flag, changed by guarded moves,
    rotation with roll-back, locking, line clearing, hard drop, held-key
    repeat and the gravity/spawn step. Random choices arrive as parameters;
    time arrives as whole milliseconds. */
module Tetrix {
  import opened Pieces
  import opened Board

  /** Held-key repeat: first repeat after MoveDelay ms, then one every MoveInterval ms. */
  const MoveDelay := 150
  const MoveInterval := 50

  /** Points per cleared row. */
  const LinePoints := 100

  datatype Key = Left | Right | Down | Up | Space | OtherKey

  /** Where a held-key repeat step leaves a piece at (x, y): moved by
      (dx, dy) when the key fires and the moved piece fits, otherwise put. */
  ghost function Stepped(g: Grid, shape: Matrix, x: int, y: int, fire: bool, dx: int, dy: int): (int, int)
    requires WellFormed(g)
  {
    if fire && !Collides(g, shape, x + dx, y + dy) then (x + dx, y + dy) else (x, y)
  }

  /** The position after the left, right and down repeat steps of one frame,
      in that order, each checked from the position the previous one left. */
  ghost function RepeatTarget(g: Grid, shape: Matrix, x0: int, y0: int,
                              fireLeft: bool, fireRight: bool, fireDown: bool): (int, int)
    requires WellFormed(g)
  {
    var p1 := Stepped(g, shape, x0, y0, fireLeft, -1, 0);
    var p2 := Stepped(g, shape, p1.0, p1.1, fireRight, 1, 0);
    Stepped(g, shape, p2.0, p2.1, fireDown, 0, 1)
  }

  /** The value a held-key timer is left at after a frame's repeat check:
      re-armed to MoveDelay - MoveInterval when the key fired, so the next
      repeat comes one MoveInterval later, and kept otherwise. */
  function Rearmed(held: bool, elapsed: nat): nat
  {
    if held && elapsed >= MoveDelay then MoveDelay - MoveInterval else elapsed
  }

  class Game {
    var grid: Grid
    var current: Piece?
    var next: Piece?
    var score: nat
    var gameOver: bool
    var movingLeft: bool
    var movingRight: bool
    var movingDown: bool
    var leftTime: nat
    var rightTime: nat
    var downTime: nat

    /** The grid keeps its dimensions, both pieces have valid shapes, the next
        piece waits at the origin, and while the game is running the active
        piece overlaps neither walls, floor nor settled cells. */
    ghost predicate Valid()
      reads this, current, next
    {
      && WellFormed(grid)
      && next != null && next.Valid() && next.x == 0 && next.y == 0
      && (current != null ==> current.Valid() && current != next)
      && (!gameOver && current != null ==> !Collides(grid, current.shape, current.x, current.y))
    }

    /** A fresh game: an empty grid, no active piece, score 0, and a first next
        piece of the drawn shape and colour. Restarting builds a new game. */
    constructor (shapeChoice: nat, colorChoice: nat)
      requires shapeChoice < |ShapeNames| && colorChoice < |Palette|
      ensures Valid() && fresh(next)
      ensures grid == EmptyGrid() && current == null && score == 0 && !gameOver
      ensures next.shapeType == ShapeNames[shapeChoice] && next.shape == Templates[ShapeNames[shapeChoice]]
      ensures next.color == Palette[colorChoice]
      ensures !movingLeft && !movingRight && !movingDown
      ensures leftTime == 0 && rightTime == 0 && downTime == 0
    {
      TemplateKeys();
      grid := EmptyGrid();
      current := null;
      score := 0;
      gameOver := false;
      movingLeft, movingRight, movingDown := false, false, false;
      leftTime, rightTime, downTime := 0, 0, 0;
      next := new Piece(ShapeNames[shapeChoice], colorChoice);
    }

    /** Whether the active piece, shifted by (dx, dy), would be blocked; never
        when there is no active piece. Reads the grid only inside its bounds. */
    method CheckCollision(dx: int, dy: int) returns (collides: bool)
      requires WellFormed(grid)
      ensures collides == (current != null && Collides(grid, current.shape, current.x + dx, current.y + dy))
    {
      if current == null {
        return false;
      }
      var shape, px, py := current.shape, current.x + dx, current.y + dy;
      for row := 0 to |shape|
        invariant forall i, j :: 0 <= i < row && IsOccupied(shape, i, j) ==> !Blocked(grid, px + j, py + i)
      {
        for col := 0 to |shape[row]|
          invariant forall i, j :: 0 <= i < row && IsOccupied(shape, i, j) ==> !Blocked(grid, px + j, py + i)
          invariant forall j :: 0 <= j < col && IsOccupied(shape, row, j) ==> !Blocked(grid, px + j, py + row)
        {
          if shape[row][col] != 0 {
            var newX := px + col;
            var newY := py + row;
            if newX < 0 || newX >= Width || newY >= Height || (newY >= 0 && grid[newY][newX] != Empty) {
              assert IsOccupied(shape, row, col) && Blocked(grid, px + col, py + row);
              return true;
            }
          }
        }
      }
      return false;
    }

    /** Removes every full row, scanning from the bottom and re-examining the
        same index after a removal, puts an empty row on top for each removed
        row and scores LinePoints per row. */
    method ClearLines()
      requires WellFormed(grid)
      modifies this
      ensures grid == Cleared(old(grid)) && WellFormed(grid)
      ensures score == old(score) + LinePoints * FullRowCount(old(grid))
      ensures current == old(current) && next == old(next) && gameOver == old(gameOver)
      ensures unchanged(this`movingLeft, this`movingRight, this`movingDown, this`leftTime, this`rightTime, this`downTime)
    {
      var rows := grid;
      ghost var g0 := rows;
      var linesCleared := 0;
      var y := Height - 1;
      // u: the number of original rows not yet examined; they sit, untouched,
      // between the inserted empty rows and the kept rows below them.
      ghost var u := Height;
      while y >= 0
        invariant 0 <= u <= Height && -1 <= y < Height
        invariant linesCleared == FullRowCount(g0[u..])
        invariant rows == Scanning(g0, linesCleared, u)
        invariant u > 0 ==> y == linesCleared + u - 1
        invariant u == 0 ==> y < linesCleared
        invariant unchanged(this)
        decreases y + u + 1
      {
        if u > 0 {
          if IsFull(g0[u - 1]) {
            ScanRemovesFullRow(g0, linesCleared, u);
          } else {
            ScanKeepsRow(g0, linesCleared, u);
          }
        } else {
          assert rows[y] == EmptyRow() && rows[y][0] == Empty;
        }
        if IsFull(rows[y]) {
          linesCleared := linesCleared + 1;
          rows := rows[..y] + rows[y + 1..];
          rows := [EmptyRow()] + rows;
          u := u - 1;
        } else {
          if u > 0 {
            u := u - 1;
          }
          y := y - 1;
        }
      }
      ScanDone(g0, linesCleared);
      grid := rows;
      score := score + linesCleared * LinePoints;
      ClearedIsWellFormed(g0);
    }

    /** Writes the active piece's colour into every grid cell it covers at or
        below the top row, drops the piece and clears lines. The piece must
        not collide, which keeps every write inside the grid. */
    method LockPiece()
      requires Valid()
      requires current != null ==> !Collides(grid, current.shape, current.x, current.y)
      modifies this
      ensures Valid() && current == null
      ensures old(current) == null ==> grid == old(grid) && score == old(score)
      ensures old(current) != null ==>
                var placed := Placed(old(grid), old(current.shape), old(current.x), old(current.y), old(current.color));
                grid == Cleared(placed) && score == old(score) + LinePoints * FullRowCount(placed)
      ensures next == old(next) && gameOver == old(gameOver)
      ensures unchanged(this`movingLeft, this`movingRight, this`movingDown, this`leftTime, this`rightTime, this`downTime)
    {
      if current == null {
        return;
      }
      var shape, px, py, color := current.shape, current.x, current.y, current.color;
      var rows := grid;
      ghost var g0 := rows;
      for row := 0 to |shape|
        invariant WellFormed(rows)
        invariant forall cy, cx :: 0 <= cy < Height && 0 <= cx < Width ==>
                    rows[cy][cx] == if Covers(shape, px, py, cx, cy) && cy - py < row then Block(color) else g0[cy][cx]
      {
        for col := 0 to |shape[row]|
          invariant WellFormed(rows)
          invariant forall cy, cx :: 0 <= cy < Height && 0 <= cx < Width ==>
                      rows[cy][cx] == if Covers(shape, px, py, cx, cy) && (cy - py < row || (cy - py == row && cx - px < col))
                                      then Block(color) else g0[cy][cx]
        {
          if shape[row][col] != 0 {
            var y := py + row;
            var x := px + col;
            if y >= 0 {
              assert IsOccupied(shape, row, col) && !Blocked(g0, x, y);
              rows := rows[y := rows[y][x := Block(color)]];
            }
          }
        }
      }
      ghost var placed := Placed(g0, shape, px, py, color);
      forall cy | 0 <= cy < Height
        ensures rows[cy] == placed[cy]
      {
      }
      assert rows == placed;
      grid := rows;
      current := null;
      ClearLines();
    }

    /** The guarded one-cell move used by every move command: the active piece
        moves by (dx, dy) only if it would not collide there; otherwise
        nothing changes. */
    method Shift(dx: int, dy: int)
      requires Valid() && current != null
      requires (dx, dy) == (-1, 0) || (dx, dy) == (1, 0) || (dx, dy) == (0, 1)
      modifies current
      ensures Valid()
      ensures current.shape == old(current.shape) && current.color == old(current.color)
      ensures current.shapeType == old(current.shapeType)
      ensures if Collides(grid, current.shape, old(current.x) + dx, old(current.y) + dy)
              then current.x == old(current.x) && current.y == old(current.y)
              else current.x == old(current.x) + dx && current.y == old(current.y) + dy
    {
      var blocked := CheckCollision(dx, dy);
      if !blocked {
        if dx == -1 {
          current.MoveLeft();
        } else if dx == 1 {
          current.MoveRight();
        } else {
          current.MoveDown();
        }
      }
    }

    /** Rotates the active piece clockwise; if it then collides, three more
        rotations bring back the original shape. */
    method RotateCommand()
      requires Valid() && current != null
      modifies current
      ensures Valid()
      ensures current.shape == if Collides(grid, Rotated(old(current.shape)), current.x, current.y)
                               then old(current.shape) else Rotated(old(current.shape))
      ensures current.x == old(current.x) && current.y == old(current.y)
      ensures current.color == old(current.color) && current.shapeType == old(current.shapeType)
    {
      ghost var s0 := current.shape;
      current.Rotate();
      var blocked := CheckCollision(0, 0);
      if blocked {
        for k := 0 to 3
          invariant current.Valid() && current.shape == RotatedTimes(s0, k + 1)
          invariant current.x == old(current.x) && current.y == old(current.y)
          invariant current.color == old(current.color) && current.shapeType == old(current.shapeType)
        {
          current.Rotate();
        }
        RotateFourTimesIsIdentity(s0);
      }
    }

    /** Moves the active piece down for as long as the row below is free, then
        locks it. */
    method HardDrop()
      requires Valid()
      requires current != null ==> !Collides(grid, current.shape, current.x, current.y)
      modifies this, current
      ensures Valid() && current == null
      ensures old(current) == null ==> grid == old(grid) && score == old(score)
      ensures old(current) != null ==>
                old(current).y == LandingRow(old(grid), old(current.shape), old(current.x), old(current.y))
      ensures old(current) != null ==>
                grid == Cleared(Placed(old(grid), old(current.shape), old(current.x), old(current).y, old(current.color)))
      ensures old(current) != null ==>
                score == old(score) + LinePoints * FullRowCount(
                           Placed(old(grid), old(current.shape), old(current.x), old(current).y, old(current.color)))
      ensures next == old(next) && gameOver == old(gameOver)
      ensures unchanged(this`movingLeft, this`movingRight, this`movingDown, this`leftTime, this`rightTime, this`downTime)
    {
      if current == null {
        return;
      }
      Sink();
      LockPiece();
    }

    /** Moves the active piece down one row at a time while the row below is
        free; it stops on its landing row. */
    method Sink()
      requires Valid() && current != null
      requires !Collides(grid, current.shape, current.x, current.y)
      modifies current
      ensures Valid()
      ensures current.shape == old(current.shape) && current.x == old(current.x) && current.color == old(current.color)
      ensures current.y == LandingRow(grid, current.shape, current.x, old(current.y))
      ensures !Collides(grid, current.shape, current.x, current.y)
    {
      var piece := current;
      ghost var y0 := piece.y;
      var blocked := CheckCollision(0, 1);
      while !blocked
        invariant piece.shape == old(piece.shape) && piece.x == old(piece.x) && piece.color == old(piece.color)
        invariant y0 <= piece.y < Height && !Collides(grid, piece.shape, piece.x, piece.y)
        invariant forall k :: y0 < k <= piece.y ==> !Collides(grid, piece.shape, piece.x, k)
        invariant blocked == Collides(grid, piece.shape, piece.x, piece.y + 1)
        decreases Height - piece.y
      {
        piece.MoveDown();
        blocked := CheckCollision(0, 1);
      }
      LandingRowUnique(grid, piece.shape, piece.x, y0, piece.y);
    }

    /** A key press. While the game is over, or when there is no active
        piece, it changes nothing. Left, right and down mark the key as held
        and make one guarded move; up rotates with roll-back; space hard-drops. */
    method KeyDown(key: Key)
      requires Valid()
      modifies this, current
      ensures Valid() && gameOver == old(gameOver) && next == old(next) && score >= old(score)
      ensures old(gameOver) || old(current) == null ==> unchanged(this) && (old(current) != null ==> unchanged(old(current)))
      ensures unchanged(this`leftTime, this`rightTime, this`downTime)
      ensures !old(gameOver) && old(current) != null && key != Space ==>
                current == old(current) && current.color == old(current.color) && current.shapeType == old(current.shapeType)
      ensures key in {Up, Space} ==> unchanged(this`movingLeft, this`movingRight, this`movingDown)
      ensures !old(gameOver) && old(current) != null && key in {Left, Right, Down} ==>
                var (dx, dy) := if key == Left then (-1, 0) else if key == Right then (1, 0) else (0, 1);
                var blocked := Collides(grid, old(current.shape), old(current.x) + dx, old(current.y) + dy);
                && current == old(current) && current.shape == old(current.shape)
                && current.x == (if blocked then old(current.x) else old(current.x) + dx)
                && current.y == (if blocked then old(current.y) else old(current.y) + dy)
                && grid == old(grid) && score == old(score)
                && movingLeft == (old(movingLeft) || key == Left)
                && movingRight == (old(movingRight) || key == Right)
                && movingDown == (old(movingDown) || key == Down)
      ensures !old(gameOver) && old(current) != null && key == Up ==>
                var turned := Rotated(old(current.shape));
                && current == old(current) && current.x == old(current.x) && current.y == old(current.y)
                && current.shape == (if Collides(grid, turned, current.x, current.y) then old(current.shape) else turned)
                && grid == old(grid) && score == old(score)
      ensures !old(gameOver) && old(current) != null && key == Space ==>
                var landed := LandingRow(old(grid), old(current.shape), old(current.x), old(current.y));
                var placed := Placed(old(grid), old(current.shape), old(current.x), landed, old(current.color));
                && current == null && grid == Cleared(placed)
                && score == old(score) + LinePoints * FullRowCount(placed)
      ensures key == OtherKey ==> unchanged(this) && (old(current) != null ==> unchanged(old(current)))
    {
      if gameOver || current == null {
        return;
      }
      match key
      case Left =>
        movingLeft := true;
        Shift(-1, 0);
      case Right =>
        movingRight := true;
        Shift(1, 0);
      case Down =>
        movingDown := true;
        Shift(0, 1);
      case Up =>
        RotateCommand();
      case Space =>
        HardDrop();
      case OtherKey =>
    }

    /** A key release: the key is no longer held and its repeat timer is reset.
        Ignored while the game is over. */
    method KeyUp(key: Key)
      requires Valid()
      modifies this
      ensures Valid()
      ensures grid == old(grid) && current == old(current) && next == old(next)
      ensures score == old(score) && gameOver == old(gameOver)
      ensures old(gameOver) ==> unchanged(this)
      ensures !old(gameOver) ==>
                && movingLeft == (old(movingLeft) && key != Left)
                && movingRight == (old(movingRight) && key != Right)
                && movingDown == (old(movingDown) && key != Down)
                && leftTime == (if key == Left then 0 else old(leftTime))
                && rightTime == (if key == Right then 0 else old(rightTime))
                && downTime == (if key == Down then 0 else old(downTime))
    {
      if gameOver {
        return;
      }
      match key
      case Left =>
        movingLeft := false;
        leftTime := 0;
      case Right =>
        movingRight := false;
        rightTime := 0;
      case Down =>
        movingDown := false;
        downTime := 0;
      case _ =>
    }

    /** Adds the frame's elapsed milliseconds to the timer of every held key,
        whether or not the game is over. */
    method AdvanceTimers(dt: nat)
      requires Valid()
      modifies this
      ensures Valid()
      ensures leftTime == old(leftTime) + (if movingLeft then dt else 0)
      ensures rightTime == old(rightTime) + (if movingRight then dt else 0)
      ensures downTime == old(downTime) + (if movingDown then dt else 0)
      ensures unchanged(this`grid, this`current, this`next, this`score, this`gameOver)
      ensures unchanged(this`movingLeft, this`movingRight, this`movingDown)
    {
      if movingLeft {
        leftTime := leftTime + dt;
      }
      if movingRight {
        rightTime := rightTime + dt;
      }
      if movingDown {
        downTime := downTime + dt;
      }
    }

    /** Held-key repeat, once per frame: for each held key, in the order left,
        right, down, whose timer has reached MoveDelay, one guarded move, and
        the timer is re-armed to MoveDelay - MoveInterval so that the next
        repeat comes one interval later. Runs whenever there is an active
        piece, game over or not. */
    method RepeatMoves()
      requires Valid()
      modifies this, current
      ensures Valid()
      ensures grid == old(grid) && current == old(current) && next == old(next)
      ensures score == old(score) && gameOver == old(gameOver)
      ensures unchanged(this`movingLeft, this`movingRight, this`movingDown)
      ensures old(current) == null ==> unchanged(this)
      ensures old(current) != null ==>
                && leftTime == Rearmed(movingLeft, old(leftTime))
                && rightTime == Rearmed(movingRight, old(rightTime))
                && downTime == Rearmed(movingDown, old(downTime))
      ensures old(current) != null ==> current.shape == old(current.shape)
      ensures old(current) != null ==>
                current.color == old(current.color) && current.shapeType == old(current.shapeType)
      ensures old(current) != null ==>
                (current.x, current.y)
                == RepeatTarget(grid, current.shape, old(current.x), old(current.y),
                                movingLeft && old(leftTime) >= MoveDelay, movingRight && old(rightTime) >= MoveDelay,
                                movingDown && old(downTime) >= MoveDelay)
    {
      if current == null {
        return;
      }
      var left := RepeatKey(movingLeft, leftTime, -1, 0);
      var right := RepeatKey(movingRight, rightTime, 1, 0);
      var down := RepeatKey(movingDown, downTime, 0, 1);
      leftTime, rightTime, downTime := left, right, down;
    }

    /** One held key's repeat: once its timer has reached MoveDelay, a guarded
        move by (dx, dy) and the timer value to re-arm with; otherwise nothing
        moves and the timer keeps its value. */
    method RepeatKey(held: bool, elapsed: nat, dx: int, dy: int) returns (timer: nat)
      requires Valid() && current != null
      requires (dx, dy) == (-1, 0) || (dx, dy) == (1, 0) || (dx, dy) == (0, 1)
      modifies current
      ensures Valid()
      ensures timer == Rearmed(held, elapsed)
      ensures current.shape == old(current.shape)
      ensures current.color == old(current.color) && current.shapeType == old(current.shapeType)
      ensures (current.x, current.y)
              == Stepped(grid, current.shape, old(current.x), old(current.y), held && elapsed >= MoveDelay, dx, dy)
    {
      timer := elapsed;
      if held && elapsed >= MoveDelay {
        Shift(dx, dy);
        timer := MoveDelay - MoveInterval;
      }
    }

    /** What happens when the fall timer runs out, unless the game is over:
        an active piece falls (Fall), otherwise the next piece is spawned
        (Spawn). A game that is over does not change. */
    method FallStep(shapeChoice: nat, colorChoice: nat)
      requires Valid() && shapeChoice < |ShapeNames| && colorChoice < |Palette|
      modifies this, current, next
      ensures Valid() && score >= old(score)
      ensures old(gameOver) ==>
                unchanged(this) && unchanged(old(next)) && (old(current) != null ==> unchanged(old(current)))
      ensures unchanged(this`movingLeft, this`movingRight, this`movingDown, this`leftTime, this`rightTime, this`downTime)
      ensures !old(gameOver) && old(current) != null ==> next == old(next) && gameOver == old(gameOver)
      ensures !old(gameOver) && old(current) != null ==> unchanged(next)
      ensures !old(gameOver) && old(current) != null &&
              !Collides(old(grid), old(current.shape), old(current.x), old(current.y) + 1) ==>
                && current == old(current) && current.shape == old(current.shape)
                && current.x == old(current.x) && current.y == old(current.y) + 1
                && current.color == old(current.color) && current.shapeType == old(current.shapeType)
                && grid == old(grid) && score == old(score)
      ensures !old(gameOver) && old(current) != null &&
              Collides(old(grid), old(current.shape), old(current.x), old(current.y) + 1) ==>
                var placed := Placed(old(grid), old(current.shape), old(current.x), old(current.y), old(current.color));
                && current == null && grid == Cleared(placed)
                && score == old(score) + LinePoints * FullRowCount(placed)
      ensures !old(gameOver) && old(current) == null ==>
                && current == old(next) && current.shape == old(next.shape) && current.color == old(next.color)
                && current.shapeType == old(next.shapeType)
                && current.x == Width / 2 - |current.shape[0]| / 2 && current.y == 0
                && fresh(next) && next.shapeType == ShapeNames[shapeChoice]
                && next.shape == Templates[ShapeNames[shapeChoice]] && next.color == Palette[colorChoice]
                && gameOver == Collides(grid, current.shape, current.x, current.y)
                && grid == old(grid) && score == old(score)
    {
      if gameOver {
        return;
      }
      if current != null {
        Fall();
      } else {
        TemplateKeys();
        Spawn(ShapeNames[shapeChoice], colorChoice);
      }
    }

    /** The active piece moves down a row when it fits there, and is locked
        where it is otherwise. */
    method Fall()
      requires Valid() && !gameOver && current != null
      modifies this, current
      ensures Valid() && score >= old(score)
      ensures unchanged(this`movingLeft, this`movingRight, this`movingDown, this`leftTime, this`rightTime, this`downTime)
      ensures next == old(next) && gameOver == old(gameOver)
      ensures !Collides(old(grid), old(current.shape), old(current.x), old(current.y) + 1) ==>
                && current == old(current) && current.shape == old(current.shape)
                && current.x == old(current.x) && current.y == old(current.y) + 1
                && current.color == old(current.color) && current.shapeType == old(current.shapeType)
                && grid == old(grid) && score == old(score)
      ensures Collides(old(grid), old(current.shape), old(current.x), old(current.y) + 1) ==>
                var placed := Placed(old(grid), old(current.shape), old(current.x), old(current.y), old(current.color));
                && current == null && grid == Cleared(placed)
                && score == old(score) + LinePoints * FullRowCount(placed)
    {
      var blocked := CheckCollision(0, 1);
      if !blocked {
        current.MoveDown();
      } else {
        LockPiece();
      }
    }

    /** The next piece becomes the active one, centred horizontally on the top
        row; a new next piece of the drawn shape and colour is made; the game
        is over exactly when the new active piece collides where it appears. */
    method Spawn(shapeType: string, colorChoice: nat)
      requires Valid() && !gameOver && current == null
      requires shapeType in Templates && colorChoice < |Palette|
      modifies this, next
      ensures Valid()
      ensures unchanged(this`movingLeft, this`movingRight, this`movingDown, this`leftTime, this`rightTime, this`downTime)
      ensures current == old(next) && current.shape == old(next.shape) && current.color == old(next.color)
      ensures current.shapeType == old(next.shapeType)
      ensures current.x == Width / 2 - |current.shape[0]| / 2 && current.y == 0
      ensures fresh(next) && next.shapeType == shapeType
      ensures next.shape == Templates[shapeType] && next.color == Palette[colorChoice]
      ensures gameOver == Collides(grid, current.shape, current.x, current.y)
      ensures grid == old(grid) && score == old(score)
    {
      current := next;
      current.x := Width / 2 - |current.shape[0]| / 2;
      next := new Piece(shapeType, colorChoice);
      var blocked := CheckCollision(0, 0);
      if blocked {
        gameOver := true;
      }
    }
  }
}
