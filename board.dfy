/** The settled-cell grid of the game and the pure definitions its operations
    are proved against: the collision test, what locking a piece writes, what
    line clearing leaves, and where a hard drop lands. */
module Board {
  import opened Pieces

  const Width := 10
  const Height := 20

  /** A grid cell: empty, or holding the colour of the piece that settled there. */
  datatype Cell = Empty | Block(color: Color)

  type Row = seq<Cell>
  type Grid = seq<Row>

  /** Exactly Height rows of exactly Width cells. */
  predicate WellFormed(g: Grid) {
    |g| == Height && forall r :: 0 <= r < |g| ==> |g[r]| == Width
  }

  function EmptyRow(): Row {
    seq(Width, _ => Empty)
  }

  function EmptyRows(n: nat): seq<Row> {
    seq(n, _ => EmptyRow())
  }

  function EmptyGrid(): (g: Grid)
    ensures WellFormed(g)
    ensures forall r, c :: 0 <= r < Height && 0 <= c < Width ==> g[r][c] == Empty
  {
    EmptyRows(Height)
  }

  // ---------------------------------------------------------------------------
  // Collision

  /** The cell (cx, cy) stops a piece: it lies left or right of the grid,
      below the floor, or on a settled cell. Cells above the top row are
      never blocked. The bounds tests come first, so the grid is only read
      inside its bounds. */
  predicate Blocked(g: Grid, cx: int, cy: int)
    requires WellFormed(g)
  {
    cx < 0 || cx >= Width || cy >= Height || (cy >= 0 && g[cy][cx] != Empty)
  }

  /** Some occupied cell of the shape, placed with its origin at (px, py),
      is blocked. */
  ghost predicate Collides(g: Grid, shape: Matrix, px: int, py: int)
    requires WellFormed(g)
  {
    exists i, j :: IsOccupied(shape, i, j) && Blocked(g, px + j, py + i)
  }

  /** A shape with an occupied cell collides once its origin is on or below
      the floor. */
  lemma FloorCollides(g: Grid, shape: Matrix, px: int, py: int)
    requires WellFormed(g) && IsShape(shape) && py >= Height
    ensures Collides(g, shape, px, py)
  {

  }

  /** A three-wide horizontal bar at x = 7 cannot move right: its last cell
      would be at x = 10, outside the grid. */
  lemma Line3AtSevenCannotMoveRight(g: Grid, y: int)
    requires WellFormed(g)
    ensures Collides(g, Templates["Line_3"], 7 + 1, y)
  {
    assert IsOccupied(Templates["Line_3"], 0, 2);
    assert Blocked(g, 8 + 2, y);
  }

  // ---------------------------------------------------------------------------
  // Locking

  /** The piece (shape at (px, py)) has an occupied cell over grid cell (cx, cy). */
  predicate Covers(shape: Matrix, px: int, py: int, cx: int, cy: int) {
    IsOccupied(shape, cy - py, cx - px)
  }

  /** The grid with the piece's colour written into every in-grid cell the
      piece covers; every other cell keeps its content. */
  function Placed(g: Grid, shape: Matrix, px: int, py: int, color: Color): (r: Grid)
    requires WellFormed(g)
    ensures WellFormed(r)
  {
    seq(Height, cy requires 0 <= cy < Height =>
      seq(Width, cx requires 0 <= cx < Width =>
        if Covers(shape, px, py, cx, cy) then Block(color) else g[cy][cx]))
  }

  /** For a piece that does not collide, every occupied cell at or below the
      top row lies inside the grid on a cell that was empty, and locking
      writes the piece's colour there; cells the piece does not cover are
      left alone. */
  lemma PlacedCells(g: Grid, shape: Matrix, px: int, py: int, color: Color)
    requires WellFormed(g) && !Collides(g, shape, px, py)
    ensures forall i, j :: IsOccupied(shape, i, j) && py + i >= 0 ==>
              0 <= px + j < Width && py + i < Height && g[py + i][px + j] == Empty &&
              Placed(g, shape, px, py, color)[py + i][px + j] == Block(color)
    ensures forall cy, cx :: 0 <= cy < Height && 0 <= cx < Width && !Covers(shape, px, py, cx, cy) ==>
              Placed(g, shape, px, py, color)[cy][cx] == g[cy][cx]
  {

  }

  /** Locking never empties a settled cell. */
  lemma PlacedKeepsSettledCells(g: Grid, shape: Matrix, px: int, py: int, color: Color)
    requires WellFormed(g)
    ensures forall cy, cx :: 0 <= cy < Height && 0 <= cx < Width && g[cy][cx] != Empty ==>
              Placed(g, shape, px, py, color)[cy][cx] != Empty
  {
  }

  // ---------------------------------------------------------------------------
  // Line clearing

  /** Every cell of the row is settled. */
  predicate IsFull(row: Row) {
    forall c :: 0 <= c < |row| ==> row[c] != Empty
  }

  /** The rows that are not full, in their original order. */
  function NonFullRows(rows: seq<Row>): seq<Row> {
    if rows == [] then []
    else (if IsFull(rows[0]) then [] else [rows[0]]) + NonFullRows(rows[1..])
  }

  /** The number of full rows. */
  function FullRowCount(rows: seq<Row>): nat {
    if rows == [] then 0
    else (if IsFull(rows[0]) then 1 else 0) + FullRowCount(rows[1..])
  }

  /** The grid after line clearing: every full row removed, the remaining rows
      in their order at the bottom, one empty row on top per removed row. */
  function Cleared(g: Grid): seq<Row> {
    EmptyRows(FullRowCount(g)) + NonFullRows(g)
  }

  /** Filtering keeps exactly the non-full rows: the kept and the removed rows
      add up to all rows, and every kept row is one of the input's, not full. */
  lemma {:induction false} NonFullRowsFacts(rows: seq<Row>)
    ensures |NonFullRows(rows)| + FullRowCount(rows) == |rows|
    ensures forall k :: 0 <= k < |NonFullRows(rows)| ==>
              NonFullRows(rows)[k] in rows && !IsFull(NonFullRows(rows)[k])
    ensures FullRowCount(rows) == 0 <==> forall k :: 0 <= k < |rows| ==> !IsFull(rows[k])
    ensures FullRowCount(rows) == 0 ==> NonFullRows(rows) == rows
  {
    if rows != [] {
      NonFullRowsFacts(rows[1..]);
      var tail := NonFullRows(rows[1..]);
      var head := if IsFull(rows[0]) then [] else [rows[0]];
      forall k | 0 <= k < |NonFullRows(rows)|
        ensures NonFullRows(rows)[k] in rows && !IsFull(NonFullRows(rows)[k])
      {
        if k >= |head| {
          assert NonFullRows(rows)[k] == tail[k - |head|];
          assert tail[k - |head|] in rows[1..];
        }
      }
      if FullRowCount(rows) == 0 {
        assert rows == [rows[0]] + rows[1..];
      }
      if forall k :: 0 <= k < |rows| ==> !IsFull(rows[k]) {
        forall k | 0 <= k < |rows[1..]| ensures !IsFull(rows[1..][k]) {
          assert rows[1..][k] == rows[k + 1];
        }
      }
    }
  }

  /** The rows while line clearing is in progress: n empty rows inserted on
      top, the first u original rows not yet examined, then the kept rows
      among those already examined. */
  function Scanning(g: seq<Row>, n: nat, u: nat): seq<Row>
    requires u <= |g|
  {
    EmptyRows(n) + g[..u] + NonFullRows(g[u..])
  }

  /** Examining original row u - 1 (at index n + u - 1) when it is full:
      deleting it and inserting an empty row on top moves the scan on by one
      original row and one removed row. */
  lemma ScanRemovesFullRow(g: seq<Row>, n: nat, u: nat)
    requires 0 < u <= |g| && IsFull(g[u - 1])
    ensures Scanning(g, n, u)[n + u - 1] == g[u - 1]
    ensures var rows := Scanning(g, n, u);
            [EmptyRow()] + (rows[..n + u - 1] + rows[n + u..]) == Scanning(g, n + 1, u - 1)
    ensures FullRowCount(g[u - 1..]) == FullRowCount(g[u..]) + 1
  {

  }

  /** Examining original row u - 1 when it is not full keeps it and moves the
      scan on by one original row. */
  lemma ScanKeepsRow(g: seq<Row>, n: nat, u: nat)
    requires 0 < u <= |g| && !IsFull(g[u - 1])
    ensures Scanning(g, n, u)[n + u - 1] == g[u - 1]
    ensures Scanning(g, n, u) == Scanning(g, n, u - 1)
    ensures FullRowCount(g[u - 1..]) == FullRowCount(g[u..])
  {

  }

  /** Once every original row is examined, the rows are the cleared grid. */
  lemma ScanDone(g: seq<Row>, n: nat)
    requires n == FullRowCount(g)
    ensures Scanning(g, n, 0) == Cleared(g)
  {

  }

  /** Clearing leaves Height rows of Width cells, none of them full. */
  lemma ClearedIsWellFormed(g: Grid)
    requires WellFormed(g)
    ensures WellFormed(Cleared(g))
    ensures forall r :: 0 <= r < Height ==> !IsFull(Cleared(g)[r])
  {
    NonFullRowsFacts(g);
    var n := FullRowCount(g);
    var kept := NonFullRows(g);
    forall r | 0 <= r < Height
      ensures |Cleared(g)[r]| == Width && !IsFull(Cleared(g)[r])
    {
      if r < n {
        assert Cleared(g)[r] == EmptyRow();
        assert EmptyRow()[0] == Empty;
      } else {
        assert Cleared(g)[r] == kept[r - n];
      }
    }
  }

  /** On a grid without a full row, clearing changes nothing. */
  lemma ClearedWithoutFullRows(g: Grid)
    requires WellFormed(g)
    requires forall r :: 0 <= r < Height ==> !IsFull(g[r])
    ensures FullRowCount(g) == 0 && Cleared(g) == g
  {
    NonFullRowsFacts(g);
    assert EmptyRows(0) + g == g;
  }

  /** Clearing twice is clearing once. */
  lemma ClearedIsIdempotent(g: Grid)
    requires WellFormed(g)
    ensures Cleared(Cleared(g)) == Cleared(g)
  {
    ClearedIsWellFormed(g);
    ClearedWithoutFullRows(Cleared(g));
  }

  /** A grid with a full row loses it: the number of removed rows is positive. */
  lemma FullRowIsCounted(g: Grid, r: nat)
    requires r < |g| && IsFull(g[r])
    ensures FullRowCount(g) > 0
  {
    NonFullRowsFacts(g);
  }

  // ---------------------------------------------------------------------------
  // Hard drop

  /** The row a piece starting at (px, py) comes to rest on when it keeps
      moving down while the row below is free: the first r >= py from which
      one more step down collides. */
  ghost function LandingRow(g: Grid, shape: Matrix, px: int, py: int): (r: int)
    requires WellFormed(g) && IsShape(shape)
    ensures r >= py && Collides(g, shape, px, r + 1)
    ensures forall k :: py < k <= r ==> !Collides(g, shape, px, k)
    decreases Height - py
  {
    if Collides(g, shape, px, py + 1) then py
    else
      assert py + 1 < Height by {
        if py + 1 >= Height {
          FloorCollides(g, shape, px, py + 1);
        }
      }
      LandingRow(g, shape, px, py + 1)
  }

  /** The landing row is the only row that is reached through free rows and
      is blocked one row further down. */
  lemma LandingRowUnique(g: Grid, shape: Matrix, px: int, py: int, y: int)
    requires WellFormed(g) && IsShape(shape)
    requires py <= y && Collides(g, shape, px, y + 1)
    requires forall k :: py < k <= y ==> !Collides(g, shape, px, k)
    ensures LandingRow(g, shape, px, py) == y
  {
  }

  /** On an empty grid a piece dropped from the top row that fits there comes
      to rest with every occupied cell inside the grid and its lowest occupied
      cell on the bottom row. */
  lemma EmptyGridLanding(shape: Matrix, px: int)
    requires IsShape(shape) && !Collides(EmptyGrid(), shape, px, 0)
    ensures forall i, j :: IsOccupied(shape, i, j) ==> LandingRow(EmptyGrid(), shape, px, 0) + i < Height
    ensures exists i, j :: IsOccupied(shape, i, j) && LandingRow(EmptyGrid(), shape, px, 0) + i == Height - 1
  {
    var g := EmptyGrid();
    var r := LandingRow(g, shape, px, 0);
    assert !Collides(g, shape, px, r);
    forall i, j | IsOccupied(shape, i, j)
      ensures r + i < Height
    {
      assert !Blocked(g, px + j, r + i);
    }
    var i, j :| IsOccupied(shape, i, j) && Blocked(g, px + j, r + 1 + i);
    assert !Blocked(g, px + j, r + i);
  }
}
