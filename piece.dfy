/** A falling polyomino: one of twelve fixed templates, an origin and a colour.
    The shape matrix is replaced by its clockwise rotation; the origin moves
    one cell at a time. The piece itself checks nothing: the game validates
    every move and rotation against the grid before or after applying it. */
module Pieces {

  /** A shape matrix; a cell is occupied when it is non-zero. */
  type Matrix = seq<seq<int>>

  /** An RGB colour triple. */
  datatype Color = RGB(red: int, green: int, blue: int)

  /** The seven colours a piece may be given. */
  const Palette: seq<Color> := [
    RGB(255, 0, 0),    // red
    RGB(0, 255, 0),    // green
    RGB(0, 0, 255),    // blue
    RGB(255, 255, 0),  // yellow
    RGB(255, 0, 255),  // magenta
    RGB(0, 255, 255),  // cyan
    RGB(255, 128, 0)   // orange
  ]

  /** The twelve shape names, in the order the game draws from them. */
  const ShapeNames: seq<string> := [
    "L_Shape", "J_Shape", "S_Shape", "Z_Shape", "O_Shape", "I_Shape",
    "Cross", "Diamond", "U_Shape", "Plus", "H_Shape", "Line_3"
  ]

  /** The template table, keyed by shape name. */
  const Templates: map<string, Matrix> := map[
    "L_Shape" := [[1, 0, 0], [1, 0, 0], [1, 1, 0]],
    "J_Shape" := [[0, 0, 1], [0, 0, 1], [0, 1, 1]],
    "S_Shape" := [[0, 1, 1], [1, 1, 0], [0, 0, 0]],
    "Z_Shape" := [[1, 1, 0], [0, 1, 1], [0, 0, 0]],
    "O_Shape" := [[1, 1], [1, 1]],
    "I_Shape" := [[0, 0, 0, 0], [1, 1, 1, 1], [0, 0, 0, 0], [0, 0, 0, 0]],
    "Cross" := [[0, 1, 0], [1, 1, 1], [0, 1, 0]],
    "Diamond" := [[0, 1, 0], [1, 1, 1], [1, 0, 1]],
    "U_Shape" := [[1, 0, 1], [1, 1, 1]],
    "Plus" := [[0, 1, 0], [1, 1, 1], [0, 1, 0]],
    "H_Shape" := [[1, 0, 1], [1, 1, 1], [1, 0, 1]],
    "Line_3" := [[1, 1, 1]]
  ]

  // ---------------------------------------------------------------------------
  // Matrices

  /** A non-empty rectangular matrix with at least one column. */
  predicate IsMatrix(m: Matrix) {
    |m| > 0 && |m[0]| > 0 && forall i :: 0 <= i < |m| ==> |m[i]| == |m[0]|
  }

  /** Cell (i, j) exists in m and is occupied (truthy). */
  predicate IsOccupied(m: Matrix, i: int, j: int) {
    0 <= i < |m| && 0 <= j < |m[i]| && m[i][j] != 0
  }

  ghost predicate HasOccupied(m: Matrix) {
    exists i, j :: IsOccupied(m, i, j)
  }

  /** Every cell is 0 or 1. */
  predicate IsBinary(m: Matrix) {
    forall i, j :: 0 <= i < |m| && 0 <= j < |m[i]| ==> m[i][j] == 0 || m[i][j] == 1
  }

  /** What a piece's shape must be: rectangular, non-empty, something occupied. */
  ghost predicate IsShape(m: Matrix) {
    IsMatrix(m) && HasOccupied(m)
  }

  /** The table's keys are exactly the twelve names the game draws from. */
  lemma TemplateKeys()
    ensures |ShapeNames| == 12
    ensures forall name :: name in Templates <==> name in ShapeNames
  {
  }

  /** One template is a rectangular 0/1 matrix with an occupied cell. The
      twelve names are handled four at a time below. */
  lemma TemplateIsShape(name: string)
    requires name in ShapeNames
    ensures IsShape(Templates[name]) && IsBinary(Templates[name])
  {
    assert ShapeNames == ShapeNames[0..4] + ShapeNames[4..8] + ShapeNames[8..12];
    if name in ShapeNames[0..4] {
      TemplateIsShapeFirst(name);
    } else if name in ShapeNames[4..8] {
      TemplateIsShapeMiddle(name);
    } else {
      TemplateIsShapeLast(name);
    }
  }

  /** L, J, S and Z. */
  lemma TemplateIsShapeFirst(name: string)
    requires name in ShapeNames[0..4]
    ensures IsShape(Templates[name]) && IsBinary(Templates[name])
  {
    var m := Templates[name];
    if name == "L_Shape" {
      assert IsOccupied(m, 0, 0);
    } else if name == "J_Shape" {
      assert IsOccupied(m, 0, 2);
    } else if name == "S_Shape" {
      assert IsOccupied(m, 0, 1);
    } else {
      assert IsOccupied(m, 0, 0);
    }
  }

  /** O, I, Cross and Diamond. */
  lemma TemplateIsShapeMiddle(name: string)
    requires name in ShapeNames[4..8]
    ensures IsShape(Templates[name]) && IsBinary(Templates[name])
  {
    var m := Templates[name];
    if name == "O_Shape" {
      assert IsOccupied(m, 0, 0);
    } else if name == "I_Shape" {
      assert IsOccupied(m, 1, 0);
    } else if name == "Cross" {
      assert IsOccupied(m, 0, 1);
    } else {
      assert IsOccupied(m, 0, 1);
    }
  }

  /** U, Plus, H and Line_3. */
  lemma TemplateIsShapeLast(name: string)
    requires name in ShapeNames[8..12]
    ensures IsShape(Templates[name]) && IsBinary(Templates[name])
  {
    var m := Templates[name];
    if name == "U_Shape" {
      assert IsOccupied(m, 0, 0);
    } else if name == "Plus" {
      assert IsOccupied(m, 0, 1);
    } else if name == "H_Shape" {
      assert IsOccupied(m, 0, 0);
    } else {
      assert IsOccupied(m, 0, 0);
    }
  }

  /** Every template is a rectangular 0/1 matrix with at least one occupied
      cell, so every piece starts with a valid shape. */
  lemma TemplatesAreShapes()
    ensures forall k :: 0 <= k < |ShapeNames| ==> ShapeNames[k] in Templates
    ensures forall name :: name in Templates ==> IsShape(Templates[name]) && IsBinary(Templates[name])
  {
    TemplateKeys();
    forall name | name in Templates
      ensures IsShape(Templates[name]) && IsBinary(Templates[name])
    {
      TemplateIsShape(name);
    }
  }

  /** The 90-degree clockwise rotation: an R x C matrix becomes C x R, with
      cell (i, j) moving to (j, R - 1 - i). */
  function Rotated(m: Matrix): (r: Matrix)
    requires IsMatrix(m)
    ensures IsMatrix(r) && |r| == |m[0]| && |r[0]| == |m|
    ensures forall j, k :: 0 <= j < |m[0]| && 0 <= k < |m| ==> r[j][k] == m[|m| - 1 - k][j]
  {
    seq(|m[0]|, j requires 0 <= j < |m[0]| =>
      seq(|m|, k requires 0 <= k < |m| => m[|m| - 1 - k][j]))
  }

  /** n successive rotations. */
  function RotatedTimes(m: Matrix, n: nat): (r: Matrix)
    requires IsMatrix(m)
    ensures IsMatrix(r)
    ensures n % 2 == 0 ==> |r| == |m| && |r[0]| == |m[0]|
    ensures n % 2 == 1 ==> |r| == |m[0]| && |r[0]| == |m|
  {
    if n == 0 then m else Rotated(RotatedTimes(m, n - 1))
  }

  /** Two rotations turn the matrix half way round. */
  lemma {:induction false} RotatedTwice(m: Matrix)
    requires IsMatrix(m)
    ensures |Rotated(Rotated(m))| == |m|
    ensures forall a :: 0 <= a < |m| ==> |Rotated(Rotated(m))[a]| == |m[0]|
    ensures forall a, b :: 0 <= a < |m| && 0 <= b < |m[0]| ==>
              Rotated(Rotated(m))[a][b] == m[|m| - 1 - a][|m[0]| - 1 - b]
  {

  }

  /** Four rotations give back the original matrix, for every rectangular
      matrix (and so for every template). */
  lemma {:induction false} RotateFourTimesIsIdentity(m: Matrix)
    requires IsMatrix(m)
    ensures RotatedTimes(m, 4) == m
  {
    var h := Rotated(Rotated(m));
    assert RotatedTimes(m, 2) == h by {
      assert RotatedTimes(m, 1) == Rotated(m);
    }
    assert RotatedTimes(m, 4) == Rotated(Rotated(h)) by {
      assert RotatedTimes(m, 3) == Rotated(h);
    }
    HalfTurnTwice(m);
  }

  lemma {:induction false} HalfTurnTwice(m: Matrix)
    requires IsMatrix(m)
    ensures Rotated(Rotated(Rotated(Rotated(m)))) == m
  {
    var h := Rotated(Rotated(m));
    RotatedTwice(m);
    RotatedTwice(h);
    var r := Rotated(Rotated(h));
    forall a | 0 <= a < |m|
      ensures r[a] == m[a]
    {
      forall b | 0 <= b < |m[a]|
        ensures r[a][b] == m[a][b]
      {
        assert r[a][b] == h[|m| - 1 - a][|m[0]| - 1 - b];
      }
    }
  }

  /** A rotation keeps some cell occupied. */
  lemma RotatedHasOccupied(m: Matrix)
    requires IsShape(m)
    ensures IsShape(Rotated(m))
  {
    var i, j :| IsOccupied(m, i, j);
    assert IsOccupied(Rotated(m), j, |m| - 1 - i);
  }

  // ---------------------------------------------------------------------------
  // Counting occupied cells

  /** Number of occupied cells of a row. */
  function Occupied(s: seq<int>): nat {
    if s == [] then 0 else Occupied(s[..|s| - 1]) + (if s[|s| - 1] != 0 then 1 else 0)
  }

  /** Number of occupied cells of a matrix, row by row. */
  function Count(m: Matrix): nat {
    if m == [] then 0 else Count(m[..|m| - 1]) + Occupied(m[|m| - 1])
  }

  /** Column j of a matrix, top to bottom. */
  function Column(m: Matrix, j: nat): (c: seq<int>)
    requires forall i :: 0 <= i < |m| ==> j < |m[i]|
    ensures |c| == |m| && forall i :: 0 <= i < |m| ==> c[i] == m[i][j]
  {
    seq(|m|, i requires 0 <= i < |m| => m[i][j])
  }

  /** Number of occupied cells in the first n columns. */
  function ColumnsCount(m: Matrix, n: nat): nat
    requires forall i :: 0 <= i < |m| ==> n <= |m[i]|
  {
    if n == 0 then 0 else ColumnsCount(m, n - 1) + Occupied(Column(m, n - 1))
  }

  lemma {:induction false} OccupiedAppend(s: seq<int>, t: seq<int>)
    ensures Occupied(s + t) == Occupied(s) + Occupied(t)
  {
    if t != [] {
      assert (s + t)[..|s + t| - 1] == s + t[..|t| - 1];
      OccupiedAppend(s, t[..|t| - 1]);
    } else {
      assert s + t == s;
    }
  }

  /** Reading a row backwards does not change how many of its cells are occupied. */
  lemma {:induction false} OccupiedReversed(s: seq<int>, r: seq<int>)
    requires |r| == |s| && forall k :: 0 <= k < |s| ==> r[k] == s[|s| - 1 - k]
    ensures Occupied(r) == Occupied(s)
  {
    if s != [] {
      var n := |s|;
      assert r == [s[n - 1]] + r[1..];
      OccupiedAppend([s[n - 1]], r[1..]);
      assert Occupied([s[n - 1]]) == (if s[n - 1] != 0 then 1 else 0) by {
        assert [s[n - 1]][..0] == [];
      }
      OccupiedReversed(s[..n - 1], r[1..]);
    }
  }

  /** Counting row by row or column by column gives the same number. */
  lemma {:induction false} CountByColumns(m: Matrix, n: nat)
    requires forall i :: 0 <= i < |m| ==> |m[i]| == n
    ensures Count(m) == ColumnsCount(m, n)
  {
    if m != [] {
      var front, last := m[..|m| - 1], m[|m| - 1];
      CountByColumns(front, n);
      ColumnsSplit(m, n);
      assert last[..n] == last;
    } else {
      ColumnsOfEmpty(m, n);
    }
  }

  lemma {:induction false} ColumnsOfEmpty(m: Matrix, n: nat)
    requires m == []
    ensures ColumnsCount(m, n) == 0
  {
    if n > 0 {
      ColumnsOfEmpty(m, n - 1);
      assert Column(m, n - 1) == [];
    }
  }

  /** The first n columns of m count its first n cells of the last row on top
      of the first n columns of the rows above it. */
  lemma {:induction false} ColumnsSplit(m: Matrix, n: nat)
    requires m != []
    requires forall i :: 0 <= i < |m| ==> n <= |m[i]|
    ensures ColumnsCount(m, n) == ColumnsCount(m[..|m| - 1], n) + Occupied(m[|m| - 1][..n])
  {
    var front, last := m[..|m| - 1], m[|m| - 1];
    if n > 0 {
      ColumnsSplit(m, n - 1);
      var c := Column(m, n - 1);
      assert c[..|c| - 1] == Column(front, n - 1);
      assert last[..n][..n - 1] == last[..n - 1];
    } else {
      ColumnsOfEmptyPrefix(front);
    }
  }

  lemma ColumnsOfEmptyPrefix(m: Matrix)
    ensures ColumnsCount(m, 0) == 0
  {
  }

  /** A rotation moves cells but never creates or loses one. */
  lemma {:induction false} RotationPreservesCount(m: Matrix)
    requires IsMatrix(m)
    ensures Count(Rotated(m)) == Count(m)
  {
    var r := Rotated(m);
    CountByColumns(m, |m[0]|);
    RotatedPrefixCount(m, |m[0]|);
    assert r[..|m[0]|] == r;
  }

  lemma {:induction false} RotatedPrefixCount(m: Matrix, k: nat)
    requires IsMatrix(m) && k <= |m[0]|
    ensures Count(Rotated(m)[..k]) == ColumnsCount(m, k)
  {
    var r := Rotated(m);
    if k > 0 {
      RotatedPrefixCount(m, k - 1);
      assert r[..k][..k - 1] == r[..k - 1];
      OccupiedReversed(Column(m, k - 1), r[k - 1]);
    } else {
      assert r[..0] == [];
    }
  }

  // ---------------------------------------------------------------------------
  // Absolute positions

  /** Absolute positions (x, y) of the occupied cells of one row lying at
      height py, left to right. */
  function RowPositions(row: seq<int>, px: int, py: int): seq<(int, int)> {
    if row == [] then []
    else RowPositions(row[..|row| - 1], px, py)
         + (if row[|row| - 1] != 0 then [(px + |row| - 1, py)] else [])
  }

  /** Absolute positions of all occupied cells, in row-major order. */
  function PositionsOf(m: Matrix, px: int, py: int): seq<(int, int)> {
    if m == [] then []
    else PositionsOf(m[..|m| - 1], px, py) + RowPositions(m[|m| - 1], px, py + |m| - 1)
  }

  /** Strictly increasing in row-major order: by y, then by x. */
  predicate RowMajor(ps: seq<(int, int)>) {
    forall a, b :: 0 <= a < b < |ps| ==> ps[a].1 < ps[b].1 || (ps[a].1 == ps[b].1 && ps[a].0 < ps[b].0)
  }

  lemma {:induction false} RowPositionsFacts(row: seq<int>, px: int, py: int)
    ensures |RowPositions(row, px, py)| == Occupied(row)
    ensures RowMajor(RowPositions(row, px, py))
    ensures forall p :: p in RowPositions(row, px, py) <==>
              exists j :: 0 <= j < |row| && row[j] != 0 && p == (px + j, py)
  {
    if row != [] {
      var front := row[..|row| - 1];
      RowPositionsFacts(front, px, py);
      var ps := RowPositions(row, px, py);
      var fs := RowPositions(front, px, py);
      forall p | p in fs ensures p.1 == py && p.0 < px + |row| - 1 {
        var j :| 0 <= j < |front| && front[j] != 0 && p == (px + j, py);
      }
      forall p ensures p in ps <==> exists j :: 0 <= j < |row| && row[j] != 0 && p == (px + j, py) {
        if p in ps && p !in fs {
          assert row[|row| - 1] != 0 && p == (px + |row| - 1, py);
        }
        if exists j :: 0 <= j < |row| && row[j] != 0 && p == (px + j, py) {
          var j :| 0 <= j < |row| && row[j] != 0 && p == (px + j, py);
          if j < |row| - 1 {
            assert front[j] != 0;
          }
        }
      }
      forall a, b | 0 <= a < b < |ps|
        ensures ps[a].1 < ps[b].1 || (ps[a].1 == ps[b].1 && ps[a].0 < ps[b].0)
      {
        if b >= |fs| {
          assert ps[b] == (px + |row| - 1, py);
          assert ps[a] in fs;
        }
      }
    }
  }

  /** One position per occupied cell. */
  lemma {:induction false} PositionsCount(m: Matrix, px: int, py: int)
    ensures |PositionsOf(m, px, py)| == Count(m)
  {
    if m != [] {
      PositionsCount(m[..|m| - 1], px, py);
      RowPositionsFacts(m[|m| - 1], px, py + |m| - 1);
    }
  }

  /** The positions are exactly the occupied cells offset by (px, py), so
      they lie in rows py .. py + |m| - 1. */
  lemma {:induction false} PositionsMembers(m: Matrix, px: int, py: int)
    ensures forall p :: p in PositionsOf(m, px, py) ==> py <= p.1 < py + |m|
    ensures forall p :: p in PositionsOf(m, px, py) <==>
              exists i, j :: IsOccupied(m, i, j) && p == (px + j, py + i)
  {
    if m != [] {
      var front, last := m[..|m| - 1], m[|m| - 1];
      var y := py + |m| - 1;
      PositionsMembers(front, px, py);
      RowPositionsFacts(last, px, y);
      var ps := PositionsOf(m, px, py);
      var fs := PositionsOf(front, px, py);
      var ls := RowPositions(last, px, y);
      assert ps == fs + ls;
      forall p | p in ls ensures p.1 == y {
        var j :| 0 <= j < |last| && last[j] != 0 && p == (px + j, y);
      }
      forall p ensures p in ps <==> exists i, j :: IsOccupied(m, i, j) && p == (px + j, py + i) {
        if p in fs {
          var i, j :| IsOccupied(front, i, j) && p == (px + j, py + i);
          assert IsOccupied(m, i, j);
        } else if p in ls {
          var j :| 0 <= j < |last| && last[j] != 0 && p == (px + j, y);
          assert IsOccupied(m, |m| - 1, j);
        }
        if exists i, j :: IsOccupied(m, i, j) && p == (px + j, py + i) {
          var i, j :| IsOccupied(m, i, j) && p == (px + j, py + i);
          if i < |m| - 1 {
            assert IsOccupied(front, i, j);
          } else {
            assert p in ls;
          }
        }
      }
    }
  }

  /** The positions come in row-major order, the order the loops of
      Piece.Positions visit the cells in. */
  lemma {:induction false} PositionsOrdered(m: Matrix, px: int, py: int)
    ensures RowMajor(PositionsOf(m, px, py))
  {
    if m != [] {
      var front, last := m[..|m| - 1], m[|m| - 1];
      var y := py + |m| - 1;
      PositionsOrdered(front, px, py);
      PositionsMembers(front, px, py);
      RowPositionsFacts(last, px, y);
      var ps := PositionsOf(m, px, py);
      var fs := PositionsOf(front, px, py);
      var ls := RowPositions(last, px, y);
      assert ps == fs + ls;
      forall p | p in ls ensures p.1 == y {
        var j :| 0 <= j < |last| && last[j] != 0 && p == (px + j, y);
      }
      forall a, b | 0 <= a < b < |ps|
        ensures ps[a].1 < ps[b].1 || (ps[a].1 == ps[b].1 && ps[a].0 < ps[b].0)
      {
        if b >= |fs| {
          assert ps[b] in ls;
          if a < |fs| {
            assert ps[a] in fs;
          } else {
            assert ps[a] == ls[a - |fs|] && ps[b] == ls[b - |fs|];
          }
        }
      }
    }
  }

  // ---------------------------------------------------------------------------
  // The piece

  class Piece {
    var shapeType: string
    var shape: Matrix
    var color: Color
    var x: int
    var y: int

    ghost predicate Valid()
      reads this
    {
      IsShape(shape) && color in Palette
    }

    /** A new piece of the named template, coloured by the palette entry the
        caller drew, with its origin at (0, 0). */
    constructor (shapeType: string, colorChoice: nat)
      requires shapeType in Templates && colorChoice < |Palette|
      ensures Valid()
      ensures this.shapeType == shapeType && shape == Templates[shapeType]
      ensures color == Palette[colorChoice] && x == 0 && y == 0
    {
      TemplatesAreShapes();
      this.shapeType := shapeType;
      shape := Templates[shapeType];
      color := Palette[colorChoice];
      x := 0;
      y := 0;
    }

    /** Construction by name: an unknown name fails the template lookup, and
        then no piece is made. */
    static method Create(shapeType: string, colorChoice: nat) returns (p: Piece?)
      requires colorChoice < |Palette|
      ensures p == null <==> shapeType !in Templates
      ensures p != null ==> fresh(p) && p.Valid() && p.shapeType == shapeType
      ensures p != null ==> p.shape == Templates[shapeType] && p.color == Palette[colorChoice]
      ensures p != null ==> p.x == 0 && p.y == 0
    {
      if shapeType in Templates {
        p := new Piece(shapeType, colorChoice);
      } else {
        p := null;
      }
    }

    /** Replaces the shape by its clockwise rotation, built cell by cell into
        a fresh matrix. Nothing but the shape changes. */
    method Rotate()
      requires Valid()
      modifies this
      ensures Valid()
      ensures shape == Rotated(old(shape))
      ensures shapeType == old(shapeType) && color == old(color) && x == old(x) && y == old(y)
    {
      var m := shape;
      var rows := |m|;
      var cols := |m[0]|;
      var rotated: Matrix := seq(cols, _ => seq(rows, _ => 0));
      for i := 0 to rows
        invariant |rotated| == cols && forall a :: 0 <= a < cols ==> |rotated[a]| == rows
        invariant forall a, b :: 0 <= a < cols && rows - i <= b < rows ==> rotated[a][b] == m[rows - 1 - b][a]
      {
        for j := 0 to cols
          invariant |rotated| == cols && forall a :: 0 <= a < cols ==> |rotated[a]| == rows
          invariant forall a, b :: 0 <= a < cols && rows - i <= b < rows ==> rotated[a][b] == m[rows - 1 - b][a]
          invariant forall a :: 0 <= a < j ==> rotated[a][rows - 1 - i] == m[i][a]
        {
          rotated := rotated[j := rotated[j][rows - 1 - i := m[i][j]]];
        }
      }
      RotatedHasOccupied(m);
      forall a | 0 <= a < cols
        ensures rotated[a] == Rotated(m)[a]
      {
      }
      assert rotated == Rotated(m);
      shape := rotated;
    }

    method MoveLeft()
      modifies this
      ensures x == old(x) - 1
      ensures y == old(y) && shape == old(shape) && color == old(color) && shapeType == old(shapeType)
    {
      x := x - 1;
    }

    method MoveRight()
      modifies this
      ensures x == old(x) + 1
      ensures y == old(y) && shape == old(shape) && color == old(color) && shapeType == old(shapeType)
    {
      x := x + 1;
    }

    method MoveDown()
      modifies this
      ensures y == old(y) + 1
      ensures x == old(x) && shape == old(shape) && color == old(color) && shapeType == old(shapeType)
    {
      y := y + 1;
    }

    /** The absolute cells of the piece, one per occupied shape cell, in
        row-major order. */
    method Positions() returns (positions: seq<(int, int)>)
      requires Valid()
      ensures positions == PositionsOf(shape, x, y)
      ensures |positions| == Count(shape) && RowMajor(positions)
    {
      var m, px, py := shape, x, y;
      positions := [];
      for i := 0 to |m|
        invariant positions == PositionsOf(m[..i], px, py)
      {
        var row := m[i];
        for j := 0 to |m[0]|
          invariant positions == PositionsOf(m[..i], px, py) + RowPositions(row[..j], px, py + i)
        {
          assert row[..j + 1][..j] == row[..j];
          if row[j] != 0 {
            positions := positions + [(px + j, py + i)];
          }
        }
        assert row[..|m[0]|] == row;
        assert m[..i + 1][..i] == m[..i];
      }
      assert m[..|m|] == m;
      PositionsCount(m, px, py);
      PositionsOrdered(m, px, py);
    }
  }
}
