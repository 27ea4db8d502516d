/**
 * Tetrominoes: a square boolean grid with a colour and an origin on the
 * board. The origin is only ever moved by whole cells, so it is an integer
 * pair here. Rotation replaces the grid with a rotated copy; the origin and
 * the colour never change.
 */
module Tetronimoes {
  import opened Grids

  /** The colour scale of a build: float32 channels in [0, 1] or uint8 channels. */
  datatype Palette = UnitFloat | Byte

  datatype Rgba = Rgba(r: real, g: real, b: real, a: real)

  /** The seven shipped pieces. */
  datatype Kind = L | J | Line | S | Z | O | T

  /** The value of a shape at one moment: its grid, colour and origin. */
  datatype Piece = Piece(points: Grid, color: Rgba, x: int, y: int)

  /** The order of the constructor list NewRandomShape indexes into. */
  const RandomOrder: seq<Kind> := [L, J, Line, S, Z, O, T]

  function KindGrid(k: Kind): Grid {
    match k
    case L => [[false, true, true], [false, true, false], [false, true, false]]
    case J => [[true, true, false], [false, true, false], [false, true, false]]
    case Line => [[false, false, true, false, false], [false, false, true, false, false],
                  [false, false, true, false, false], [false, false, true, false, false],
                  [false, false, false, false, false]]
    case S => [[false, true, true], [true, true, false], [false, false, false]]
    case Z => [[true, true, false], [false, true, true], [false, false, false]]
    case O => [[true, true], [true, true]]
    case T => [[false, true, false], [true, true, true], [false, false, false]]
  }

  function KindColor(k: Kind, p: Palette): Rgba {
    match (k, p)
    case (L, UnitFloat) => Rgba(0.0, 1.0, 0.2, 1.0)
    case (L, Byte) => Rgba(0.0, 255.0, 50.0, 255.0)
    case (J, UnitFloat) => Rgba(0.0, 1.0, 0.2, 1.0)
    case (J, Byte) => Rgba(0.0, 255.0, 50.0, 255.0)
    case (Line, UnitFloat) => Rgba(1.0, 0.2, 0.0, 1.0)
    case (Line, Byte) => Rgba(255.0, 50.0, 0.0, 255.0)
    case (S, UnitFloat) => Rgba(0.2, 0.2, 0.7, 1.0)
    case (S, Byte) => Rgba(50.0, 50.0, 200.0, 255.0)
    case (Z, UnitFloat) => Rgba(0.7, 0.2, 0.2, 1.0)
    case (Z, Byte) => Rgba(200.0, 50.0, 50.0, 255.0)
    case (O, UnitFloat) => Rgba(0.7, 0.7, 0.7, 1.0)
    case (O, Byte) => Rgba(200.0, 200.0, 200.0, 255.0)
    case (T, UnitFloat) => Rgba(0.7, 0.2, 0.2, 1.0)
    case (T, Byte) => Rgba(200.0, 50.0, 50.0, 255.0)
  }

  /** The filled points of a grid are exactly the given cells. */
  lemma FilledCellsAre(g: Grid, cells: set<(int, int)>)
    requires forall c :: c in cells ==> 0 <= c.0 < |g| && 0 <= c.1 < |g[c.0]| && g[c.0][c.1]
    requires forall i, j :: 0 <= i < |g| && 0 <= j < |g[i]| && g[i][j] ==> (i, j) in cells
    ensures FilledCells(g) == cells
  {
  }

  /** The filled points of each shipped grid, row by row. */
  function KindCells(k: Kind): (cells: set<(int, int)>)
    ensures |cells| == 4
  {
    match k
    case L => {(0, 1), (0, 2), (1, 1), (2, 1)}
    case J => {(0, 0), (0, 1), (1, 1), (2, 1)}
    case Line => {(0, 2), (1, 2), (2, 2), (3, 2)}
    case S => {(0, 1), (0, 2), (1, 0), (1, 1)}
    case Z => {(0, 0), (0, 1), (1, 1), (1, 2)}
    case O => {(0, 0), (0, 1), (1, 0), (1, 1)}
    case T => {(0, 1), (1, 0), (1, 1), (1, 2)}
  }

  /** Every shipped grid is square, of size 2, 3 or 5, and one on which rotating and reverting restores it. */
  lemma ShippedGrids(k: Kind)
    ensures IsSquare(KindGrid(k)) && |KindGrid(k)| in {2, 3, 5}
    ensures RotationInvertible(KindGrid(k))
  {
  }

  /** The 5x5 Line grid has exactly four filled points. */
  lemma LineCount()
    ensures FilledCount(KindGrid(Line)) == 4
  {
    FilledCellsAre(KindGrid(Line), KindCells(Line));
  }

  /** Each 3x3 grid has exactly four filled points. */
  lemma SmallCount(k: Kind)
    requires |KindGrid(k)| == 3
    ensures FilledCount(KindGrid(k)) == 4
  {
    FilledCellsAre(KindGrid(k), KindCells(k));
  }

  /** Every shipped grid has exactly four filled points. */
  lemma ShippedCounts(k: Kind)
    ensures FilledCount(KindGrid(k)) == 4
  {
    if k == Line {
      LineCount();
    } else if k == O {
      FilledCellsAre(KindGrid(O), KindCells(O));
    } else {
      SmallCount(k);
    }
  }

  class Shape {
    var points: Grid
    const color: Rgba
    var x: int
    var y: int

    ghost predicate Valid()
      reads this
    {
      IsSquare(points) && |points| > 0
    }

    function Snapshot(): Piece
      reads this
    {
      Piece(points, color, x, y)
    }

    /** The seven NewXShape constructors: the kind's grid and colour, origin (0, 0). */
    constructor (k: Kind, palette: Palette)
      ensures Valid()
      ensures Snapshot() == Piece(KindGrid(k), KindColor(k, palette), 0, 0)
    {
      ShippedGrids(k);
      points := KindGrid(k);
      color := KindColor(k, palette);
      x, y := 0, 0;
    }

    method RotateClockwise()
      requires Valid()
      modifies this
      ensures Valid()
      ensures Snapshot() == old(Snapshot()).(points := RotatedCW(old(points)))
    {
      ghost var g := points;
      var t := Transpose(points);
      points := t;
      var i := 0;
      while i < |points|
        invariant 0 <= i <= |points| == |t|
        invariant forall k :: 0 <= k < i ==> points[k] == Reversed(t[k])
        invariant forall k :: i <= k < |t| ==> points[k] == t[k]
        invariant x == old(x) && y == old(y)
      {
        var row := Reverse(points[i]);
        points := points[i := row];
        i := i + 1;
      }
      ReversedRowsOfTranspose(g, points);
    }

    method RotateCounterClockwise()
      requires Valid()
      modifies this
      ensures Valid()
      ensures Snapshot() == old(Snapshot()).(points := RotatedCCW(old(points)))
    {
      points := Transpose(points);
      points := ReverseColumns(points);
    }
  }

  /** NewRandomShape, with the random index supplied by the caller. */
  method NewRandomShape(choice: nat, palette: Palette) returns (s: Shape)
    requires choice < |RandomOrder|
    ensures fresh(s) && s.Valid()
    ensures s.Snapshot() == Piece(KindGrid(RandomOrder[choice]), KindColor(RandomOrder[choice], palette), 0, 0)
  {
    s := new Shape(RandomOrder[choice], palette);
  }
}
