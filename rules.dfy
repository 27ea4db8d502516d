/**
 * The board simulation as values: a Height x Width grid of optional
 * coloured cells plus an optional falling piece. Every operation of the
 * game state is a function here; the State class in module Gamestate runs
 * the source's loops and is proved to compute exactly these functions.
 *
 * Two conventions exist among the builds. BottomLeft (webgl, glfw): row 0
 * is the bottom row, gravity decrements Y, a piece spawns at the top rows
 * and only `row < 0` is checked. TopLeft (sdl): row 0 is the top row,
 * gravity increments Y, a piece spawns at row 0 and only `row >= Height`
 * is checked.
 */
module Rules {
  import opened Grids
  import opened Tetronimoes

  const Width: int := 10
  const Height: int := 20

  datatype Option<T> = None | Some(value: T)

  /** A board cell: nil, or a landed block of some colour. */
  datatype Cell = Vacant | Block(color: Rgba)

  type Row = seq<Cell>

  datatype Variant = BottomLeft | TopLeft

  datatype Game = Game(rows: seq<Row>, falling: Option<Piece>)

  /** The key transitions ApplyInputs reacts to: pressed now and not in the previous frame. */
  datatype Edges = Edges(space: bool, up: bool, down: bool, left: bool, right: bool)

  function PaletteOf(v: Variant): Palette {
    if v.BottomLeft? then UnitFloat else Byte
  }

  predicate WellFormed(rows: seq<Row>) {
    |rows| == Height && forall r :: 0 <= r < |rows| ==> |rows[r]| == Width
  }

  function EmptyRow(): (row: Row)
    ensures |row| == Width && IsClear(row) && !IsFull(row)
  {
    assert seq(Width, _ => Vacant)[0] == Vacant;
    seq(Width, _ => Vacant)
  }

  /** The board NewState builds: Height rows of Width empty cells. */
  function EmptyBoard(): (rows: seq<Row>)
    ensures WellFormed(rows)
    ensures forall r :: 0 <= r < |rows| ==> IsClear(rows[r])
  {
    seq(Height, _ => EmptyRow())
  }

  /** `filled`: every cell of the row holds a block. */
  predicate IsFull(row: Row) {
    forall c :: 0 <= c < |row| ==> row[c] != Vacant
  }

  /** `empty`: no cell of the row holds a block. */
  predicate IsClear(row: Row) {
    forall c :: 0 <= c < |row| ==> row[c] == Vacant
  }

  lemma FullAndClearExclusive(row: Row)
    requires |row| > 0
    ensures !(IsFull(row) && IsClear(row))
  {
    assert row[0] == Vacant || row[0] != Vacant;
  }

  // ---------------------------------------------------------------------
  // Counting blocks
  // ---------------------------------------------------------------------

  function RowBlocks(row: Row): nat {
    if row == [] then 0 else (if row[0] != Vacant then 1 else 0) + RowBlocks(row[1..])
  }

  function BlockCount(rows: seq<Row>): nat {
    if rows == [] then 0 else RowBlocks(rows[0]) + BlockCount(rows[1..])
  }

  lemma {:induction false} FullRowBlocks(row: Row)
    requires IsFull(row)
    ensures RowBlocks(row) == |row|
  {
    if row != [] {
      FullRowBlocks(row[1..]);
    }
  }

  lemma {:induction false} ClearRowBlocks(row: Row)
    requires IsClear(row)
    ensures RowBlocks(row) == 0
  {
    if row != [] {
      ClearRowBlocks(row[1..]);
    }
  }

  lemma {:induction false} BlockCountAppend(a: seq<Row>, b: seq<Row>)
    ensures BlockCount(a + b) == BlockCount(a) + BlockCount(b)
  {
    if a != [] {
      assert (a + b)[1..] == a[1..] + b;
      BlockCountAppend(a[1..], b);
    } else {
      assert a + b == b;
    }
  }

  // ---------------------------------------------------------------------
  // Line clearing (the first part of Step)
  // ---------------------------------------------------------------------

  /**
   * Clearing full row i: every row on the spawn side of i shifts one place
   * towards i, and the row at the spawn edge becomes empty.
   */
  function RemoveRow(rows: seq<Row>, i: nat, v: Variant): (r: seq<Row>)
    requires i < |rows|
    ensures |r| == |rows|
  {
    if v.BottomLeft? then
      seq(|rows|, k requires 0 <= k < |rows| =>
        if k < i then rows[k] else if k < |rows| - 1 then rows[k + 1] else EmptyRow())
    else
      seq(|rows|, k requires 0 <= k < |rows| =>
        if k == 0 then EmptyRow() else if k <= i then rows[k - 1] else rows[k])
  }

  lemma RemoveRowWellFormed(rows: seq<Row>, i: nat, v: Variant)
    requires WellFormed(rows) && i < |rows|
    ensures WellFormed(RemoveRow(rows, i, v))
  {
    var r := RemoveRow(rows, i, v);
    forall k | 0 <= k < |r| ensures |r[k]| == Width {
      assert r[k] == EmptyRow() || r[k] in rows;
    }
  }

  lemma BlockCountSplit(rows: seq<Row>, i: nat)
    requires i < |rows|
    ensures BlockCount(rows) == BlockCount(rows[..i]) + RowBlocks(rows[i]) + BlockCount(rows[i + 1..])
  {
    assert rows == rows[..i] + ([rows[i]] + rows[i + 1..]);
    BlockCountAppend(rows[..i], [rows[i]] + rows[i + 1..]);
    assert ([rows[i]] + rows[i + 1..])[1..] == rows[i + 1..];
  }

  /** Bottom-left clearing: the rows above i move down one place and an empty row enters at the top. */
  lemma RemoveRowBottomLeft(rows: seq<Row>, i: nat)
    requires i < |rows|
    ensures RemoveRow(rows, i, BottomLeft) == rows[..i] + rows[i + 1..] + [EmptyRow()]
  {
    var r := RemoveRow(rows, i, BottomLeft);
    var s := rows[..i] + rows[i + 1..] + [EmptyRow()];
    forall k | 0 <= k < |r| ensures r[k] == s[k] {
      if k < i {
        assert s[k] == rows[k];
      } else if k < |rows| - 1 {
        assert s[k] == rows[i + 1..][k - i];
      }
    }
  }

  /** Top-left clearing: the rows above i move down one place and an empty row enters at row 0. */
  lemma RemoveRowTopLeft(rows: seq<Row>, i: nat)
    requires i < |rows|
    ensures RemoveRow(rows, i, TopLeft) == [EmptyRow()] + (rows[..i] + rows[i + 1..])
  {
    var r := RemoveRow(rows, i, TopLeft);
    var s := [EmptyRow()] + (rows[..i] + rows[i + 1..]);
    forall k | 0 <= k < |r| ensures r[k] == s[k] {
      if 0 < k <= i {
        assert s[k] == rows[k - 1];
      } else if i < k {
        assert s[k] == rows[i + 1..][k - 1 - i];
      }
    }
  }

  /** Clearing a full row takes away exactly Width blocks. */
  lemma RemoveRowDropsWidth(rows: seq<Row>, i: nat, v: Variant)
    requires WellFormed(rows) && i < |rows| && IsFull(rows[i])
    ensures BlockCount(RemoveRow(rows, i, v)) == BlockCount(rows) - Width
  {
    var rest := rows[..i] + rows[i + 1..];
    BlockCountSplit(rows, i);
    BlockCountAppend(rows[..i], rows[i + 1..]);
    FullRowBlocks(rows[i]);
    ClearRowBlocks(EmptyRow());
    assert BlockCount([EmptyRow()]) == 0 by {
      assert [EmptyRow()][1..] == [];
    }
    if v.BottomLeft? {
      RemoveRowBottomLeft(rows, i);
      BlockCountAppend(rest, [EmptyRow()]);
    } else {
      RemoveRowTopLeft(rows, i);
      BlockCountAppend([EmptyRow()], rest);
    }
  }

  /** The webgl/glfw loop: i runs upwards from 0 and advances after a clear. */
  function ClearUpFrom(rows: seq<Row>, i: nat): (r: seq<Row>)
    requires WellFormed(rows)
    ensures WellFormed(r)
    decreases |rows| - i
  {
    if i >= |rows| then rows
    else
      var next := if IsFull(rows[i]) then RemoveRow(rows, i, BottomLeft) else rows;
      RemoveRowWellFormed(rows, i, BottomLeft);
      ClearUpFrom(next, i + 1)
  }

  /** The sdl loop: i runs downwards from Height-1 and advances after a clear. */
  function ClearDownFrom(rows: seq<Row>, i: int): (r: seq<Row>)
    requires WellFormed(rows) && i < |rows|
    ensures WellFormed(r)
    decreases i + 1
  {
    if i < 0 then rows
    else
      var next := if IsFull(rows[i]) then RemoveRow(rows, i, TopLeft) else rows;
      RemoveRowWellFormed(rows, i, TopLeft);
      ClearDownFrom(next, i - 1)
  }

  /** The line-clear pass at the start of Step, as the loops are written. */
  function ClearFullRows(rows: seq<Row>, v: Variant): (r: seq<Row>)
    requires WellFormed(rows)
    ensures WellFormed(r)
  {
    if v.BottomLeft? then ClearUpFrom(rows, 0) else ClearDownFrom(rows, |rows| - 1)
  }

  lemma {:induction false} ClearUpFromKeepsBelow(rows: seq<Row>, i: nat)
    requires WellFormed(rows)
    ensures forall k :: 0 <= k < i && k < |rows| ==> ClearUpFrom(rows, i)[k] == rows[k]
    decreases |rows| - i
  {
    if i < |rows| {
      var next := if IsFull(rows[i]) then RemoveRow(rows, i, BottomLeft) else rows;
      RemoveRowWellFormed(rows, i, BottomLeft);
      ClearUpFromKeepsBelow(next, i + 1);
    }
  }

  lemma {:induction false} ClearDownFromKeepsAbove(rows: seq<Row>, i: int)
    requires WellFormed(rows) && i < |rows|
    ensures forall k :: i < k < |rows| && 0 <= k ==> ClearDownFrom(rows, i)[k] == rows[k]
    decreases i + 1
  {
    if i >= 0 {
      var next := if IsFull(rows[i]) then RemoveRow(rows, i, TopLeft) else rows;
      RemoveRowWellFormed(rows, i, TopLeft);
      ClearDownFromKeepsAbove(next, i - 1);
    }
  }

  lemma {:induction false} ClearUpFromSkipsNonFull(rows: seq<Row>, i: nat, j: nat)
    requires WellFormed(rows) && i <= j <= |rows|
    requires forall k :: i <= k < j ==> !IsFull(rows[k])
    ensures ClearUpFrom(rows, i) == ClearUpFrom(rows, j)
    decreases j - i
  {
    if i < j {
      ClearUpFromSkipsNonFull(rows, i + 1, j);
    }
  }

  lemma {:induction false} ClearDownFromSkipsNonFull(rows: seq<Row>, i: int, j: int)
    requires WellFormed(rows) && -1 <= j <= i < |rows|
    requires forall k :: j < k <= i ==> !IsFull(rows[k])
    ensures ClearDownFrom(rows, i) == ClearDownFrom(rows, j)
    decreases i - j
  {
    if j < i {
      ClearDownFromSkipsNonFull(rows, i - 1, j);
    }
  }

  /** A board with no full row comes out of the clear pass unchanged. */
  lemma NoFullRowNoChange(rows: seq<Row>, v: Variant)
    requires WellFormed(rows)
    requires forall k :: 0 <= k < |rows| ==> !IsFull(rows[k])
    ensures ClearFullRows(rows, v) == rows
  {
    if v.BottomLeft? {
      ClearUpFromSkipsNonFull(rows, 0, |rows|);
    } else {
      ClearDownFromSkipsNonFull(rows, |rows| - 1, -1);
    }
  }

  /** The rows a clear leaves on the spawn side of i were not full before, or are empty. */
  lemma RemoveRowKeepsNonFull(rows: seq<Row>, i: nat, v: Variant)
    requires i < |rows|
    requires forall k :: 0 <= k < |rows| && k != i ==> !IsFull(rows[k])
    ensures v.BottomLeft? ==> forall k :: i < k < |rows| ==> !IsFull(RemoveRow(rows, i, v)[k])
    ensures v.TopLeft? ==> forall k :: 0 <= k < i ==> !IsFull(RemoveRow(rows, i, v)[k])
  {
    var removed := RemoveRow(rows, i, v);
    if v.BottomLeft? {
      forall k | i < k < |rows| ensures !IsFull(removed[k]) {
        if k < |rows| - 1 {
          assert removed[k] == rows[k + 1];
        } else {
          assert removed[k] == EmptyRow();
        }
      }
    } else {
      forall k | 0 <= k < i ensures !IsFull(removed[k]) {
        if 0 < k {
          assert removed[k] == rows[k - 1];
        } else {
          assert removed[k] == EmptyRow();
        }
      }
    }
  }

  /** With exactly one full row, the clear pass removes that row and nothing else. */
  lemma SingleFullRowCleared(rows: seq<Row>, v: Variant, i: nat)
    requires WellFormed(rows) && i < |rows| && IsFull(rows[i])
    requires forall k :: 0 <= k < |rows| && k != i ==> !IsFull(rows[k])
    ensures ClearFullRows(rows, v) == RemoveRow(rows, i, v)
    ensures BlockCount(ClearFullRows(rows, v)) == BlockCount(rows) - Width
  {
    var removed := RemoveRow(rows, i, v);
    RemoveRowWellFormed(rows, i, v);
    RemoveRowDropsWidth(rows, i, v);
    RemoveRowKeepsNonFull(rows, i, v);
    if v.BottomLeft? {
      ClearUpFromSkipsNonFull(rows, 0, i);
      assert ClearUpFrom(rows, i) == ClearUpFrom(removed, i + 1);
      ClearUpFromSkipsNonFull(removed, i + 1, |rows|);
    } else {
      ClearDownFromSkipsNonFull(rows, |rows| - 1, i);
      assert ClearDownFrom(rows, i) == ClearDownFrom(removed, i - 1);
      ClearDownFromSkipsNonFull(removed, i - 1, -1);
    }
  }

  /**
   * The loop index advances after a clear, so when the first full row met
   * is followed (in scan order) by another full row, the second one slides
   * into the cleared index and is still full after the pass.
   */
  lemma AdjacentFullRowSurvives(rows: seq<Row>, v: Variant, i: nat)
    requires WellFormed(rows) && i < |rows| && IsFull(rows[i])
    requires v.BottomLeft? ==> i + 1 < |rows| && IsFull(rows[i + 1]) && forall k :: 0 <= k < i ==> !IsFull(rows[k])
    requires v.TopLeft? ==> 0 < i && IsFull(rows[i - 1]) && forall k :: i < k < |rows| ==> !IsFull(rows[k])
    ensures IsFull(ClearFullRows(rows, v)[i])
  {
    var removed := RemoveRow(rows, i, v);
    RemoveRowWellFormed(rows, i, v);
    if v.BottomLeft? {
      ClearUpFromSkipsNonFull(rows, 0, i);
      ClearUpFromKeepsBelow(removed, i + 1);
      assert ClearFullRows(rows, v)[i] == rows[i + 1];
    } else {
      ClearDownFromSkipsNonFull(rows, |rows| - 1, i);
      ClearDownFromKeepsAbove(removed, i - 1);
      assert ClearFullRows(rows, v)[i] == rows[i - 1];
    }
  }

  // ---------------------------------------------------------------------
  // Pieces on the board
  // ---------------------------------------------------------------------

  /** Point (i, j) of the piece's grid is filled; it covers board cell (y + i, x + j). */
  predicate PointAt(p: Piece, i: int, j: int) {
    0 <= i < |p.points| && 0 <= j < |p.points[i]| && p.points[i][j]
  }

  /** The edge gravity moves towards, which BoardIntersects guards. */
  predicate OffFarEdge(v: Variant, r: int) {
    if v.BottomLeft? then r < 0 else r >= Height
  }

  /**
   * The piece's box does not cross the spawn edge, which BoardIntersects
   * never checks: the source would index outside the board there.
   */
  predicate NearEdgeInside(p: Piece, v: Variant) {
    if v.BottomLeft? then p.y + |p.points| <= Height else p.y >= 0
  }

  predicate Occupied(rows: seq<Row>, r: int, c: int) {
    0 <= r < |rows| && 0 <= c < |rows[r]| && rows[r][c] != Vacant
  }

  predicate Blocked(rows: seq<Row>, v: Variant, r: int, c: int) {
    OffFarEdge(v, r) || c < 0 || c >= Width || Occupied(rows, r, c)
  }

  /** BoardIntersects: some filled point is off the far edge, off a side, or on a block. */
  ghost predicate Intersects(rows: seq<Row>, p: Piece, v: Variant) {
    exists i, j :: PointAt(p, i, j) && Blocked(rows, v, p.y + i, p.x + j)
  }

  /** Every filled point of the piece lies on the board. */
  ghost predicate InBounds(p: Piece) {
    forall i, j :: PointAt(p, i, j) ==> 0 <= p.y + i < Height && 0 <= p.x + j < Width
  }

  /** BoardIntersects never checks the spawn edge, so no filled point may lie beyond it. */
  ghost predicate NearEdgeClear(p: Piece, v: Variant) {
    forall i, j :: PointAt(p, i, j) ==> if v.BottomLeft? then p.y + i < Height else p.y + i >= 0
  }

  /** What a falling piece keeps true while it falls. */
  ghost predicate PieceOK(p: Piece, v: Variant) {
    && IsSquare(p.points) && |p.points| > 0
    && RotationInvertible(p.points)
    && FilledCount(p.points) > 0
    && NearEdgeInside(p, v)
    && InBounds(p)
  }

  ghost predicate ValidGame(g: Game, v: Variant) {
    WellFormed(g.rows) && (g.falling.Some? ==> PieceOK(g.falling.value, v))
  }

  /** A piece clear of every obstacle lies on the board. */
  lemma FreeMeansInBounds(rows: seq<Row>, p: Piece, v: Variant)
    requires NearEdgeInside(p, v) && !Intersects(rows, p, v)
    ensures InBounds(p)
  {
    forall i, j | PointAt(p, i, j) ensures 0 <= p.y + i < Height && 0 <= p.x + j < Width {
      assert !Blocked(rows, v, p.y + i, p.x + j);
    }
  }

  // ---------------------------------------------------------------------
  // Landing (AddToBoard)
  // ---------------------------------------------------------------------

  /** The order AddToBoard visits points in: column by column, rows within a column. */
  predicate Before(i1: int, j1: int, i2: int, j2: int) {
    j1 < j2 || (j1 == j2 && i1 < i2)
  }

  predicate Collides(rows: seq<Row>, p: Piece, i: int, j: int) {
    PointAt(p, i, j) && Occupied(rows, p.y + i, p.x + j)
  }

  /** AddToBoard has stopped by the time it reaches point (i, j). */
  ghost predicate StoppedBy(rows: seq<Row>, p: Piece, i: int, j: int) {
    exists i', j' :: Collides(rows, p, i', j') && (Before(i', j', i, j) || (i' == i && j' == j))
  }

  ghost predicate Written(rows: seq<Row>, p: Piece, r: int, c: int) {
    PointAt(p, r - p.y, c - p.x) && !StoppedBy(rows, p, r - p.y, c - p.x)
  }

  /**
   * AddToBoard: the piece's colour goes into the cell under each filled
   * point, in column-major order, until a target that already holds a
   * block is met; that write and all later ones are skipped.
   */
  ghost function Land(rows: seq<Row>, p: Piece): (r: seq<Row>)
    ensures |r| == |rows| && forall k :: 0 <= k < |rows| ==> |r[k]| == |rows[k]|
    ensures forall k, c :: 0 <= k < |rows| && 0 <= c < |rows[k]| && r[k][c] != rows[k][c] ==>
      PointAt(p, k - p.y, c - p.x) && r[k][c] == Block(p.color)
  {
    seq(|rows|, k requires 0 <= k < |rows| =>
      seq(|rows[k]|, c requires 0 <= c < |rows[k]| =>
        if Written(rows, p, k, c) then Block(p.color) else rows[k][c]))
  }

  /** Landing only ever writes into cells that were empty. */
  lemma LandOnlyFillsVacantCells(rows: seq<Row>, p: Piece)
    ensures forall k, c :: 0 <= k < |rows| && 0 <= c < |rows[k]| && Land(rows, p)[k][c] != rows[k][c] ==>
      rows[k][c] == Vacant
  {
    forall k, c | 0 <= k < |rows| && 0 <= c < |rows[k]| && Land(rows, p)[k][c] != rows[k][c]
      ensures rows[k][c] == Vacant
    {
      assert !Collides(rows, p, k - p.y, c - p.x);
    }
  }

  /** Landing a piece that overlaps no block colours every cell under it. */
  lemma LandWithoutOverlap(rows: seq<Row>, p: Piece)
    requires WellFormed(rows) && InBounds(p)
    requires forall i, j :: !Collides(rows, p, i, j)
    ensures forall i, j :: PointAt(p, i, j) ==> Land(rows, p)[p.y + i][p.x + j] == Block(p.color)
  {
    forall i, j | PointAt(p, i, j) ensures Land(rows, p)[p.y + i][p.x + j] == Block(p.color) {
      assert Written(rows, p, p.y + i, p.x + j);
    }
  }

  lemma FreeMeansNoCollision(rows: seq<Row>, p: Piece, v: Variant)
    requires !Intersects(rows, p, v)
    ensures forall i, j :: !Collides(rows, p, i, j)
  {

  }

  /** No filled point AddToBoard visits before (i0, j0) lands on a block. */
  ghost predicate ClearBefore(rows: seq<Row>, p: Piece, i0: int, j0: int) {
    forall i, j :: Before(i, j, i0, j0) && Collides(rows, p, i, j) ==> false
  }

  /** cur is rows with the piece's colour written under every filled point before (i0, j0). */
  ghost predicate FilledBefore(cur: seq<Row>, rows: seq<Row>, p: Piece, i0: int, j0: int) {
    && |cur| == |rows|
    && (forall k :: 0 <= k < |rows| ==> |cur[k]| == |rows[k]|)
    && (forall k, c :: 0 <= k < |rows| && 0 <= c < |rows[k]| ==>
          cur[k][c] == if PointAt(p, k - p.y, c - p.x) && Before(k - p.y, c - p.x, i0, j0) then Block(p.color) else rows[k][c])
  }

  lemma RowsExtensionality(a: seq<Row>, b: seq<Row>)
    requires |a| == |b| && forall k :: 0 <= k < |a| ==> |a[k]| == |b[k]|
    requires forall k, c :: 0 <= k < |a| && 0 <= c < |a[k]| ==> a[k][c] == b[k][c]
    ensures a == b
  {
    forall k | 0 <= k < |a| ensures a[k] == b[k] {
      assert forall c :: 0 <= c < |a[k]| ==> a[k][c] == b[k][c];
    }
  }

  /** Meeting an occupied target at (i0, j0) leaves exactly the writes made before it. */
  lemma LandStopsAt(cur: seq<Row>, rows: seq<Row>, p: Piece, i0: int, j0: int)
    requires Collides(rows, p, i0, j0) && ClearBefore(rows, p, i0, j0)
    requires FilledBefore(cur, rows, p, i0, j0)
    ensures cur == Land(rows, p)
  {
    var r := Land(rows, p);
    forall k, c | 0 <= k < |rows| && 0 <= c < |rows[k]| ensures cur[k][c] == r[k][c] {
      var i, j := k - p.y, c - p.x;
      if PointAt(p, i, j) && !Before(i, j, i0, j0) {
        assert Collides(rows, p, i0, j0) && (Before(i0, j0, i, j) || (i0 == i && j0 == j));
      }
    }
    RowsExtensionality(cur, r);
  }

  /** Visiting every point without meeting a block writes the colour under all of them. */
  lemma LandCompletes(cur: seq<Row>, rows: seq<Row>, p: Piece)
    requires IsSquare(p.points)
    requires ClearBefore(rows, p, 0, |p.points|)
    requires FilledBefore(cur, rows, p, 0, |p.points|)
    ensures cur == Land(rows, p)
  {
    var r := Land(rows, p);
    forall k, c | 0 <= k < |rows| && 0 <= c < |rows[k]| ensures cur[k][c] == r[k][c] {
      var i, j := k - p.y, c - p.x;
      if PointAt(p, i, j) && StoppedBy(rows, p, i, j) {
        var i', j' :| Collides(rows, p, i', j') && (Before(i', j', i, j) || (i' == i && j' == j));
        assert Before(i', j', 0, |p.points|);
        assert false;
      }
    }
    RowsExtensionality(cur, r);
  }

  /** Writing the colour under the filled point (i0, j0) moves the written region one point on. */
  lemma FilledAfterWrite(cur: seq<Row>, rows: seq<Row>, p: Piece, i0: int, j0: int)
    requires FilledBefore(cur, rows, p, i0, j0) && PointAt(p, i0, j0)
    requires 0 <= p.y + i0 < |rows| && 0 <= p.x + j0 < |rows[p.y + i0]|
    ensures FilledBefore(cur[p.y + i0 := cur[p.y + i0][p.x + j0 := Block(p.color)]], rows, p, i0 + 1, j0)
  {
  }

  /** Passing over an empty point of the grid writes nothing. */
  lemma FilledAfterSkip(cur: seq<Row>, rows: seq<Row>, p: Piece, i0: int, j0: int)
    requires FilledBefore(cur, rows, p, i0, j0) && !PointAt(p, i0, j0)
    ensures FilledBefore(cur, rows, p, i0 + 1, j0)
  {
  }

  /** A visited point that does not collide keeps the visited region clear. */
  lemma ClearAfterVisit(rows: seq<Row>, p: Piece, i0: int, j0: int)
    requires ClearBefore(rows, p, i0, j0) && !Collides(rows, p, i0, j0)
    ensures ClearBefore(rows, p, i0 + 1, j0)
  {
  }

  /**
   * One visit of AddToBoard at point (i0, j0): the target still holds its
   * original value; if the point is filled and the target occupied, the
   * landing is over; otherwise the visited region grows by that point.
   */
  lemma LandVisit(cur: seq<Row>, rows: seq<Row>, p: Piece, i0: int, j0: int)
    requires WellFormed(rows) && InBounds(p)
    requires ClearBefore(rows, p, i0, j0) && FilledBefore(cur, rows, p, i0, j0)
    ensures PointAt(p, i0, j0) ==>
      && 0 <= p.y + i0 < |cur| && 0 <= p.x + j0 < |cur[p.y + i0]| == Width
      && cur[p.y + i0][p.x + j0] == rows[p.y + i0][p.x + j0]
    ensures PointAt(p, i0, j0) && cur[p.y + i0][p.x + j0] != Vacant ==> cur == Land(rows, p)
    ensures !(PointAt(p, i0, j0) && cur[p.y + i0][p.x + j0] != Vacant) ==> ClearBefore(rows, p, i0 + 1, j0)
    ensures PointAt(p, i0, j0) && cur[p.y + i0][p.x + j0] == Vacant ==>
      FilledBefore(cur[p.y + i0 := cur[p.y + i0][p.x + j0 := Block(p.color)]], rows, p, i0 + 1, j0)
    ensures !PointAt(p, i0, j0) ==> FilledBefore(cur, rows, p, i0 + 1, j0)
  {
    if PointAt(p, i0, j0) {
      if cur[p.y + i0][p.x + j0] != Vacant {
        LandStopsAt(cur, rows, p, i0, j0);
      } else {
        ClearAfterVisit(rows, p, i0, j0);
        FilledAfterWrite(cur, rows, p, i0, j0);
      }
    } else {
      ClearAfterVisit(rows, p, i0, j0);
      FilledAfterSkip(cur, rows, p, i0, j0);
    }
  }

  /** Finishing column j0 of an n x n grid is starting column j0 + 1. */
  lemma ColumnDone(cur: seq<Row>, rows: seq<Row>, p: Piece, j0: int)
    requires IsSquare(p.points)
    requires ClearBefore(rows, p, |p.points|, j0) && FilledBefore(cur, rows, p, |p.points|, j0)
    ensures ClearBefore(rows, p, 0, j0 + 1) && FilledBefore(cur, rows, p, 0, j0 + 1)
  {
  }

  lemma LandWellFormed(rows: seq<Row>, p: Piece)
    requires WellFormed(rows)
    ensures WellFormed(Land(rows, p))
  {
  }

  // ---------------------------------------------------------------------
  // Spawning, gravity, Step
  // ---------------------------------------------------------------------

  /** Where a new piece appears: centred, with its box against the spawn edge. */
  ghost function Spawn(k: Kind, v: Variant): (p: Piece)
    ensures PieceOK(p, v)
    ensures p.x == Width / 2 - |p.points| / 2
    ensures v.BottomLeft? ==> p.y == Height - |p.points|
    ensures v.TopLeft? ==> p.y == 0
  {
    ShippedGrids(k);
    ShippedCounts(k);
    var g := KindGrid(k);
    Piece(g, KindColor(k, PaletteOf(v)), Width / 2 - |g| / 2, if v.BottomLeft? then Height - |g| else 0)
  }

  function Delta(v: Variant): int {
    if v.BottomLeft? then -1 else 1
  }

  function Fall(p: Piece, v: Variant): Piece {
    p.(y := p.y + Delta(v))
  }

  /** One row of gravity: fall if free, otherwise land where it is. */
  ghost function Gravity(rows: seq<Row>, p: Piece, v: Variant): (g: Game)
    requires WellFormed(rows) && PieceOK(p, v)
    ensures ValidGame(g, v)
    ensures g.falling.Some? ==> g.rows == rows && g.falling.value == Fall(p, v) && !Intersects(rows, Fall(p, v), v)
    ensures g.falling.None? ==> g.rows == Land(rows, p)
    ensures g.falling.Some? <==> !Intersects(rows, Fall(p, v), v)
  {
    if Intersects(rows, Fall(p, v), v) then
      LandWellFormed(rows, p);
      Game(Land(rows, p), None)
    else
      FreeMeansInBounds(rows, Fall(p, v), v);
      Game(rows, Some(Fall(p, v)))
  }

  /** Step: clear full rows, spawn a piece of kind k if none is falling, then gravity. */
  ghost function Stepped(g: Game, v: Variant, k: Kind): (r: Game)
    requires ValidGame(g, v)
    ensures ValidGame(r, v)
  {
    var cleared := ClearFullRows(g.rows, v);
    var p := if g.falling.Some? then g.falling.value else Spawn(k, v);
    Gravity(cleared, p, v)
  }

  /**
   * After a Step the piece fell exactly one row onto the cleared board when
   * that row is free, and landed where it was otherwise.
   */
  lemma SteppedOutcome(g: Game, v: Variant, k: Kind)
    requires ValidGame(g, v)
    ensures var p := if g.falling.Some? then g.falling.value else Spawn(k, v);
            var cleared := ClearFullRows(g.rows, v);
            !Intersects(cleared, Fall(p, v), v) ==> Stepped(g, v, k) == Game(cleared, Some(Fall(p, v)))
    ensures var p := if g.falling.Some? then g.falling.value else Spawn(k, v);
            var cleared := ClearFullRows(g.rows, v);
            Intersects(cleared, Fall(p, v), v) ==> Stepped(g, v, k) == Game(Land(cleared, p), None)
  {
  }

  /** On an empty board the spawned O can fall one row. */
  lemma SpawnedOFallsFree(v: Variant)
    ensures !Intersects(EmptyBoard(), Fall(Spawn(O, v), v), v)
  {
    var q := Fall(Spawn(O, v), v);
    forall i, j | PointAt(q, i, j) ensures !Blocked(EmptyBoard(), v, q.y + i, q.x + j) {
      assert 0 <= i < 2 && 0 <= j < 2;
    }
  }

  /** An O spawned on an empty board has fallen exactly one row after the first Step. */
  lemma FirstStepOnEmptyBoard(v: Variant)
    ensures Stepped(Game(EmptyBoard(), None), v, O) == Game(EmptyBoard(), Some(Fall(Spawn(O, v), v)))
  {
    NoFullRowNoChange(EmptyBoard(), v);
    SpawnedOFallsFree(v);
  }

  /** The number of rows a piece can still fall, bounded by the board height. */
  ghost function DropMeasure(p: Piece, v: Variant): (m: int)
    requires PieceOK(p, v)
    ensures 0 < m <= Height
  {
    var c :| c in FilledCells(p.points);
    assert PointAt(p, c.0, c.1);
    if v.BottomLeft? then p.y + |p.points| else Height - p.y
  }

  /** Hard drop: Step until no piece is falling. A piece is falling, so no spawn happens. */
  ghost function HardDropped(g: Game, v: Variant): (r: Game)
    requires ValidGame(g, v) && g.falling.Some?
    ensures ValidGame(r, v) && r.falling.None?
    decreases DropMeasure(g.falling.value, v)
  {
    var next := Stepped(g, v, RandomOrder[0]);
    if next.falling.None? then next else HardDropped(next, v)
  }

  /** A Step that leaves the piece falling leaves it one row closer to the far edge. */
  lemma SteppedLowersDrop(g: Game, v: Variant, k: Kind)
    requires ValidGame(g, v) && g.falling.Some?
    ensures var next := Stepped(g, v, k);
            next.falling.Some? ==> DropMeasure(next.falling.value, v) == DropMeasure(g.falling.value, v) - 1
  {
  }

  /** The number of Steps a hard drop takes: at least one and at most Height. */
  ghost function DropSteps(g: Game, v: Variant): (n: nat)
    requires ValidGame(g, v) && g.falling.Some?
    ensures 1 <= n <= DropMeasure(g.falling.value, v) <= Height
    decreases DropMeasure(g.falling.value, v)
  {
    var next := Stepped(g, v, RandomOrder[0]);
    if next.falling.None? then 1 else 1 + DropSteps(next, v)
  }

  /** Step applied n times, each spawning the first kind if nothing is falling. */
  ghost function SteppedTimes(g: Game, v: Variant, n: nat): (r: Game)
    requires ValidGame(g, v)
    ensures ValidGame(r, v)
    decreases n
  {
    if n == 0 then g else SteppedTimes(Stepped(g, v, RandomOrder[0]), v, n - 1)
  }

  /**
   * The hard drop is DropSteps Steps: the piece is still falling before each
   * of them, and nothing is falling after the last.
   */
  lemma {:induction false} HardDropIsDropSteps(g: Game, v: Variant)
    requires ValidGame(g, v) && g.falling.Some?
    ensures HardDropped(g, v) == SteppedTimes(g, v, DropSteps(g, v))
    ensures forall n :: 0 <= n < DropSteps(g, v) ==> SteppedTimes(g, v, n).falling.Some?
    decreases DropMeasure(g.falling.value, v)
  {
    var next := Stepped(g, v, RandomOrder[0]);
    assert SteppedTimes(g, v, 1) == SteppedTimes(next, v, 0);
    if next.falling.Some? {
      SteppedLowersDrop(g, v, RandomOrder[0]);
      HardDropIsDropSteps(next, v);
      var m := DropSteps(next, v);
      assert SteppedTimes(g, v, 1 + m) == SteppedTimes(next, v, m);
      forall n | 0 <= n < DropSteps(g, v) ensures SteppedTimes(g, v, n).falling.Some? {
        if n > 0 {
          assert SteppedTimes(g, v, n) == SteppedTimes(next, v, n - 1);
        }
      }
    }
  }

  // ---------------------------------------------------------------------
  // Inputs
  // ---------------------------------------------------------------------

  ghost function TryShift(rows: seq<Row>, p: Piece, v: Variant, dx: int): (q: Piece)
    requires WellFormed(rows) && PieceOK(p, v)
    ensures PieceOK(q, v)
    ensures q == p || (q == p.(x := p.x + dx) && !Intersects(rows, q, v))
    ensures q.y == p.y && q.color == p.color && q.points == p.points
    ensures Intersects(rows, p.(x := p.x + dx), v) ==> q == p
    ensures !Intersects(rows, p.(x := p.x + dx), v) ==> q == p.(x := p.x + dx)
  {
    var moved := p.(x := p.x + dx);
    if Intersects(rows, moved, v) then
      moved.(x := moved.x - dx)
    else
      ClockwiseKeepsFilledCount(p.points);
      FreeMeansInBounds(rows, moved, v);
      moved
  }

  /** Up: rotate counter-clockwise, rotate back clockwise if that intersects. */
  ghost function TryRotateCCW(rows: seq<Row>, p: Piece, v: Variant): (q: Piece)
    requires WellFormed(rows) && PieceOK(p, v)
    ensures PieceOK(q, v)
    ensures q == p || (q == p.(points := RotatedCCW(p.points)) && !Intersects(rows, q, v))
    ensures q.x == p.x && q.y == p.y && q.color == p.color
    ensures Intersects(rows, p.(points := RotatedCCW(p.points)), v) ==> q == p
    ensures !Intersects(rows, p.(points := RotatedCCW(p.points)), v) ==> q == p.(points := RotatedCCW(p.points))
  {
    RotationsUndoEachOther(p.points);
    RotationsKeepInvertible(p.points);
    CounterClockwiseKeepsFilledCount(p.points);
    var turned := p.(points := RotatedCCW(p.points));
    if Intersects(rows, turned, v) then
      turned.(points := RotatedCW(turned.points))
    else
      FreeMeansInBounds(rows, turned, v);
      turned
  }

  /** Down: rotate clockwise, rotate back counter-clockwise if that intersects. */
  ghost function TryRotateCW(rows: seq<Row>, p: Piece, v: Variant): (q: Piece)
    requires WellFormed(rows) && PieceOK(p, v)
    ensures PieceOK(q, v)
    ensures q == p || (q == p.(points := RotatedCW(p.points)) && !Intersects(rows, q, v))
    ensures q.x == p.x && q.y == p.y && q.color == p.color
    ensures Intersects(rows, p.(points := RotatedCW(p.points)), v) ==> q == p
    ensures !Intersects(rows, p.(points := RotatedCW(p.points)), v) ==> q == p.(points := RotatedCW(p.points))
  {
    RotationsUndoEachOther(p.points);
    RotationsKeepInvertible(p.points);
    ClockwiseKeepsFilledCount(p.points);
    var turned := p.(points := RotatedCW(p.points));
    if Intersects(rows, turned, v) then
      turned.(points := RotatedCCW(turned.points))
    else
      FreeMeansInBounds(rows, turned, v);
      turned
  }

  /**
   * The rotations and moves of one frame, in ApplyInputs' order: Up, Down,
   * Left, Right, each tried and reverted if it intersects. They never move
   * the piece vertically, never change its colour, and shift it at most one
   * column either way.
   */
  ghost function MovesApplied(rows: seq<Row>, p: Piece, v: Variant, e: Edges): (q: Piece)
    requires WellFormed(rows) && PieceOK(p, v)
    ensures PieceOK(q, v)
    ensures q.y == p.y && q.color == p.color && p.x - 1 <= q.x <= p.x + 1
  {
    var p1 := if e.up then TryRotateCCW(rows, p, v) else p;
    var p2 := if e.down then TryRotateCW(rows, p1, v) else p1;
    var p3 := if e.left then TryShift(rows, p2, v, -1) else p2;
    if e.right then TryShift(rows, p3, v, 1) else p3
  }

  /** ApplyInputs: hard drop on a Space edge, then the rotations and moves of the frame. */
  ghost function InputsApplied(g: Game, v: Variant, e: Edges): (r: Game)
    requires ValidGame(g, v)
    ensures ValidGame(r, v)
    ensures g.falling.None? ==> r == g
    ensures e.space && g.falling.Some? ==> r == HardDropped(g, v)
    ensures !(e.space && g.falling.Some?) ==> r.rows == g.rows
    ensures !e.space && g.falling.Some? ==> r.falling == Some(MovesApplied(g.rows, g.falling.value, v, e))
  {
    var g1 := if e.space && g.falling.Some? then HardDropped(g, v) else g;
    if g1.falling.None? then g1
    else Game(g1.rows, Some(MovesApplied(g1.rows, g1.falling.value, v, e)))
  }
}
