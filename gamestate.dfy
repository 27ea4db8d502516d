/**
 * The game state of each build: a board of Height rows of Width cells, held
 * in an array whose rows the line clear shifts in place, plus the falling
 * shape, which Step creates, moves and drops. Every method is proved to
 * compute a value-level operation of module Rules: BoardIntersects gives
 * Intersects, AddToBoard gives Land, the two line clears give ClearUpFrom
 * and ClearDownFrom, Descend gives Gravity, Step gives Stepped, DropAll
 * gives HardDropped, the three Try methods give TryRotateCCW, TryRotateCW
 * and TryShift, ApplyMoves gives MovesApplied and ApplyInputs gives
 * InputsApplied.
 */
module Gamestate {
  import opened Grids
  import opened Tetronimoes
  import opened Rules
  import Keyboard

  /** filled: true iff no cell of the row is empty. */
  method Filled(row: Row) returns (full: bool)
    ensures full == IsFull(row)
  {
    var i := 0;
    while i < |row|
      invariant 0 <= i <= |row|
      invariant forall c :: 0 <= c < i ==> row[c] != Vacant
    {
      if row[i] == Vacant {
        return false;
      }
      i := i + 1;
    }
    return true;
  }

  /** empty: true iff no cell of the row holds a block. */
  method Empty(row: Row) returns (empty: bool)
    ensures empty == IsClear(row)
  {
    var i := 0;
    while i < |row|
      invariant 0 <= i <= |row|
      invariant forall c :: 0 <= c < i ==> row[c] == Vacant
    {
      if row[i] != Vacant {
        return false;
      }
      i := i + 1;
    }
    return true;
  }

  /** The key transitions ApplyInputs reacts to: down in this frame and up in the one before. */
  function EdgesOf(h: Keyboard.Handler): Edges
    reads h
  {
    Edges(h.SpacePressed() && !h.WasSpacePressed(),
          h.UpPressed() && !h.WasUpPressed(),
          h.DownPressed() && !h.WasDownPressed(),
          h.LeftPressed() && !h.WasLeftPressed(),
          h.RightPressed() && !h.WasRightPressed())
  }

  class State {
    const variant: Variant
    var board: array<Row>
    var falling: Shape?

    ghost predicate BoardOK()
      reads this, board
    {
      board.Length == Height && WellFormed(board[..])
    }

    ghost predicate Valid()
      reads this, board, falling
    {
      BoardOK() && (falling != null ==> falling.Valid() && PieceOK(falling.Snapshot(), variant))
    }

    function Rows(): seq<Row>
      reads this, board
    {
      board[..]
    }

    /** The state as a value: the board's rows and the falling piece, if any. */
    function Current(): Game
      reads this, board, falling
    {
      Game(board[..], if falling == null then None else Some(falling.Snapshot()))
    }

    /** NewState: Height empty rows of Width cells and no falling piece. */
    constructor (variant: Variant)
      ensures this.variant == variant
      ensures Valid() && fresh(board)
      ensures Current() == Game(EmptyBoard(), None)
    {
      this.variant := variant;
      var b := new Row[Height];
      var row := 0;
      while row < Height
        invariant 0 <= row <= Height
        invariant forall k :: 0 <= k < row ==> b[k] == EmptyRow()
      {
        b[row] := EmptyRow();
        row := row + 1;
      }
      assert b[..] == EmptyBoard();
      board := b;
      falling := null;
    }

    /**
     * BoardIntersects: whether some filled point of the shape is off the
     * far edge, off a side, or on a block. A nil shape intersects nothing.
     */
    method BoardIntersects(shape: Shape?) returns (hit: bool)
      requires BoardOK()
      requires shape != null ==> shape.Valid() && NearEdgeClear(shape.Snapshot(), variant)
      ensures hit == (shape != null && Intersects(Rows(), shape.Snapshot(), variant))
    {
      if shape == null {
        return false;
      }
      var points := shape.points;
      var ox, oy := shape.x, shape.y;
      ghost var p := shape.Snapshot();
      var col := ox;
      while col < |points| + ox
        invariant ox <= col <= |points| + ox
        invariant forall i, j :: PointAt(p, i, j) && j < col - ox ==> !Blocked(board[..], variant, oy + i, ox + j)
      {
        var row := oy;
        ghost var j0 := col - ox;
        while row < |points| + oy
          invariant oy <= row <= |points| + oy
          invariant forall i, j :: PointAt(p, i, j) && j < col - ox ==> !Blocked(board[..], variant, oy + i, ox + j)
          invariant forall i :: PointAt(p, i, j0) && i < row - oy ==> !Blocked(board[..], variant, oy + i, col)
        {
          if points[row - oy][col - ox] {
            assert PointAt(p, row - oy, col - ox);
            if OffFarEdge(variant, row) {
              assert Blocked(board[..], variant, oy + (row - oy), ox + (col - ox));
              return true;
            }
            if col < 0 || col >= Width {
              assert Blocked(board[..], variant, oy + (row - oy), ox + (col - ox));
              return true;
            }
            if board[row][col] != Vacant {
              assert Blocked(board[..], variant, oy + (row - oy), ox + (col - ox));
              return true;
            }
          }
          row := row + 1;
        }
        col := col + 1;
      }
      return false;
    }

    /**
     * AddToBoard: writes the shape's colour under its filled points, column
     * by column, and gives up at the first target that already holds a block.
     */
    method AddToBoard(shape: Shape?)
      requires BoardOK()
      requires shape != null ==> shape.Valid() && InBounds(shape.Snapshot())
      modifies board
      ensures BoardOK()
      ensures Rows() == if shape == null then old(Rows()) else Land(old(Rows()), shape.Snapshot())
    {
      if shape == null {
        return;
      }
      var points := shape.points;
      var ox, oy := shape.x, shape.y;
      var color := shape.color;
      ghost var p := shape.Snapshot();
      ghost var orig := board[..];
      var col := ox;
      while col < |points| + ox
        invariant ox <= col <= |points| + ox
        invariant board.Length == Height
        invariant ClearBefore(orig, p, 0, col - ox)
        invariant FilledBefore(board[..], orig, p, 0, col - ox)
      {
        var stopped := LandColumn(points, ox, oy, color, col, p, orig);
        if stopped {
          return;
        }
        col := col + 1;
      }
      LandCompletes(board[..], orig, p);
    }

    /**
     * One column of AddToBoard's loop: writes the colour under the column's
     * filled points, top to bottom of the grid, and reports whether it met
     * an occupied target, at which point the whole landing is over.
     */
    method LandColumn(points: Grid, ox: int, oy: int, color: Rgba, col: int, ghost p: Piece, ghost orig: seq<Row>)
      returns (stopped: bool)
      requires p == Piece(points, color, ox, oy) && IsSquare(points) && InBounds(p)
      requires board.Length == Height && WellFormed(orig) && ox <= col < |points| + ox
      requires ClearBefore(orig, p, 0, col - ox) && FilledBefore(board[..], orig, p, 0, col - ox)
      modifies board
      ensures board.Length == Height
      ensures stopped ==> board[..] == Land(orig, p)
      ensures !stopped ==> ClearBefore(orig, p, 0, col - ox + 1) && FilledBefore(board[..], orig, p, 0, col - ox + 1)
    {
      var row := oy;
      while row < |points| + oy
        invariant oy <= row <= |points| + oy
        invariant board.Length == Height
        invariant ClearBefore(orig, p, row - oy, col - ox)
        invariant FilledBefore(board[..], orig, p, row - oy, col - ox)
      {
        ghost var cur := board[..];
        LandVisit(cur, orig, p, row - oy, col - ox);
        if points[row - oy][col - ox] {
          if board[row][col] != Vacant {
            return true;
          }
          board[row] := board[row][col := Block(color)];
          assert board[..] == cur[row := cur[row][col := Block(color)]];
        }
        row := row + 1;
      }
      ColumnDone(board[..], orig, p, col - ox);
      return false;
    }

    /** Removes full row i bottom-left style: the rows above it move down one place, the top row is emptied. */
    method ShiftDownOnto(i: nat)
      requires BoardOK() && i < Height
      modifies board
      ensures BoardOK()
      ensures Rows() == RemoveRow(old(Rows()), i, BottomLeft)
    {
      ghost var before := board[..];
      RemoveRowWellFormed(before, i, BottomLeft);
      board[i] := EmptyRow();
      var j := i;
      while j < Height - 1
        invariant i <= j <= Height - 1 && board.Length == Height
        invariant forall k :: 0 <= k < i ==> board[k] == before[k]
        invariant forall k :: i <= k < j ==> board[k] == before[k + 1]
        invariant j == i ==> board[i] == EmptyRow()
        invariant forall k :: j <= k < Height && k != i ==> board[k] == before[k]
      {
        board[j] := board[j + 1];
        j := j + 1;
      }
      board[Height - 1] := EmptyRow();
      assert board[..] == RemoveRow(before, i, BottomLeft);
    }

    /** Removes full row i top-left style: the rows above it (smaller indices) move down one place, row 0 is emptied. */
    method ShiftUpOnto(i: nat)
      requires BoardOK() && i < Height
      modifies board
      ensures BoardOK()
      ensures Rows() == RemoveRow(old(Rows()), i, TopLeft)
    {
      ghost var before := board[..];
      RemoveRowWellFormed(before, i, TopLeft);
      board[i] := EmptyRow();
      var j := i;
      while j > 0
        invariant 0 <= j <= i && board.Length == Height
        invariant forall k :: i < k < Height ==> board[k] == before[k]
        invariant forall k :: j < k <= i ==> board[k] == before[k - 1]
        invariant j == i ==> board[i] == EmptyRow()
        invariant forall k :: 0 <= k <= j && k != i ==> board[k] == before[k]
      {
        board[j] := board[j - 1];
        j := j - 1;
      }
      board[0] := EmptyRow();
      assert board[..] == RemoveRow(before, i, TopLeft);
    }

    /** The webgl/glfw line clear: scan upwards from row 0, removing each row found full. */
    method ClearRowsBottomLeft()
      requires BoardOK()
      modifies board
      ensures BoardOK()
      ensures Rows() == ClearUpFrom(old(Rows()), 0)
    {
      var i := 0;
      while i < board.Length
        invariant 0 <= i <= board.Length
        invariant BoardOK()
        invariant ClearUpFrom(board[..], i) == ClearUpFrom(old(board[..]), 0)
      {
        var full := Filled(board[i]);
        if full {
          ShiftDownOnto(i);
        }
        i := i + 1;
      }
    }

    /** The sdl line clear: scan downwards from row Height-1, removing each row found full. */
    method ClearRowsTopLeft()
      requires BoardOK()
      modifies board
      ensures BoardOK()
      ensures Rows() == ClearDownFrom(old(Rows()), Height - 1)
    {
      var i := board.Length - 1;
      while i >= 0
        invariant -1 <= i < board.Length
        invariant BoardOK()
        invariant ClearDownFrom(board[..], i) == ClearDownFrom(old(board[..]), Height - 1)
      {
        var full := Filled(board[i]);
        if full {
          ShiftUpOnto(i);
        }
        i := i - 1;
      }
    }

    /**
     * Step: clear full rows, spawn the chosen shape if nothing is falling,
     * then move the piece one row towards the far edge, or land it there.
     */
    method Step(choice: nat)
      requires Valid() && choice < |RandomOrder|
      modifies this, board, falling
      ensures Valid() && board == old(board)
      ensures Current() == Stepped(old(Current()), variant, RandomOrder[choice])
      ensures old(falling) != null ==> falling == null || falling == old(falling)
    {
      ghost var g := Current();
      if variant.BottomLeft? {
        ClearRowsBottomLeft();
      } else {
        ClearRowsTopLeft();
      }
      assert Rows() == ClearFullRows(g.rows, variant);
      SpawnIfIdle(choice);
      Descend();
    }

    /** Step's spawn: with nothing falling, the chosen shape appears centred against the spawn edge. */
    method SpawnIfIdle(choice: nat)
      requires Valid() && choice < |RandomOrder|
      modifies this
      ensures Valid() && board == old(board) && falling != null
      ensures old(falling) == null ==> fresh(falling) && falling.Snapshot() == Spawn(RandomOrder[choice], variant)
      ensures old(falling) != null ==> falling == old(falling) && falling.Snapshot() == old(falling.Snapshot())
    {
      if falling == null {
        var s := NewRandomShape(choice, PaletteOf(variant));
        s.x := Width / 2 - |s.points| / 2;
        s.y := if variant.BottomLeft? then board.Length - |s.points[0]| else 0;
        falling := s;
        assert falling.Snapshot() == Spawn(RandomOrder[choice], variant);
      }
    }

    /** Step's gravity: move the piece one row towards the far edge, or land it where it is. */
    method Descend()
      requires Valid() && falling != null
      modifies this, board, falling
      ensures Valid() && board == old(board)
      ensures Current() == Gravity(old(Rows()), old(falling.Snapshot()), variant)
      ensures falling == null || falling == old(falling)
    {
      ghost var p := falling.Snapshot();
      falling.y := falling.y + Delta(variant);
      assert falling.Snapshot() == Fall(p, variant);
      var hit := BoardIntersects(falling);
      if hit {
        falling.y := falling.y - Delta(variant);
        AddToBoard(falling);
        falling := null;
      } else {
        FreeMeansInBounds(Rows(), Fall(p, variant), variant);
      }
    }

    /** The hard drop: Step until no piece is falling. */
    method DropAll()
      requires Valid() && falling != null
      modifies this, board, falling
      ensures Valid() && board == old(board) && falling == null
      ensures Current() == HardDropped(old(Current()), variant)
    {
      ghost var g0 := Current();
      while falling != null
        invariant Valid() && board == old(board)
        invariant falling == null || falling == old(falling)
        invariant falling == null ==> Current() == HardDropped(g0, variant)
        invariant falling != null ==> HardDropped(Current(), variant) == HardDropped(g0, variant)
        decreases if falling == null then 0 else DropMeasure(falling.Snapshot(), variant)
      {
        SteppedLowersDrop(Current(), variant, RandomOrder[0]);
        Step(0);
      }
    }

    /** Up: rotate counter-clockwise and rotate back if the result intersects. */
    method TryRotateCounterClockwise()
      requires Valid() && falling != null
      modifies falling
      ensures Valid() && falling == old(falling)
      ensures falling.Snapshot() == TryRotateCCW(Rows(), old(falling.Snapshot()), variant)
    {
      ghost var p := falling.Snapshot();
      falling.RotateCounterClockwise();
      var hit := BoardIntersects(falling);
      if hit {
        falling.RotateClockwise();
      }
      assert falling.Snapshot() == TryRotateCCW(Rows(), p, variant);
    }

    /** Down: rotate clockwise and rotate back if the result intersects. */
    method TryRotateClockwise()
      requires Valid() && falling != null
      modifies falling
      ensures Valid() && falling == old(falling)
      ensures falling.Snapshot() == TryRotateCW(Rows(), old(falling.Snapshot()), variant)
    {
      ghost var p := falling.Snapshot();
      falling.RotateClockwise();
      var hit := BoardIntersects(falling);
      if hit {
        falling.RotateCounterClockwise();
      }
      assert falling.Snapshot() == TryRotateCW(Rows(), p, variant);
    }

    /** Left or Right: move the origin by dx columns and move it back if the result intersects. */
    method TryMove(dx: int)
      requires Valid() && falling != null
      modifies falling
      ensures Valid() && falling == old(falling)
      ensures falling.Snapshot() == TryShift(Rows(), old(falling.Snapshot()), variant, dx)
    {
      falling.x := falling.x + dx;
      var hit := BoardIntersects(falling);
      if hit {
        falling.x := falling.x - dx;
      }
    }

    /**
     * ApplyInputs: on a Space edge, Step until the piece has landed; then,
     * for each of Up, Down, Left and Right pressed in this frame only, try
     * the rotation or move and undo it if the result intersects.
     */
    method ApplyInputs(h: Keyboard.Handler)
      requires Valid()
      modifies this, board, falling
      ensures Valid() && board == old(board)
      ensures Current() == InputsApplied(old(Current()), variant, EdgesOf(h))
    {
      var e := EdgesOf(h);
      if e.space && falling != null {
        DropAll();
      }
      if falling != null {
        ApplyMoves(e);
      }
    }

    /** The rotations and moves of ApplyInputs, for the key edges of one frame. */
    method ApplyMoves(e: Edges)
      requires Valid() && falling != null
      modifies falling
      ensures Valid() && falling == old(falling)
      ensures falling.Snapshot() == MovesApplied(Rows(), old(falling.Snapshot()), variant, e)
    {
      ghost var p0 := falling.Snapshot();
      if e.up {
        TryRotateCounterClockwise();
      }
      ghost var p1 := falling.Snapshot();
      assert p1 == if e.up then TryRotateCCW(Rows(), p0, variant) else p0;
      if e.down {
        TryRotateClockwise();
      }
      ghost var p2 := falling.Snapshot();
      assert p2 == if e.down then TryRotateCW(Rows(), p1, variant) else p1;
      if e.left {
        TryMove(-1);
      }
      ghost var p3 := falling.Snapshot();
      assert p3 == if e.left then TryShift(Rows(), p2, variant, -1) else p2;
      if e.right {
        TryMove(1);
      }
    }
  }
}
