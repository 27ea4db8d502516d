/**
 * The square boolean grids that tetrominoes are made of, and the three
 * matrix operations rotation is built from: transpose, reversal of a row,
 * and reversal of the row order ("reverseColumns"). A grid is a value here;
 * the source's in-place swaps are the loops of the methods below, each of
 * which is proved against a specification function.
 */
module Grids {

  type Grid = seq<seq<bool>>

  predicate IsSquare(g: Grid) {
    forall i :: 0 <= i < |g| ==> |g[i]| == |g|
  }

  /** The (row, column) positions of the filled points of a grid. */
  function FilledCells(g: Grid): set<(int, int)> {
    set i, j | 0 <= i < |g| && 0 <= j < |g[i]| && g[i][j] :: (i, j)
  }

  function FilledCount(g: Grid): nat {
    |FilledCells(g)|
  }

  // ---------------------------------------------------------------------
  // Specification functions
  // ---------------------------------------------------------------------

  function Transposed(g: Grid): (t: Grid)
    requires IsSquare(g)
    ensures IsSquare(t) && |t| == |g|
    ensures forall i, j :: 0 <= i < |g| && 0 <= j < |g| ==> t[i][j] == g[j][i]
  {
    seq(|g|, i requires 0 <= i < |g| => seq(|g|, j requires 0 <= j < |g| => g[j][i]))
  }

  function Reversed(s: seq<bool>): (r: seq<bool>)
    ensures |r| == |s|
    ensures forall k :: 0 <= k < |s| ==> r[k] == s[|s| - 1 - k]
  {
    seq(|s|, k requires 0 <= k < |s| => s[|s| - 1 - k])
  }

  /**
   * Where row k of the result of reverseColumns comes from. The loop runs
   * `row <= len/2`: for an odd size the last iteration swaps the middle row
   * with itself, but for an even size it swaps the two middle rows back, so
   * they end up where they started.
   */
  function RowSource(n: nat, k: nat): (src: nat)
    requires k < n
    ensures src < n
  {
    if n % 2 == 0 && (k == n / 2 - 1 || k == n / 2) then k else n - 1 - k
  }

  /** The grid reverseColumns returns, as its loop is written. */
  function ReversedColumns(g: Grid): (r: Grid)
    requires IsSquare(g)
    ensures IsSquare(r) && |r| == |g|
  {
    seq(|g|, k requires 0 <= k < |g| => g[RowSource(|g|, k)])
  }

  /** RotateClockwise: transpose, then reverse each row. */
  function RotatedCW(g: Grid): (r: Grid)
    requires IsSquare(g)
    ensures IsSquare(r) && |r| == |g|
    ensures forall i, j :: 0 <= i < |g| && 0 <= j < |g| ==> r[i][j] == g[|g| - 1 - j][i]
  {
    var t := Transposed(g);
    seq(|g|, i requires 0 <= i < |g| => Reversed(t[i]))
  }

  /** RotateCounterClockwise: transpose, then reverseColumns. */
  function RotatedCCW(g: Grid): (r: Grid)
    requires IsSquare(g)
    ensures IsSquare(r) && |r| == |g|
    ensures forall k, j :: 0 <= k < |g| && 0 <= j < |g| ==> r[k][j] == g[j][RowSource(|g|, k)]
  {
    ReversedColumns(Transposed(g))
  }

  /**
   * The grids on which the try-and-revert of a rotation restores the grid:
   * an odd size, or every point filled (the 2x2 O piece).
   */
  predicate RotationInvertible(g: Grid) {
    IsSquare(g) && (|g| % 2 == 1 || forall i, j :: 0 <= i < |g| && 0 <= j < |g| ==> g[i][j])
  }

  /** A grid whose rows are the reversed rows of the transpose is the clockwise turn. */
  lemma ReversedRowsOfTranspose(g: Grid, r: seq<seq<bool>>)
    requires IsSquare(g) && |r| == |g|
    requires forall k :: 0 <= k < |g| ==> r[k] == Reversed(Transposed(g)[k])
    ensures r == RotatedCW(g)
  {
    var t := Transposed(g);
    var cw := seq(|g|, i requires 0 <= i < |g| => Reversed(t[i]));
    assert r == cw;
  }

  // ---------------------------------------------------------------------
  // The source's loops
  // ---------------------------------------------------------------------

  /** transpose: a fresh grid filled pairwise from the diagonal outwards. */
  method Transpose(a: Grid) returns (ret: Grid)
    requires IsSquare(a)
    ensures ret == Transposed(a)
  {
    var n := |a|;
    ret := seq(n, _ => seq(n, _ => false));
    for i := 0 to n
      invariant |ret| == n && IsSquare(ret)
      invariant forall p, q :: 0 <= p < n && 0 <= q < n && (p < i || q < i) ==> ret[p][q] == a[q][p]
    {
      for j := i to n
        invariant |ret| == n && IsSquare(ret)
        invariant forall p, q :: 0 <= p < n && 0 <= q < n && (p < i || q < i) ==> ret[p][q] == a[q][p]
        invariant forall q :: i <= q < j ==> ret[i][q] == a[q][i] && ret[q][i] == a[i][q]
      {
        ret := ret[i := ret[i][j := a[j][i]]];
        ret := ret[j := ret[j][i := a[i][j]]];
      }
    }
    GridExtensionality(ret, Transposed(a));
  }

  /** reverse: swap the ends of a row towards the middle. */
  method Reverse(a: seq<bool>) returns (r: seq<bool>)
    ensures r == Reversed(a)
  {
    var n := |a|;
    r := a;
    for i := 0 to n / 2
      invariant |r| == n
      invariant forall k :: 0 <= k < i ==> r[k] == a[n - 1 - k] && r[n - 1 - k] == a[k]
      invariant forall k :: i <= k < n - i ==> r[k] == a[k]
    {
      assert i < n - 1 - i;
      var front, back := r[i], r[n - 1 - i];
      r := r[i := back][n - 1 - i := front];
    }
  }

  /** Where row k stands after the first `done` iterations of reverseColumns. */
  function SwappedSource(n: nat, done: nat, k: nat): (src: nat)
    requires k < n && done <= n / 2 + 1
    ensures src < n
  {
    if done <= n / 2 then (if k < done || n - 1 - k < done then n - 1 - k else k)
    else RowSource(n, k)
  }

  lemma SwapStep(n: nat, done: nat, k: nat)
    requires k < n && done <= n / 2
    ensures SwappedSource(n, done + 1, k) ==
      if k == done then SwappedSource(n, done, n - 1 - done)
      else if k == n - 1 - done then SwappedSource(n, done, done)
      else SwappedSource(n, done, k)
  {
  }

  /** One pass of reverseColumns' outer loop: rows i and j trade places, point by point. */
  method SwapRows(g: Grid, i: nat, j: nat) returns (r: Grid)
    requires IsSquare(g) && i < |g| && j < |g|
    ensures |r| == |g| && r[i] == g[j] && r[j] == g[i]
    ensures forall k :: 0 <= k < |g| && k != i && k != j ==> r[k] == g[k]
  {
    r := g;
    for col := 0 to |g|
      invariant |r| == |g| && |r[i]| == |g| && |r[j]| == |g|
      invariant forall k :: 0 <= k < |g| && k != i && k != j ==> r[k] == g[k]
      invariant forall c :: 0 <= c < col ==> r[i][c] == g[j][c] && r[j][c] == g[i][c]
      invariant forall c :: col <= c < |g| ==> r[i][c] == g[i][c] && r[j][c] == g[j][c]
    {
      var top, bottom := r[i][col], r[j][col];
      r := r[i := r[i][col := bottom]];
      r := r[j := r[j][col := top]];
    }
  }

  /** reverseColumns: swap row `row` with row `len-1-row`, for row <= len/2. */
  method ReverseColumns(a: Grid) returns (r: Grid)
    requires IsSquare(a) && |a| > 0
    ensures r == ReversedColumns(a)
  {
    var n := |a|;
    r := a;
    var row := 0;
    while row <= n / 2
      invariant 0 <= row <= n / 2 + 1
      invariant |r| == n
      invariant forall k :: 0 <= k < n ==> r[k] == a[SwappedSource(n, row, k)]
    {
      r := SwapRows(r, row, n - 1 - row);
      forall k | 0 <= k < n
        ensures r[k] == a[SwappedSource(n, row + 1, k)]
      {
        SwapStep(n, row, k);
      }
      row := row + 1;
    }
    assert forall k :: 0 <= k < n ==> r[k] == ReversedColumns(a)[k];
  }

  // ---------------------------------------------------------------------
  // Laws
  // ---------------------------------------------------------------------

  /** Two square grids of one size with the same points are equal. */
  lemma GridExtensionality(a: Grid, b: Grid)
    requires IsSquare(a) && IsSquare(b) && |a| == |b|
    requires forall i, j :: 0 <= i < |a| && 0 <= j < |a| ==> a[i][j] == b[i][j]
    ensures a == b
  {
    forall i | 0 <= i < |a| ensures a[i] == b[i] {
      assert forall j :: 0 <= j < |a| ==> a[i][j] == b[i][j];
    }
  }

  lemma TransposeInvolution(g: Grid)
    requires IsSquare(g)
    ensures Transposed(Transposed(g)) == g
  {
    GridExtensionality(Transposed(Transposed(g)), g);
  }

  lemma ReverseInvolution(s: seq<bool>)
    ensures Reversed(Reversed(s)) == s
  {
    assert forall k :: 0 <= k < |s| ==> Reversed(Reversed(s))[k] == s[k];
  }

  /** For an odd size reverseColumns reverses the order of the rows. */
  lemma ReversedColumnsOddSize(g: Grid)
    requires IsSquare(g) && |g| % 2 == 1
    ensures ReversedColumns(g) == seq(|g|, k requires 0 <= k < |g| => g[|g| - 1 - k])
  {
  }

  /** For an even size the two middle rows stay put: a 2x2 grid is unchanged. */
  lemma ReversedColumnsEvenSize(g: Grid)
    requires IsSquare(g) && |g| % 2 == 0
    ensures |g| == 2 ==> ReversedColumns(g) == g
    ensures forall k :: 0 <= k < |g| && (k == |g| / 2 - 1 || k == |g| / 2) ==> ReversedColumns(g)[k] == g[k]
  {
    if |g| == 2 {
      assert ReversedColumns(g)[0] == g[0] && ReversedColumns(g)[1] == g[1];
    }
  }

  /** The grid turned upside down: point [i][j] goes to [n-1-i][n-1-j]. */
  function UpsideDown(g: Grid): (r: Grid)
    requires IsSquare(g)
    ensures IsSquare(r) && |r| == |g|
    ensures forall i, j :: 0 <= i < |g| && 0 <= j < |g| ==> r[i][j] == g[|g| - 1 - i][|g| - 1 - j]
  {
    seq(|g|, i requires 0 <= i < |g| => Reversed(g[|g| - 1 - i]))
  }

  /** Two clockwise turns turn the grid upside down. */
  lemma HalfTurn(g: Grid)
    requires IsSquare(g)
    ensures RotatedCW(RotatedCW(g)) == UpsideDown(g)
  {
    var n := |g|;
    var r1 := RotatedCW(g);
    var r2 := RotatedCW(r1);
    var u := UpsideDown(g);
    forall i, j | 0 <= i < n && 0 <= j < n ensures r2[i][j] == u[i][j] {
      var k := n - 1 - j;
      assert r2[i][j] == r1[k][i];
      assert r1[k][i] == g[n - 1 - i][k];
    }
    GridExtensionality(r2, u);
  }

  lemma UpsideDownInvolution(g: Grid)
    requires IsSquare(g)
    ensures UpsideDown(UpsideDown(g)) == g
  {
    GridExtensionality(UpsideDown(UpsideDown(g)), g);
  }

  /** Four clockwise turns are the identity. */
  lemma RotateFourTimes(g: Grid)
    requires IsSquare(g)
    ensures RotatedCW(RotatedCW(RotatedCW(RotatedCW(g)))) == g
  {
    HalfTurn(g);
    HalfTurn(UpsideDown(g));
    UpsideDownInvolution(g);
  }

  lemma RowSourceInvolution(n: nat, k: nat)
    requires k < n
    ensures RowSource(n, RowSource(n, k)) == k
  {
  }

  /** Counter-clockwise undoes clockwise, and vice versa, on an invertible grid. */
  lemma RotationsUndoEachOther(g: Grid)
    requires RotationInvertible(g)
    ensures RotatedCCW(RotatedCW(g)) == g
    ensures RotatedCW(RotatedCCW(g)) == g
  {
    var n := |g|;
    var a := RotatedCCW(RotatedCW(g));
    var b := RotatedCW(RotatedCCW(g));
    if n % 2 == 1 {
      assert forall k :: 0 <= k < n ==> RowSource(n, k) == n - 1 - k;
    }
    GridExtensionality(a, g);
    GridExtensionality(b, g);
  }

  /** On a 2x2 grid that is not all filled, the revert does not restore it. */
  lemma RevertFailsOnUnevenTwoByTwo()
    ensures RotatedCCW(RotatedCW([[true, false], [false, false]])) == [[false, false], [true, false]]
    ensures RotatedCW(RotatedCCW([[true, false], [false, false]])) == [[false, true], [false, false]]
  {
    var g := [[true, false], [false, false]];
    var r := RotatedCCW(RotatedCW(g));
    assert r[0][0] == false && r[0][1] == false && r[1][0] == true && r[1][1] == false;
    GridExtensionality(r, [[false, false], [true, false]]);
    var u := RotatedCW(RotatedCCW(g));
    assert u[0][0] == false && u[0][1] == true && u[1][0] == false && u[1][1] == false;
    GridExtensionality(u, [[false, true], [false, false]]);
  }

  lemma RotationsKeepInvertible(g: Grid)
    requires RotationInvertible(g)
    ensures RotationInvertible(RotatedCW(g)) && RotationInvertible(RotatedCCW(g))
  {
  }

  /** The image of a set of cells under a map that is one-to-one on it has the same size. */
  lemma {:induction false} InjectiveImageSize(s: set<(int, int)>, f: ((int, int)) -> (int, int))
    requires forall a, b :: a in s && b in s && f(a) == f(b) ==> a == b
    ensures |set c | c in s :: f(c)| == |s|
  {
    if s != {} {
      var a :| a in s;
      var rest := s - {a};
      InjectiveImageSize(rest, f);
      var image := set c | c in s :: f(c);
      var restImage := set c | c in rest :: f(c);
      assert image == restImage + {f(a)};
      assert f(a) !in restImage;
    }
  }

  lemma ClockwiseKeepsFilledCount(g: Grid)
    requires IsSquare(g)
    ensures FilledCount(RotatedCW(g)) == FilledCount(g)
  {
    var n := |g|;
    var cw := (c: (int, int)) => (c.1, n - 1 - c.0);
    var image := set c | c in FilledCells(g) :: cw(c);
    forall c | c in FilledCells(RotatedCW(g)) ensures c in image {
      assert (n - 1 - c.1, c.0) in FilledCells(g);
    }
    assert FilledCells(RotatedCW(g)) == image;
    InjectiveImageSize(FilledCells(g), cw);
  }

  lemma CounterClockwiseKeepsFilledCount(g: Grid)
    requires IsSquare(g)
    ensures FilledCount(RotatedCCW(g)) == FilledCount(g)
  {
    var n := |g|;
    var ccw := (c: (int, int)) => if 0 <= c.1 < n then (RowSource(n, c.1), c.0) else c;
    var image := set c | c in FilledCells(g) :: ccw(c);
    forall c | c in FilledCells(RotatedCCW(g)) ensures c in image {
      RowSourceInvolution(n, c.0);
      assert (c.1, RowSource(n, c.0)) in FilledCells(g);
    }
    forall d | d in FilledCells(g) ensures ccw(d) in FilledCells(RotatedCCW(g)) {
      RowSourceInvolution(n, d.1);
    }
    assert FilledCells(RotatedCCW(g)) == image;
    forall a, b | a in FilledCells(g) && b in FilledCells(g) && ccw(a) == ccw(b) ensures a == b {
      RowSourceInvolution(n, a.1);
      RowSourceInvolution(n, b.1);
    }
    InjectiveImageSize(FilledCells(g), ccw);
  }
}
