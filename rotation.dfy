/**
 * Quarter-turn clockwise rotation of a piece's occupancy matrix: the cell in
 * row r, column c of an n-by-n shape moves to row c, column n-1-r.
 */
module Rotation {
  import opened Board

  /** Every row of `s` has as many cells as `s` has rows. */
  predicate IsSquare(s: Shape)
  {
    forall r | 0 <= r < |s| :: |s[r]| == |s|
  }

  /** The clockwise quarter turn of a square shape. */
  function Rotated(s: Shape): (t: Shape)
    requires IsSquare(s)
    ensures IsSquare(t) && |t| == |s|
  {
    var n := |s|;
    seq(n, c requires 0 <= c < n => seq(n, k requires 0 <= k < n => s[n - 1 - k][c]))
  }

  /** `s` turned clockwise `k` times. */
  function RotateTimes(s: Shape, k: nat): (t: Shape)
    requires IsSquare(s)
    ensures IsSquare(t) && |t| == |s|
  {
    if k == 0 then s else Rotated(RotateTimes(s, k - 1))
  }

  /** Where the cell at row i, column j of a quarter-turned shape comes from. */
  lemma RotatedAt(s: Shape, i: nat, j: nat)
    requires IsSquare(s) && i < |s| && j < |s|
    ensures Rotated(s)[i][j] == s[|s| - 1 - j][i]
  {
  }

  /** The quarter turn sends the cell at row r, column c to row c, column n-1-r. */
  lemma RotationMovesCells(s: Shape)
    requires IsSquare(s)
    ensures forall r, c | 0 <= r < |s| && 0 <= c < |s| :: Rotated(s)[c][|s| - 1 - r] == s[r][c]
  {
  }

  /** Two quarter turns turn the shape upside down and mirror it. */
  lemma HalfTurn(s: Shape, i: nat, j: nat)
    requires IsSquare(s) && i < |s| && j < |s|
    ensures Rotated(Rotated(s))[i][j] == s[|s| - 1 - i][|s| - 1 - j]
  {
    RotatedAt(Rotated(s), i, j);
    RotatedAt(s, |s| - 1 - j, i);
  }

  /** Four quarter turns give back the shape. */
  lemma {:induction false} FourRotationsRestore(s: Shape)
    requires IsSquare(s)
    ensures RotateTimes(s, 4) == s
  {
    var n := |s|;
    var r1 := Rotated(s);
    var r2 := Rotated(r1);
    var r3 := Rotated(r2);
    var r4 := Rotated(r3);
    assert RotateTimes(s, 1) == r1;
    assert RotateTimes(s, 2) == r2;
    assert RotateTimes(s, 3) == r3;
    assert RotateTimes(s, 4) == r4;
    forall i | 0 <= i < n
      ensures r4[i] == s[i]
    {
      forall j | 0 <= j < n
        ensures r4[i][j] == s[i][j]
      {
        HalfTurn(r2, i, j);
        HalfTurn(s, n - 1 - i, n - 1 - j);
      }
    }
  }

  /**
   * The engine's rotation: allocate a rows-by-columns grid of `false`, then for
   * each source cell write `rotated[column][rows-1-row] := shape[row][column]`.
   * Both index ranges fit only when the shape is square; an empty shape has no
   * first row to take the column count from.
   */
  method RotateBlock(shape: Shape) returns (rotated: Shape)
    requires |shape| > 0 && IsSquare(shape)
    ensures rotated == Rotated(shape)
  {
    var rows := |shape|;
    var columns := |shape[0]|;
    var grid := new bool[rows, columns]((_, _) => false);
    for row := 0 to rows
      invariant forall r, c | 0 <= r < row && 0 <= c < columns :: grid[c, rows - 1 - r] == shape[r][c]
    {
      for column := 0 to columns
        invariant forall r, c | 0 <= r < row && 0 <= c < columns :: grid[c, rows - 1 - r] == shape[r][c]
        invariant forall c | 0 <= c < column :: grid[c, rows - 1 - row] == shape[row][c]
      {
        grid[column, rows - 1 - row] := shape[row][column];
      }
    }
    rotated := seq(rows, c requires 0 <= c < rows reads grid =>
      seq(columns, k requires 0 <= k < columns reads grid => grid[c, k]));
    forall c | 0 <= c < rows
      ensures rotated[c] == Rotated(shape)[c]
    {
      forall k | 0 <= k < columns
        ensures rotated[c][k] == Rotated(shape)[c][k]
      {
        RotatedAt(shape, c, k);
        assert grid[c, rows - 1 - (rows - 1 - k)] == shape[rows - 1 - k][c];
      }
    }
  }
}
