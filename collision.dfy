/**
 * The collision test: does a shape placed with its top-left corner at
 * (row, column) leave the board at the bottom, left or right, or overlap a
 * settled cell? Shape rows with no set cell are dropped first, and the
 * remaining rows are placed on consecutive board rows.
 */
module Collision {
  import opened Board

  /** Some cell of the shape row is set. */
  predicate RowIsSet(shapeRow: seq<bool>)
  {
    exists j | 0 <= j < |shapeRow| :: shapeRow[j]
  }

  /** The rows of `shape` that have a set cell, in their original order. */
  function NonEmptyRows(shape: Shape): (rows: Shape)
    ensures |rows| <= |shape|
    ensures forall k | 0 <= k < |rows| :: RowIsSet(rows[k])
    ensures (forall k | 0 <= k < |shape| :: RowIsSet(shape[k])) ==> rows == shape
    ensures (forall k | 0 <= k < |shape| :: !RowIsSet(shape[k])) ==> rows == []
  {
    if shape == [] then []
    else
      var rest := NonEmptyRows(shape[1..]);
      assert forall k | 1 <= k < |shape| :: shape[k] == shape[1..][k - 1];
      if RowIsSet(shape[0]) then [shape[0]] + rest else rest
  }

  /** The filter keeps every shape row that has a set cell, and only those. */
  lemma {:induction false} NonEmptyRowsKeepsSetRows(shape: Shape)
    ensures forall x :: x in NonEmptyRows(shape) <==> x in shape && RowIsSet(x)
  {
    if shape != [] {
      NonEmptyRowsKeepsSetRows(shape[1..]);
      assert shape == [shape[0]] + shape[1..];
    }
  }

  /**
   * Whether board position (r, c) stops a set shape cell: below the last row,
   * outside the width of the top row, or anything but an empty cell. A row
   * shorter than the top row has nothing at c, which is not an empty cell either.
   */
  predicate Blocked(board: Grid, r: nat, c: int)
  {
    r >= |board| || c >= |board[0]| || c < 0 || c >= |board[r]| || board[r][c] != Empty
  }

  /** The collision test as written: row i of the compacted shape lands on board row `row + i`. */
  predicate Collides(board: Grid, shape: Shape, row: int, column: int)
    requires 0 <= row
  {
    var rows := NonEmptyRows(shape);
    exists i, j | 0 <= i < |rows| && 0 <= j < |rows[i]| :: rows[i][j] && Blocked(board, row + i, column + j)
  }

  /** Placement without compaction: row i of the shape itself lands on board row `row + i`. */
  predicate CollidesInPlace(board: Grid, shape: Shape, row: int, column: int)
    requires 0 <= row
  {
    exists i, j | 0 <= i < |shape| && 0 <= j < |shape[i]| :: shape[i][j] && Blocked(board, row + i, column + j)
  }

  /**
   * The engine's scan: drop the empty shape rows, then visit every cell of the
   * rest and raise the flag when a set cell is blocked. The scan does not stop
   * at the first collision. A negative row would read a missing board row.
   */
  method HasCollisions(board: Grid, currentShape: Shape, row: int, column: int) returns (hasCollision: bool)
    requires 0 <= row
    ensures hasCollision == Collides(board, currentShape, row, column)
  {
    hasCollision := false;
    var rows := NonEmptyRows(currentShape);
    var rowIndex := 0;
    while rowIndex < |rows|
      invariant 0 <= rowIndex <= |rows|
      invariant hasCollision <==> exists i, j | 0 <= i < rowIndex && 0 <= j < |rows[i]| ::
        rows[i][j] && Blocked(board, row + i, column + j)
    {
      var shapeRow := rows[rowIndex];
      var colIndex := 0;
      while colIndex < |shapeRow|
        invariant 0 <= colIndex <= |shapeRow|
        invariant hasCollision <==>
          (exists i, j | 0 <= i < rowIndex && 0 <= j < |rows[i]| :: rows[i][j] && Blocked(board, row + i, column + j))
          || (exists j | 0 <= j < colIndex :: shapeRow[j] && Blocked(board, row + rowIndex, column + j))
      {
        var r, c := row + rowIndex, column + colIndex;
        // a board row too short to reach column c yields no cell, which is not Empty
        if shapeRow[colIndex] && (r >= |board| || c >= |board[0]| || c < 0 || c >= |board[r]| || board[r][c] != Empty) {
          hasCollision := true;
        }
        colIndex := colIndex + 1;
      }
      rowIndex := rowIndex + 1;
    }
  }

  /** A shape with no set cell never collides, wherever it is placed. */
  lemma NoSetCellNeverCollides(board: Grid, shape: Shape, row: int, column: int)
    requires 0 <= row
    requires forall i, j | 0 <= i < |shape| && 0 <= j < |shape[i]| :: !shape[i][j]
    ensures !Collides(board, shape, row, column)
  {
    assert forall k | 0 <= k < |shape| :: !RowIsSet(shape[k]);
  }

  /** A shape with a set cell collides when placed on or below the row past the bottom. */
  lemma BelowBottomCollides(board: Grid, shape: Shape, row: int, column: int, si: nat, sj: nat)
    requires |board| <= row
    requires si < |shape| && sj < |shape[si]| && shape[si][sj]
    ensures Collides(board, shape, row, column)
  {
    var rows := NonEmptyRows(shape);
    NonEmptyRowsKeepsSetRows(shape);
    assert RowIsSet(shape[si]);
    assert shape[si] in rows;
    var j :| 0 <= j < |rows[0]| && rows[0][j];
    assert Blocked(board, row + 0, column + j);
  }

  /**
   * Some set cell of the compacted shape lies below the last row, left of
   * column 0, at or right of the top row's width, or on a filled cell.
   */
  predicate LeavesBoardOrHitsFilled(board: Grid, shape: Shape, row: int, column: int)
    requires 0 <= row && |board| > 0
    requires forall r | 0 <= r < |board| :: |board[r]| == |board[0]|
  {
    var rows := NonEmptyRows(shape);
    exists i, j | 0 <= i < |rows| && 0 <= j < |rows[i]| ::
      rows[i][j] && (row + i >= |board| || column + j < 0 || column + j >= |board[0]|
                     || board[row + i][column + j] != Empty)
  }

  /**
   * On a non-empty board whose rows all have the top row's width, a set cell
   * collides exactly when it is below the last row, left of column 0, at or
   * right of the width, or on a filled cell.
   */
  lemma CollidesOnRectangularBoard(board: Grid, shape: Shape, row: int, column: int)
    requires 0 <= row && |board| > 0
    requires forall r | 0 <= r < |board| :: |board[r]| == |board[0]|
    ensures Collides(board, shape, row, column) <==> LeavesBoardOrHitsFilled(board, shape, row, column)
  {
    var rows := NonEmptyRows(shape);
    if Collides(board, shape, row, column) {
      var i, j :| 0 <= i < |rows| && 0 <= j < |rows[i]| && rows[i][j] && Blocked(board, row + i, column + j);
      if row + i < |board| { assert |board[row + i]| == |board[0]|; }
      assert LeavesBoardOrHitsFilled(board, shape, row, column);
    }
    if LeavesBoardOrHitsFilled(board, shape, row, column) {
      var i, j :| 0 <= i < |rows| && 0 <= j < |rows[i]| && rows[i][j]
                  && (row + i >= |board| || column + j < 0 || column + j >= |board[0]|
                      || board[row + i][column + j] != Empty);
      assert Blocked(board, row + i, column + j);
      assert Collides(board, shape, row, column);
    }
  }

  /** Some set cell of the compacted shape lies below row `height - 1`, left of column 0 or at or right of column `width`. */
  predicate LeavesBounds(shape: Shape, row: int, column: int, height: nat, width: nat)
  {
    var rows := NonEmptyRows(shape);
    exists i, j | 0 <= i < |rows| && 0 <= j < |rows[i]| ::
      rows[i][j] && (row + i >= height || column + j < 0 || column + j >= width)
  }

  /** On an all-`Empty` board of full width, only the bounds can stop a piece. */
  lemma CollidesOnEmptyBoard(height: nat, shape: Shape, row: int, column: int)
    requires 0 <= row
    ensures Collides(GetEmptyBoard(height), shape, row, column) <==> LeavesBounds(shape, row, column, height, BoardWidth)
  {
    var board := GetEmptyBoard(height);
    var rows := NonEmptyRows(shape);
    var outside := LeavesBounds(shape, row, column, height, BoardWidth);
    if Collides(board, shape, row, column) {
      var i, j :| 0 <= i < |rows| && 0 <= j < |rows[i]| && rows[i][j] && Blocked(board, row + i, column + j);
      assert row + i >= height || column + j < 0 || column + j >= BoardWidth by {
        if row + i < height {
          assert |board[row + i]| == |board[0]| == BoardWidth;
        }
      }
      assert outside;
    }
    if outside {
      var i, j :| 0 <= i < |rows| && 0 <= j < |rows[i]| && rows[i][j]
                  && (row + i >= height || column + j < 0 || column + j >= BoardWidth);
      if row + i < height { assert |board[0]| == BoardWidth; }
      assert rows[i][j] && Blocked(board, row + i, column + j);
      assert Collides(board, shape, row, column);
    }
  }

  /** Dropping empty rows commutes with concatenation. */
  lemma {:induction false} NonEmptyRowsAppend(a: Shape, b: Shape)
    ensures NonEmptyRows(a + b) == NonEmptyRows(a) + NonEmptyRows(b)
  {
    if a == [] {
      assert a + b == b;
    } else {
      assert (a + b)[1..] == a[1..] + b;
      NonEmptyRowsAppend(a[1..], b);
    }
  }

  /**
   * Compaction changes nothing when every empty row of the shape comes after
   * its last set row: such a shape collides as written exactly when it
   * collides placed in place.
   */
  lemma TrailingEmptyRowsAreHarmless(board: Grid, top: Shape, bottom: Shape, row: int, column: int)
    requires 0 <= row
    requires forall k | 0 <= k < |top| :: RowIsSet(top[k])
    requires forall k | 0 <= k < |bottom| :: !RowIsSet(bottom[k])
    ensures Collides(board, top + bottom, row, column) <==> CollidesInPlace(board, top + bottom, row, column)
  {
    var shape := top + bottom;
    NonEmptyRowsAppend(top, bottom);
    assert NonEmptyRows(shape) == top;
    if CollidesInPlace(board, shape, row, column) {
      var i, j :| 0 <= i < |shape| && 0 <= j < |shape[i]| && shape[i][j] && Blocked(board, row + i, column + j);
      assert top[i][j] && Blocked(board, row + i, column + j);
    }
    if Collides(board, shape, row, column) {
      var i, j :| 0 <= i < |top| && 0 <= j < |top[i]| && top[i][j] && Blocked(board, row + i, column + j);
      assert shape[i] == top[i];
    }
  }

  /**
   * A leading empty row is compacted away: a piece whose only set cell is in
   * its second row does not collide as written on a one-row empty board, yet
   * placed in place that cell would sit below the bottom.
   */
  lemma LeadingEmptyRowIsCompacted()
    ensures var board := [[Empty]];
      var shape := [[false], [true]];
      !Collides(board, shape, 0, 0) && CollidesInPlace(board, shape, 0, 0)
  {
    var board := [[Empty]];
    var shape := [[false], [true]];
    assert !RowIsSet(shape[0]);
    assert shape[1][0];
    assert shape[1..][1..] == [];
    assert NonEmptyRows(shape) == [[true]];
    assert shape[1][0] && Blocked(board, 0 + 1, 0 + 0);
  }
}
