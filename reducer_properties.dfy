/**
 * What the transitions promise: the fresh states of `Start` and `Reset`, the
 * single-field update of `Drop`, the padding of `Commit`, the tie-break and
 * the silent rejection of `Move`, and the board-state invariant they keep.
 */
module ReducerProperties {
  import opened Wrappers
  import opened Board
  import opened Rotation
  import opened Collision
  import opened Reducer

  /** `t` is `s` turned clockwise some number of quarter turns. */
  predicate IsRotationOf(t: Shape, s: Shape)
    requires IsSquare(s)
  {
    exists k | 0 <= k < 4 :: t == RotateTimes(s, k)
  }

  /**
   * The board-state invariant: a full-size board, a falling piece at a row
   * that is not negative, and a falling shape that is a rotation of its
   * kind's canonical square shape. It does not say that the falling piece is
   * clear of the board: `Drop` and `Commit` never test for a collision, so no
   * transition keeps that; `MoveKeepsCollisionFree` proves it for `Move`.
   */
  predicate Valid(shapes: ShapeTable, state: BoardState)
  {
    && |state.board| == BoardHeight
    && RowsHaveBoardWidth(state.board)
    && 0 <= state.droppingRow
    && |shapes(state.droppingBlock)| > 0
    && IsSquare(shapes(state.droppingBlock))
    && IsRotationOf(state.droppingShape, shapes(state.droppingBlock))
  }

  /** `Start` throws the incoming state away and lays an empty 20-by-10 board with the chosen piece at column 3. */
  lemma StartState(shapes: ShapeTable, state: BoardState, firstBlock: Block)
    ensures var r := Reduce(shapes, state, Start(firstBlock));
      && r.Ok?
      && |r.value.board| == BoardHeight && RowsHaveBoardWidth(r.value.board) && AllEmpty(r.value.board)
      && !IsGameOver(r.value.board)
      && r.value.droppingRow == 0 && r.value.droppingColumn == SpawnColumn
      && r.value.droppingBlock == firstBlock && r.value.droppingShape == shapes(firstBlock)
  {
    EmptyBoardIsNotGameOver(BoardHeight);
  }

  /** `Reset` throws the incoming state away and lays an empty 20-by-10 board with piece I at column 0. */
  lemma ResetState(shapes: ShapeTable, state: BoardState)
    ensures var r := Reduce(shapes, state, Reset);
      && r.Ok?
      && |r.value.board| == BoardHeight && RowsHaveBoardWidth(r.value.board) && AllEmpty(r.value.board)
      && !IsGameOver(r.value.board)
      && r.value.droppingRow == 0 && r.value.droppingColumn == ResetColumn
      && r.value.droppingBlock == I && r.value.droppingShape == shapes(I)
  {
    EmptyBoardIsNotGameOver(BoardHeight);
  }

  /** Neither `Start` nor `Reset` depends on the state it is applied to. */
  lemma StartAndResetIgnoreState(shapes: ShapeTable, s1: BoardState, s2: BoardState, firstBlock: Block)
    ensures Reduce(shapes, s1, Start(firstBlock)) == Reduce(shapes, s2, Start(firstBlock))
    ensures Reduce(shapes, s1, Reset) == Reduce(shapes, s2, Reset)
  {
  }

  /** `Drop` moves the piece exactly one row down and changes nothing else; it tests no collision. */
  lemma DropAdvancesRow(shapes: ShapeTable, state: BoardState)
    ensures var r := Reduce(shapes, state, Drop);
      && r.Ok?
      && r.value.droppingRow == state.droppingRow + 1
      && r.value.board == state.board
      && r.value.droppingColumn == state.droppingColumn
      && r.value.droppingBlock == state.droppingBlock
      && r.value.droppingShape == state.droppingShape
  {
  }

  /**
   * `Commit` with both payloads restores full height by stacking empty rows
   * on top of the supplied board, and spawns the supplied piece at row 0,
   * column 3 in its canonical shape.
   */
  lemma CommitPadsBoard(shapes: ShapeTable, state: BoardState, newBoard: Grid, newBlock: Block)
    requires |newBoard| <= BoardHeight
    ensures var r := Reduce(shapes, state, Commit(Some(newBoard), Some(newBlock)));
      var pad := BoardHeight - |newBoard|;
      && r.Ok?
      && |r.value.board| == BoardHeight
      && r.value.board[pad..] == newBoard
      && (forall row | 0 <= row < pad :: |r.value.board[row]| == BoardWidth && !RowHasBlock(r.value.board[row]))
      && (RowsHaveBoardWidth(newBoard) ==> RowsHaveBoardWidth(r.value.board))
      && r.value.droppingRow == 0 && r.value.droppingColumn == SpawnColumn
      && r.value.droppingBlock == newBlock && r.value.droppingShape == shapes(newBlock)
  {
    PaddedBoard(BoardHeight - |newBoard|, newBoard);
  }

  /**
   * After a `Commit` the game is over exactly when the supplied board already
   * has full height and a settled cell in its top row: a shorter board is
   * padded with an empty top row.
   */
  lemma CommitGameOver(shapes: ShapeTable, state: BoardState, newBoard: Grid, newBlock: Block)
    requires |newBoard| <= BoardHeight
    ensures var r := Reduce(shapes, state, Commit(Some(newBoard), Some(newBlock)));
      r.Ok? && (IsGameOver(r.value.board) <==> |newBoard| == BoardHeight && RowHasBlock(newBoard[0]))
  {
    var pad := BoardHeight - |newBoard|;
    PaddedBoard(pad, newBoard);
    var board := GetEmptyBoard(pad) + newBoard;
    if pad == 0 {
      assert board == newBoard;
    } else {
      assert !RowHasBlock(board[0]);
    }
  }

  /** Pressing left and right together moves like pressing right alone. */
  lemma MoveRightWins(shapes: ShapeTable, state: BoardState, isRotating: bool)
    requires CanReduce(state, Move(false, true, isRotating))
    ensures Reduce(shapes, state, Move(true, true, isRotating)) == Reduce(shapes, state, Move(false, true, isRotating))
  {
  }

  /**
   * A `Move` keeps the board, the row and the piece kind. Accepted, it sets
   * the offset column and the candidate shape together, and the falling piece
   * then does not collide; rejected, it returns the state unchanged.
   */
  lemma MoveOutcome(shapes: ShapeTable, state: BoardState, isPressingLeft: bool, isPressingRight: bool, isRotating: bool)
    requires CanReduce(state, Move(isPressingLeft, isPressingRight, isRotating))
    ensures var r := Reduce(shapes, state, Move(isPressingLeft, isPressingRight, isRotating));
      var candidate := CandidateShape(state.droppingShape, isRotating);
      var column := state.droppingColumn + ColumnOffset(isPressingLeft, isPressingRight);
      && r.Ok?
      && r.value.board == state.board
      && r.value.droppingRow == state.droppingRow
      && r.value.droppingBlock == state.droppingBlock
      && (Collides(state.board, candidate, state.droppingRow, column) ==> r.value == state)
      && (!Collides(state.board, candidate, state.droppingRow, column) ==>
            && r.value.droppingColumn == column
            && r.value.droppingShape == candidate
            && !Collides(r.value.board, r.value.droppingShape, r.value.droppingRow, r.value.droppingColumn))
  {
  }

  /** A `Move` never puts a piece that did not collide into a colliding position. */
  lemma MoveKeepsCollisionFree(shapes: ShapeTable, state: BoardState, isPressingLeft: bool, isPressingRight: bool, isRotating: bool)
    requires CanReduce(state, Move(isPressingLeft, isPressingRight, isRotating))
    requires !Collides(state.board, state.droppingShape, state.droppingRow, state.droppingColumn)
    ensures var r := Reduce(shapes, state, Move(isPressingLeft, isPressingRight, isRotating));
      r.Ok? && !Collides(r.value.board, r.value.droppingShape, r.value.droppingRow, r.value.droppingColumn)
  {
  }

  /** One collision-free rotation in place from the k-th rotation of the falling shape reaches the next one. */
  lemma RotationStep(shapes: ShapeTable, s0: BoardState, k: nat)
    requires 0 <= s0.droppingRow && |s0.droppingShape| > 0 && IsSquare(s0.droppingShape)
    requires !Collides(s0.board, RotateTimes(s0.droppingShape, k + 1), s0.droppingRow, s0.droppingColumn)
    ensures Reduce(shapes, s0.(droppingShape := RotateTimes(s0.droppingShape, k)), Move(false, false, true))
         == Ok(s0.(droppingShape := RotateTimes(s0.droppingShape, k + 1)))
  {
  }

  /**
   * Rotating in place four times, with each quarter turn free of collisions,
   * passes through the three other rotations and comes back to the start.
   */
  lemma FourAcceptedRotationsRestore(shapes: ShapeTable, s0: BoardState)
    requires 0 <= s0.droppingRow && |s0.droppingShape| > 0 && IsSquare(s0.droppingShape)
    requires forall k | 1 <= k <= 4 ::
      !Collides(s0.board, RotateTimes(s0.droppingShape, k), s0.droppingRow, s0.droppingColumn)
    ensures var rotate := Move(false, false, true);
      var s1 := s0.(droppingShape := RotateTimes(s0.droppingShape, 1));
      var s2 := s0.(droppingShape := RotateTimes(s0.droppingShape, 2));
      var s3 := s0.(droppingShape := RotateTimes(s0.droppingShape, 3));
      && Reduce(shapes, s0, rotate) == Ok(s1)
      && Reduce(shapes, s1, rotate) == Ok(s2)
      && Reduce(shapes, s2, rotate) == Ok(s3)
      && Reduce(shapes, s3, rotate) == Ok(s0)
  {
    var s := s0.droppingShape;
    FourRotationsRestore(s);
    RotationStep(shapes, s0, 0);
    RotationStep(shapes, s0, 1);
    RotationStep(shapes, s0, 2);
    RotationStep(shapes, s0, 3);
  }

  /** In a valid state every `Move` can be applied. */
  lemma ValidStateCanMove(shapes: ShapeTable, state: BoardState, isPressingLeft: bool, isPressingRight: bool, isRotating: bool)
    requires Valid(shapes, state)
    ensures CanReduce(state, Move(isPressingLeft, isPressingRight, isRotating))
  {
    var k :| 0 <= k < 4 && state.droppingShape == RotateTimes(shapes(state.droppingBlock), k);
  }

  /** A quarter turn of a rotation of `s` is again a rotation of `s`. */
  lemma RotatedRotationOf(t: Shape, s: Shape)
    requires IsSquare(s) && IsRotationOf(t, s)
    ensures IsSquare(t) && IsRotationOf(Rotated(t), s)
  {
    var k :| 0 <= k < 4 && t == RotateTimes(s, k);
    assert Rotated(t) == RotateTimes(s, k + 1);
    if k == 3 {
      FourRotationsRestore(s);
      assert Rotated(t) == RotateTimes(s, 0);
    }
  }

  /** The two transitions that lay a fresh board, `Start` and `Reset`, establish the invariant from any state. */
  lemma StartResetEstablishValid(shapes: ShapeTable, state: BoardState, b: Block)
    requires ValidTable(shapes)
    ensures Valid(shapes, Reduce(shapes, state, Start(b)).value)
    ensures Valid(shapes, Reduce(shapes, state, Reset).value)
  {
    assert RotateTimes(shapes(b), 0) == shapes(b);
    assert RotateTimes(shapes(I), 0) == shapes(I);
  }

  /**
   * Every transition that succeeds keeps the board-state invariant, given a
   * valid shape table and, for `Commit`, a supplied board of full-width rows.
   */
  lemma ReducePreservesValid(shapes: ShapeTable, state: BoardState, action: Action)
    requires ValidTable(shapes)
    requires Valid(shapes, state)
    requires CanReduce(state, action)
    requires action.Commit? && action.newBoard.Some? ==> RowsHaveBoardWidth(action.newBoard.value)
    ensures var r := Reduce(shapes, state, action);
      r.Ok? ==> Valid(shapes, r.value)
  {
    var r := Reduce(shapes, state, action);
    match action
    case Start(b) =>
      assert r.value.droppingShape == RotateTimes(shapes(b), 0);
    case Reset =>
      assert r.value.droppingShape == RotateTimes(shapes(I), 0);
    case Drop =>
    case Commit(newBoard, newBlock) =>
      if r.Ok? {
        PaddedBoard(BoardHeight - |newBoard.value|, newBoard.value);
        assert r.value.droppingShape == RotateTimes(shapes(newBlock.value), 0);
      }
    case Move(left, right, rotating) =>
      if rotating {
        RotatedRotationOf(state.droppingShape, shapes(state.droppingBlock));
      }
  }
}
