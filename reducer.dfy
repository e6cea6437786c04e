/**
 * The board engine's transition function over the board state. The random
 * piece of `Start` is drawn by the caller and carried by the action; the
 * canonical shape table is a parameter.
 */
module Reducer {
  import opened Wrappers
  import opened Board
  import opened Rotation
  import opened Collision

  /** Column at which `Start` and `Commit` place a new piece. */
  const SpawnColumn: int := 3

  /** Column at which `Reset` places its default piece. */
  const ResetColumn: int := 0

  /** The settled board and the falling piece: its position, kind and current rotation. */
  datatype BoardState = BoardState(
    board: Grid,
    droppingRow: int,
    droppingColumn: int,
    droppingBlock: Block,
    droppingShape: Shape)

  /** The actions the engine accepts; an absent flag of `Move` is `false`. */
  datatype Action =
    | Start(firstBlock: Block)
    | Drop
    | Commit(newBoard: Option<Grid>, newBlock: Option<Block>)
    | Move(isPressingLeft: bool, isPressingRight: bool, isRotating: bool)
    | Reset

  /** The error `Commit` raises when its board or its next piece is missing. */
  datatype ReducerError = MissingNewBoardOrBlock

  /** The canonical rotation-zero shape of each piece kind. */
  type ShapeTable = Block -> Shape

  /** Every canonical shape is a non-empty square. */
  predicate ValidTable(shapes: ShapeTable)
  {
    forall b: Block :: |shapes(b)| > 0 && IsSquare(shapes(b))
  }

  /**
   * What a transition needs in order not to throw, other than the missing
   * payload of `Commit`: a `Move` tests collisions from a row that is not
   * negative and rotates only a non-empty square shape; a `Commit` pads a
   * board of at most `BoardHeight` rows.
   */
  predicate CanReduce(state: BoardState, action: Action)
  {
    match action
    case Move(_, _, isRotating) =>
      0 <= state.droppingRow && (isRotating ==> |state.droppingShape| > 0 && IsSquare(state.droppingShape))
    case Commit(Some(newBoard), Some(_)) => |newBoard| <= BoardHeight
    case _ => true
  }

  /** Right wins over left when both are pressed. */
  function ColumnOffset(isPressingLeft: bool, isPressingRight: bool): (offset: int)
    ensures offset == 1 <==> isPressingRight
    ensures offset == -1 <==> isPressingLeft && !isPressingRight
    ensures offset == 0 <==> !isPressingLeft && !isPressingRight
  {
    if isPressingRight then 1 else if isPressingLeft then -1 else 0
  }

  /** The shape a `Move` tries: the current one turned a quarter when rotating. */
  function CandidateShape(shape: Shape, isRotating: bool): Shape
    requires isRotating ==> IsSquare(shape)
  {
    if isRotating then Rotated(shape) else shape
  }

  /**
   * A `Move` is accepted when its candidate shape, at the unchanged row and the
   * offset column, does not collide.
   */
  predicate MoveAccepted(state: BoardState, isPressingLeft: bool, isPressingRight: bool, isRotating: bool)
    requires CanReduce(state, Move(isPressingLeft, isPressingRight, isRotating))
  {
    !Collides(state.board, CandidateShape(state.droppingShape, isRotating), state.droppingRow,
              state.droppingColumn + ColumnOffset(isPressingLeft, isPressingRight))
  }

  /** The state after a `Move`: column and shape updated together when accepted, unchanged otherwise. */
  function MoveResult(state: BoardState, isPressingLeft: bool, isPressingRight: bool, isRotating: bool): BoardState
    requires CanReduce(state, Move(isPressingLeft, isPressingRight, isRotating))
  {
    if MoveAccepted(state, isPressingLeft, isPressingRight, isRotating) then
      state.(droppingColumn := state.droppingColumn + ColumnOffset(isPressingLeft, isPressingRight),
             droppingShape := CandidateShape(state.droppingShape, isRotating))
    else state
  }

  /** The state after `action`, or the error it raises. */
  function Reduce(shapes: ShapeTable, state: BoardState, action: Action): (r: Result<BoardState, ReducerError>)
    requires CanReduce(state, action)
    ensures r.Err? <==> action.Commit? && (action.newBoard.None? || action.newBlock.None?)
  {
    match action
    case Start(firstBlock) =>
      Ok(BoardState(GetEmptyBoard(BoardHeight), 0, SpawnColumn, firstBlock, shapes(firstBlock)))
    case Drop =>
      Ok(state.(droppingRow := state.droppingRow + 1))
    case Commit(newBoard, newBlock) =>
      if newBoard.None? || newBlock.None? then Err(MissingNewBoardOrBlock)
      else
        Ok(BoardState(GetEmptyBoard(BoardHeight - |newBoard.value|) + newBoard.value,
                      0, SpawnColumn, newBlock.value, shapes(newBlock.value)))
    case Move(isPressingLeft, isPressingRight, isRotating) =>
      Ok(MoveResult(state, isPressingLeft, isPressingRight, isRotating))
    case Reset =>
      Ok(BoardState(GetEmptyBoard(BoardHeight), 0, ResetColumn, I, shapes(I)))
  }

  /**
   * The `Move` branch of the engine's reducer: rotate the shape when asked,
   * take the column offset (right wins), scan for collisions, and only when
   * there are none update the column and then the shape of the copy.
   */
  method MoveDroppingPiece(state: BoardState, isPressingLeft: bool, isPressingRight: bool, isRotating: bool)
    returns (newState: BoardState)
    requires CanReduce(state, Move(isPressingLeft, isPressingRight, isRotating))
    ensures newState == MoveResult(state, isPressingLeft, isPressingRight, isRotating)
  {
    newState := state;
    var rotatedShape := newState.droppingShape;
    if isRotating {
      rotatedShape := RotateBlock(newState.droppingShape);
    }
    var columnOffset := if isPressingLeft then -1 else 0;
    columnOffset := if isPressingRight then 1 else columnOffset;
    assert rotatedShape == CandidateShape(state.droppingShape, isRotating);
    assert columnOffset == ColumnOffset(isPressingLeft, isPressingRight);
    var collides := HasCollisions(newState.board, rotatedShape, newState.droppingRow,
                                  newState.droppingColumn + columnOffset);
    if !collides {
      newState := newState.(droppingColumn := newState.droppingColumn + columnOffset);
      newState := newState.(droppingShape := rotatedShape);
    }
  }

  /**
   * The engine's reducer: copy the state, then either return a fresh state or
   * update fields of the copy step by step, calling the rotation and the
   * collision scan.
   */
  method BoardReducer(shapes: ShapeTable, state: BoardState, action: Action) returns (result: Result<BoardState, ReducerError>)
    requires CanReduce(state, action)
    ensures result == Reduce(shapes, state, action)
  {
    var newState := state;
    match action {
      case Start(firstBlock) =>
        return Ok(BoardState(GetEmptyBoard(BoardHeight), 0, SpawnColumn, firstBlock, shapes(firstBlock)));
      case Drop =>
        newState := newState.(droppingRow := newState.droppingRow + 1);
      case Commit(newBoard, newBlock) =>
        if newBoard.None? || newBlock.None? {
          return Err(MissingNewBoardOrBlock);
        }
        return Ok(BoardState(GetEmptyBoard(BoardHeight - |newBoard.value|) + newBoard.value,
                             0, SpawnColumn, newBlock.value, shapes(newBlock.value)));
      case Move(isPressingLeft, isPressingRight, isRotating) =>
        newState := MoveDroppingPiece(newState, isPressingLeft, isPressingRight, isRotating);
      case Reset =>
        return Ok(BoardState(GetEmptyBoard(BoardHeight), 0, ResetColumn, I, shapes(I)));
    }
    return Ok(newState);
  }
}
