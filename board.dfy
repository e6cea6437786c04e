/**
 * The settled grid of the falling-block game: its dimensions, its cells,
 * the empty-board factory and the game-over test.
 */
module Board {

  /** Number of columns of the board. */
  const BoardWidth: nat := 10

  /** Number of rows of the board. */
  const BoardHeight: nat := 20

  /** The seven piece kinds. */
  datatype Block = I | J | L | O | S | T | Z

  /** A board cell is empty or filled by a piece kind. */
  datatype Cell = Empty | Filled(block: Block)

  /** A board is a list of rows, row 0 at the top. */
  type Grid = seq<seq<Cell>>

  /** A piece's occupancy matrix: `true` where the piece fills its bounding box. */
  type Shape = seq<seq<bool>>

  /** Every row of `board` is exactly `BoardWidth` cells wide. */
  predicate RowsHaveBoardWidth(board: Grid)
  {
    forall r | 0 <= r < |board| :: |board[r]| == BoardWidth
  }

  /** Every cell of `board` is empty. */
  predicate AllEmpty(board: Grid)
  {
    forall r, c | 0 <= r < |board| && 0 <= c < |board[r]| :: board[r][c] == Empty
  }

  /** A board of `height` rows, each `BoardWidth` empty cells wide. */
  function GetEmptyBoard(height: nat): (board: Grid)
    ensures |board| == height
    ensures RowsHaveBoardWidth(board) && AllEmpty(board)
  {
    seq(height, _ => seq(BoardWidth, _ => Empty))
  }

  /** Whether some cell of `row` is filled, scanning from the left. */
  function RowHasBlock(row: seq<Cell>): (b: bool)
    ensures b <==> exists c | 0 <= c < |row| :: row[c] != Empty
  {
    if row == [] then false
    else if row[0] != Empty then true
    else
      var rest := RowHasBlock(row[1..]);
      assert forall c | 1 <= c < |row| :: row[c] == row[1..][c - 1];
      rest
  }

  /** The game is over once the top row holds a settled cell. */
  function IsGameOver(board: Grid): (over: bool)
    requires |board| > 0
    ensures over <==> exists c | 0 <= c < |board[0]| :: board[0][c] != Empty
  {
    RowHasBlock(board[0])
  }

  /** An empty board of positive height is never in the game-over condition. */
  lemma EmptyBoardIsNotGameOver(height: nat)
    requires height > 0
    ensures !IsGameOver(GetEmptyBoard(height))
  {
  }

  /** Stacking `GetEmptyBoard(k)` on top of `rest` gives `k` empty rows followed by `rest`, unchanged. */
  lemma PaddedBoard(k: nat, rest: Grid)
    ensures var b := GetEmptyBoard(k) + rest;
      && |b| == k + |rest|
      && b[k..] == rest
      && (forall r | 0 <= r < k :: |b[r]| == BoardWidth && !RowHasBlock(b[r]))
      && (RowsHaveBoardWidth(rest) ==> RowsHaveBoardWidth(b))
  {
    var b := GetEmptyBoard(k) + rest;
    assert b[k..] == rest;
    forall r | 0 <= r < k ensures |b[r]| == BoardWidth && !RowHasBlock(b[r]) {
      assert b[r] == GetEmptyBoard(k)[r];
    }
    if RowsHaveBoardWidth(rest) {
      forall r | 0 <= r < |b| ensures |b[r]| == BoardWidth {
        if r >= k { assert b[r] == rest[r - k]; }
      }
    }
  }
}
