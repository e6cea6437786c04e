# Board engine of a falling-block puzzle game

This project models the board engine of a browser Tetris-style game. The engine
is a reducer, a transition function from a board state and an action to a new
board state. The board state holds the settled 20-by-10 grid and the falling
piece: its row, its column, its kind and its current shape. The engine has four
helpers that it calls or exposes:

- an empty-board factory;
- a collision test for a shape placed at a row and column;
- a quarter-turn clockwise rotation of a shape;
- a game-over test on the top row.

Files:

- `wrappers.dfy`: `Option` (for `Commit`'s optional fields) and `Result` (for the error the reducer throws).
- `board.dfy`: the constants, cells, grids and shapes; `GetEmptyBoard`; the game-over test.
- `rotation.dfy`: the rotation. `Rotated` is the specification. `RotateBlock` is the engine's nested loops over a freshly allocated 2-D array, proved equal to it.
- `collision.dfy`: the collision test. `Collides` is the specification. `HasCollisions` is the engine's nested scan with a mutable flag, proved equal to it.
- `reducer.dfy`: `BoardState`, `Action`, the specification `Reduce` and the engine's copy-then-mutate `BoardReducer`, proved equal to it. The `move` branch of the engine is the method `MoveDroppingPiece`, proved equal to `MoveResult`.
- `reducer_properties.dfy`: what each action promises, and the board-state invariant the actions keep.

Two inputs are parameters:

- The random piece of `start` is drawn by the caller and carried by the action as `Start(firstBlock)`.
- The canonical shape table is a parameter `shapes: Block -> Shape`. Its contents live in a types module that is not part of this model. `ValidTable` asks only that every entry be a non-empty square.

Boards and shapes are immutable values. So the collision test, like every other member, cannot modify the board it reads.

The seven piece kinds are named `I J L O S T Z`. Only `I` appears in the engine itself.

Three facts about the code shape the model:

- Skipping all-false shape rows changes results. The collision test tests each remaining row on the board row given by its index in the *filtered* list, so a shape's empty rows are compacted away (`Collides`, unlike `CollidesInPlace`). `TrailingEmptyRowsAreHarmless` shows this changes nothing when every empty row comes after the last set row. `LeadingEmptyRowIsCompacted` gives a shape and a board on which compaction changes the result.
- Only square shapes rotate. With more columns than rows the write into the output throws, so the model requires a square shape.
- The collision test needs neither a non-empty nor a rectangular board. On a board with no rows every set cell is below the bottom, so the scan never reads `board[0]`. A board row shorter than the top row reads as a missing cell, and a missing cell is not `Empty`, so it blocks (`Blocked`).

## Model

| member | source | states |
|---|---|---|
| Board.GetEmptyBoard | src/hooks/useTetrisBoard.ts:54-58 | the board has exactly `height` rows, each `BoardWidth` (10) cells wide, all `Empty` |
| Board.RowHasBlock | src/hooks/useTetrisBoard.ts:39 | the left-to-right scan is true iff some cell of the row is not `Empty` |
| Board.IsGameOver | src/hooks/useTetrisBoard.ts:39 | on a non-empty board, game over iff some cell of row 0 is not `Empty` |
| Board.EmptyBoardIsNotGameOver | src/hooks/useTetrisBoard.ts:54-58 | the all-`Empty` board of positive height never reports game over |
| Board.PaddedBoard | src/hooks/useTetrisBoard.ts:137-140 | `k` empty rows stacked on `rest` give height k plus the height of `rest`, keep `rest` unchanged below them, have empty full-width top rows, and keep full-width rows full width |
| Rotation.Rotated | src/hooks/useTetrisBoard.ts:90-105 | the quarter turn of an n-by-n shape is again n-by-n |
| Rotation.RotateTimes | src/hooks/useTetrisBoard.ts:90-105 | any number of quarter turns keeps an n-by-n shape n-by-n |
| Rotation.RotationMovesCells | src/hooks/useTetrisBoard.ts:98-102 | every source cell (r, c) lands at row c, column n-1-r of the rotation |
| Rotation.HalfTurn | src/hooks/useTetrisBoard.ts:90-105 | two quarter turns send cell (i, j) to (n-1-i, n-1-j) |
| Rotation.FourRotationsRestore | src/hooks/useTetrisBoard.ts:90-105 | four quarter turns return the original shape |
| Rotation.RotateBlock | src/hooks/useTetrisBoard.ts:90-105 | the nested loops over a rows-by-columns array of `false` build exactly the quarter turn, for a non-empty square shape |
| Collision.NonEmptyRows | src/hooks/useTetrisBoard.ts:68 | the filter keeps exactly the shape rows with a set cell: no longer than the shape, every kept row set; all rows kept when all are set, none when none is; with NonEmptyRowsKeepsSetRows and NonEmptyRowsAppend, which fixes order and multiplicity, this determines the order-preserving filter |
| Collision.NonEmptyRowsKeepsSetRows | src/hooks/useTetrisBoard.ts:68 | a row is in the filtered list iff it is a shape row with a set cell |
| Collision.HasCollisions | src/hooks/useTetrisBoard.ts:60-83 | for a row that is not negative, the scan's flag is true iff some set cell of the compacted shape is below the bottom, outside the top row's width, or on a cell that is not `Empty` |
| Collision.NoSetCellNeverCollides | src/hooks/useTetrisBoard.ts:66-82 | a shape with no set cell never collides, wherever it is placed |
| Collision.BelowBottomCollides | src/hooks/useTetrisBoard.ts:73 | any shape with a set cell collides when placed at or past row `board.length` |
| Collision.CollidesOnRectangularBoard | src/hooks/useTetrisBoard.ts:71-76 | on a non-empty rectangular board, a collision means exactly `LeavesBoardOrHitsFilled`: some set cell at compacted row i, column j has `row+i >= height`, `column+j < 0`, `column+j >= width` or a non-`Empty` board cell |
| Collision.CollidesOnEmptyBoard | src/hooks/useTetrisBoard.ts:71-76 | on the all-`Empty` board of width 10, a collision means exactly `LeavesBounds`: some set cell of the compacted shape is below the last row, left of column 0 or at or right of column 10 |
| Collision.NonEmptyRowsAppend | src/hooks/useTetrisBoard.ts:68 | filtering a concatenation is concatenating the filtered parts |
| Collision.TrailingEmptyRowsAreHarmless | src/hooks/useTetrisBoard.ts:67-76 | when every empty shape row follows the last set row, the compacted test agrees with placing the shape as it is |
| Collision.LeadingEmptyRowIsCompacted | src/hooks/useTetrisBoard.ts:67-76 | the shape `[[false],[true]]` at (0, 0) on the one-cell empty board does not collide as written, although placed as it is its set cell would be below the bottom |
| Reducer.ColumnOffset | src/hooks/useTetrisBoard.ts:150-151 | the offset is +1 iff right is pressed, -1 iff only left is pressed, 0 iff neither is pressed |
| Reducer.Reduce | src/hooks/useTetrisBoard.ts:116-175 | a transition fails iff it is a `Commit` without its board or without its piece |
| Reducer.MoveDroppingPiece | src/hooks/useTetrisBoard.ts:146-163 | rotating with RotateBlock, offsetting the column, scanning with HasCollisions, then shifting the column and swapping the shape gives exactly `MoveResult`, the `Move` case of `Reduce` |
| Reducer.BoardReducer | src/hooks/useTetrisBoard.ts:116-189 | copying the state and then returning a fresh state for `Start`, `Commit` and `Reset`, incrementing the copy's row for `Drop`, or running MoveDroppingPiece for `Move`, gives exactly `Reduce`'s result, including the error of a `Commit` with a missing payload |
| ReducerProperties.StartState | src/hooks/useTetrisBoard.ts:120-128 | `Start` succeeds with an empty 20-by-10 board that is not game over, at row 0, column 3, with the chosen piece in its canonical shape |
| ReducerProperties.ResetState | src/hooks/useTetrisBoard.ts:164-171 | `Reset` succeeds with an empty 20-by-10 board that is not game over, at row 0, column 0, with piece I in its canonical shape |
| ReducerProperties.StartAndResetIgnoreState | src/hooks/useTetrisBoard.ts:120-128 | `Start` and `Reset` give the same result from any two states |
| ReducerProperties.DropAdvancesRow | src/hooks/useTetrisBoard.ts:129-131 | `Drop` succeeds, adds exactly 1 to the row, tests no collision, and keeps the board, column, piece and shape |
| ReducerProperties.CommitPadsBoard | src/hooks/useTetrisBoard.ts:132-145 | `Commit` with both payloads yields a 20-row board: 20 minus the height of `newBoard` empty full-width rows over `newBoard` unchanged; it spawns the new piece at row 0, column 3 in its canonical shape |
| ReducerProperties.CommitGameOver | src/hooks/useTetrisBoard.ts:136-140 | after `Commit`, game over holds iff the supplied board has 20 rows and a non-`Empty` cell in its top row |
| ReducerProperties.MoveRightWins | src/hooks/useTetrisBoard.ts:150-151 | pressing left and right together gives the same result as pressing right alone |
| ReducerProperties.MoveOutcome | src/hooks/useTetrisBoard.ts:146-163 | `Move` never changes the board, row or piece. If the candidate collides, the state is returned unchanged. Otherwise column and candidate shape are set together, and the new position does not collide |
| ReducerProperties.MoveKeepsCollisionFree | src/hooks/useTetrisBoard.ts:152-162 | a falling piece that does not collide still does not collide after any `Move` |
| ReducerProperties.RotationStep | src/hooks/useTetrisBoard.ts:147-161 | a rotation in place whose next quarter turn is collision-free replaces the k-th rotation by the (k+1)-th and changes nothing else |
| ReducerProperties.FourAcceptedRotationsRestore | src/hooks/useTetrisBoard.ts:147-161 | four collision-free rotations in place pass through the three other rotations and return exactly the starting state |
| ReducerProperties.ValidStateCanMove | src/hooks/useTetrisBoard.ts:146-158 | in a state that keeps the invariant, every `Move` has a row that is not negative and a square shape, so it cannot throw |
| ReducerProperties.RotatedRotationOf | src/hooks/useTetrisBoard.ts:147-149 | a quarter turn of a rotation of a canonical shape is again one of its four rotations |
| ReducerProperties.StartResetEstablishValid | src/hooks/useTetrisBoard.ts:120-128 | from any state, `Start` and `Reset` (lines 164-171) produce a state that keeps the invariant `Valid`, given a valid shape table |
| ReducerProperties.ReducePreservesValid | src/hooks/useTetrisBoard.ts:116-189 | every successful transition keeps the invariant `Valid`: a 20-row full-width board, a row that is not negative, and a shape that is a rotation of the piece's canonical shape. This needs a valid shape table and, for `Commit`, full-width supplied rows |

## Left out

- The React wiring of the hook (`useReducer`, the initialiser, `useCallback`, `useEffect`, src/hooks/useTetrisBoard.ts:17-52): framework plumbing. The game-over expression of line 39 is modelled as `IsGameOver`.
- The "Game Over" toast (line 43): a user notification.
- `getRandomBlock` (lines 85-88): it draws with `Math.random` and floating-point `Math.floor`. `Start` instead takes the drawn piece as its argument.
- The `gameOver: false` field of the hook's initial state (line 26): it is not part of the board state.
- The commented-out reset-on-game-over block (lines 177-186): dead code.
- The `default` branch for an unknown action type (lines 172-174): it cannot arise, because a match on `Action` is exhaustive.
- The contents of the shape table, and the piece kinds other than I: they are defined in a types module that is not part of this model. The table is a parameter.
- Board.IsGameOver: requires a non-empty board. On an empty board `board[0]` is undefined and `.some` throws a TypeError. Every reachable board has 20 rows: `Start` and `Reset` establish `Valid` (StartResetEstablishValid) and every other transition keeps it (ReducePreservesValid), so the throw cannot arise from a state the engine produces. `Valid` does not include "the falling piece does not collide": `Drop` and `Commit` never test for a collision, so no transition keeps it; MoveKeepsCollisionFree proves it for `Move`.
- Collision.HasCollisions: requires `row >= 0`. A negative row reads a missing board row, which throws; the model does not capture which negative rows would happen to avoid that read.
- Rotation.RotateBlock: requires a non-empty square shape. An empty shape has no first row to read, and a shape with more columns than rows makes the write throw. A shape with more rows than columns would make JavaScript grow the rows instead of throwing; that non-square output is not modelled.
- Reducer.Reduce: requires, through `CanReduce`, a supplied `Commit` board of at most 20 rows. A taller board makes `Array` of a negative length throw a `RangeError`. The same requirement carries the two conditions above for `Move`.
- Positions are unbounded integers. JavaScript numbers are floating point, but the engine only adds small integers to them.
- src/App.tsx: JSX rendering, buttons, toast styling and an image import, with no engine logic.
