# Tetrish game core in Dafny

This project models the game core of tetrish, a small terminal Tetris written in C. The model has three modules:

- **`Piece`** (`piece.dfy`) covers the pure piece geometry of `piece.c`:
  - the catalogue of seven shapes, each a box of `xl` by `yl` cells stored row by row, with its number of rotation states;
  - the box width and height seen at a rotation (`piece_xl`, `piece_yl`);
  - the cell seen at a local coordinate after a rotation (`piece_char`);
  - the next rotation index (`piece_rotate`).
- **`Grid`** (`grid.dfy`) describes on values what the board operations do to the 30-row by 10-column grid of cells. It covers:
  - emptying a row and removing a row;
  - the top-to-bottom clearing pass of `merge_piece`;
  - stamping a piece into the grid;
  - the collision test of `piece_collision`;
  - the row where a hard drop comes to rest.
- **`Tetrish`** (`tetrish.dfy`) is the board of `tetrish.c`, updated in place. It is a class whose fields are:
  - the grid, as a `const` two-dimensional array;
  - the falling piece, as an `Option` of a shape;
  - the piece's origin and rotation.

  Each board function of the source becomes a method with loops. Each method is proved against the matching `Grid` function. The key and tick handlers of `main` become methods that keep one invariant, `Playing()`: a piece is falling and does not collide.

Some parts of the source are parameters in the model:

- The random choice of the next piece is the parameter `next` (or `r`). It is a catalogue index.
- The terminal's key or timer tick is an `Event`.

## Model

| member | source | states |
|---|---|---|
| Piece.CatalogueWellFormed | piece.c:3-89 | the catalogue has `PIECES_NUM` = 7 entries; each is sized, square, at most 4 wide, has 1, 2 or 4 rotation states and at least one occupied cell |
| Piece.Xl | piece.c:91-98 | `piece_xl`: the stored width at rotation 0; at each of rotations 0 to 2 the width equals the height seen at the next rotation; any index outside 0..3 gives the stored height |
| Piece.Yl | piece.c:100-107 | `piece_yl`: one of the stored dimensions; the stored height at rotations 0 and 2; any index outside 0..3 gives the stored width |
| Piece.BoxAtRotation | piece.c:91-107 | a quarter turn swaps the box's width and height; every view has exactly as many cells as the shape stores |
| Piece.SourceIndex | piece.c:111-134 | the stored index read for any in-box cell at any rotation lies inside the shape's data |
| Piece.CharAt | piece.c:109-139 | an in-box cell is one of the shape's own cells; a cell outside the rotated box (including negative coordinates, which are huge when unsigned) is the blank `' '` |
| Piece.StoredAndHalfTurn | piece.c:111-121 | at rotation 0 the cell is the stored cell `data[x + y*xl]`; rotation 2 shows the same cell at the point-reflected position |
| Piece.QuarterTurnReads | piece.c:122-134 | at rotation 1 an in-box cell is `data[(xl-1-y) + x*xl]`, at rotation 3 it is `data[y + (yl-1-x)*xl]`, and both indices lie inside the data |
| Piece.QuarterTurnOfView | piece.c:109-139 | the view at rotation k+1 is `QuarterTurn` of the view at k, where cell (x, y) of the turned grid is cell (w-1-y, x) of the original; rotation 3 turns back into 0. With row 0 drawn at the top, as the board is drawn, this is a counter-clockwise turn |
| Piece.FourQuarterTurns | piece.c:109-139 | four quarter turns of the stored view give the stored view back |
| Piece.OccupiedInEveryView | piece.c:109-139 | a well-formed shape shows an occupied cell at every rotation index |
| Piece.Rotate | piece.c:141-149 | for a shape with at least one rotation state, the next rotation index is below the rotation count |
| Piece.RotateIsSuccessor | piece.c:141-149 | from a valid rotation index, the next one is the successor modulo the rotation count |
| Piece.RotationCycle | piece.c:141-149 | rotating as many times as there are rotation states returns to the starting rotation |
| Grid.RowRemovedKeepsTop | tetrish.c:120-128 | after removing row r ≥ 1 the old top row is in both rows 0 and 1, and the rows below r are untouched (the shift of the other rows down by one is the definition of `RowRemoved`) |
| Grid.ClearedRows | tetrish.c:151-159 | the clearing pass yields the board's non-full rows in their order at the bottom, below as many copies of the old top row (an empty row if the top row was full) as there were full rows |
| Grid.NoFullRowAfterClear | tetrish.c:151-159 | after the clearing pass no row of the board is full |
| Grid.ClearFromKeepsLowerRows | tetrish.c:151-159 | rows below every full row come through the clearing pass unchanged |
| Grid.StampKeepsEveryCell | tetrish.c:135-148 | for a non-colliding placement every occupied piece cell lands inside the board on an empty cell, and stamping writes it there |
| Grid.PlacementWithinBoard | tetrish.c:164-186 | a non-colliding placement keeps the piece's box overlapping the board horizontally and vertically |
| Grid.LandingRow | tetrish.c:263-266 | a hard drop from a non-colliding row ends at the first row below which the piece collides; every row on the way is free |
| Grid.SpawnFitsEmptyBoard | tetrish.c:190-199 | every catalogue piece fits unrotated at the top-left corner of the empty board |
| Grid.LinePieceAtRightEdge | tetrish.c:164-186 | the line piece collides with its box at column 7 of the empty board, because its occupied row would reach column 10 |
| Grid.TPieceLeftOfBoard | tetrish.c:164-186 | the T piece at rotation 1 has an empty left column, so with its box at column -1 of the empty board it does not collide: origins can be negative |
| Tetrish.Game.constructor | tetrish.c:55-64 | `board_init`: the grid is newly allocated, every cell is `'.'` and there is no falling piece |
| Tetrish.Game.RowIsFull | tetrish.c:96-108 | `board_row_is_full`: true exactly when no cell of the row is `'.'` |
| Tetrish.Game.EmptyRow | tetrish.c:111-117 | `board_empty_row`: the row becomes empty and every other row is unchanged |
| Tetrish.Game.RemoveRow | tetrish.c:120-128 | `board_remove_row`: the grid becomes the row-removed grid of the old one |
| Tetrish.Game.StampPiece | tetrish.c:135-148 | the stamping half of `merge_piece`: the grid becomes the old grid with the falling piece's occupied in-board cells written in |
| Tetrish.Game.StampRow | tetrish.c:136-147 | one pass of the inner stamping loop: if the piece's cells in local rows above y are already written in, then afterwards those of row y are too; every other cell still holds the grid from before the merge |
| Tetrish.Game.ClearRowIfFull | tetrish.c:152-158 | one iteration of the clearing loop: a full row is emptied and removed, and any other row leaves the grid alone |
| Tetrish.Game.ClearFullRows | tetrish.c:151-159 | the clearing loop computes the clearing pass of the grid; afterwards no row is full |
| Tetrish.Game.MergePiece | tetrish.c:131-160 | `merge_piece`: the piece is stamped, then dropped, then full rows are cleared; no row is full afterwards |
| Tetrish.Game.PieceCollision | tetrish.c:164-186 | `piece_collision`: true exactly when some occupied cell of the piece at that origin and rotation is outside the board or on a non-empty cell |
| Tetrish.Game.AddNewFallingPiece | tetrish.c:190-199 | `add_new_falling_piece`: entry r becomes the falling piece at origin (0, 0), rotation 0; the answer is true exactly when it does not collide, that is, when the game goes on |
| Tetrish.Game.Start | tetrish.c:211-212 | the first spawn on the freshly initialised board puts entry `first` at origin (0, 0), rotation 0, on the still empty grid, and it always fits, so play starts |
| Tetrish.Game.MoveLeft | tetrish.c:237-240 | key `h`: the piece moves one column left exactly when that does not collide; the grid is unchanged and the invariant holds |
| Tetrish.Game.MoveRight | tetrish.c:242-245 | key `l`: the piece moves one column right exactly when that does not collide; the grid is unchanged and the invariant holds |
| Tetrish.Game.RotatePiece | tetrish.c:247-251 | key `k`: the piece takes the next rotation exactly when that does not collide; the grid is unchanged and the invariant holds |
| Tetrish.Game.LockAndSpawn | tetrish.c:256-260 | merge then spawn: the grid is the cleared, stamped grid; the new piece is entry `next` at the corner; the game is over exactly when it collides |
| Tetrish.Game.StepDown | tetrish.c:253-261 | key `j` (and the tick, tetrish.c:273-284): the piece moves down one row when that does not collide, leaving the grid unchanged; otherwise it locks where it is and the next piece spawns |
| Tetrish.Game.HardDrop | tetrish.c:263-271 | key space: the piece falls to its landing row and is locked there; the loop terminates; then the next piece spawns |
| Tetrish.Game.HandleEvent | tetrish.c:234-288 | one turn of the game loop: the game continues exactly when the invariant holds; only `j`, space or the tick can end it; any other key changes nothing |
| Tetrish.NewGame | tetrish.c:211-212 | the start of `main`: a new board with the first piece at (0, 0), rotation 0, on the empty grid, in play |
| Tetrish.Play | tetrish.c:220-290 | the game loop over a finite run of events: it stops at the first turn that ends the game, which is a `j`, a space or a tick; until then, and after every event when the game goes on, the invariant holds |

## Left out

- The terminal handling is left out because it is I/O with no effect on the game state:
  - setting and restoring the terminal mode (tetrish.c:26-44);
  - clearing the screen (tetrish.c:47-52);
  - drawing the board, `board_print` (tetrish.c:66-93);
  - the redraws and the one-second `sleep` inside `merge_piece`.
- The wait for a key or the timeout (`select`, `getchar`, the `timeval` set-up) is left out. Each turn is given as an `Event`. At tetrish.c:217-218 the source writes `tv_sec` twice, where the second write was meant for `tv_usec`. So `tv_sec` ends up 0 and the local `tv_usec` is never initialised before the first `select` (tetrish.c:228). How long that first wait lasts, or whether `select` fails at once on an invalid value and `main` exits through the error path of tetrish.c:230-232 before any turn, is I/O that the model leaves out.
- The `select` error path (`perror` and `exit(-1)`) is left out because it is I/O.
- `rand()` is not modelled; the spawn index is a parameter with `0 <= next < PIECES_NUM`, which is exactly what `rand() % PIECES_NUM` yields.
- The endless `while(1)` loop of `main` is modelled by `Play` over a finite sequence of events; an unbounded run is not. `HandleEvent` models one turn. A `true` answer stands for the `return 0` at tetrish.c:259, 269 and 282.
- Board coordinates, origins and rotation indices are unbounded integers:
  - A non-colliding placement keeps the origin within one box width or height of the board (`Grid.PlacementWithinBoard`: `-Xl < x0 < Cols` and `-Yl < y0 < Rows`). The origin can be negative: the T piece at rotation 1 fits with its box at column -1 (`Grid.TPieceLeftOfBoard`). The 32-bit `int` fields therefore cannot overflow in play.
  - The unsigned parameters of `piece_char` and `piece_collision` are handled by their effect. A negative local coordinate is outside the box. A negative board position (for example `fp_x0 - 1` passed as unsigned and added back into an `int`) is outside the board, as the source's two's-complement arithmetic gives.
- The falling piece is a `Shape` value rather than a pointer into the static catalogue. The shapes are never written to, so no aliasing is lost.
- `piece.h` holds only declarations and the `PIECES_NUM` constant; the constant is `Piece.PiecesNum`.
- Tetrish.Game.HandleEvent: the contract states the invariant, which events can end the game and that other keys change nothing. What each command does to the piece and grid is stated by the handler it calls (`MoveLeft`, `MoveRight`, `RotatePiece`, `StepDown`, `HardDrop`).

## Notes

Row removal does not leave an empty row on top, as a Tetris line clear normally would. `board_remove_row` (tetrish.c:120-128) never writes row 0, so the old top row ends up in both rows 0 and 1. The model follows the code; `Grid.RowRemovedKeepsTop` and `Grid.ClearedRows` state it. The top row is non-empty only when the stack has reached the top.
