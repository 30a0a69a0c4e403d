# Tetris board logic in Dafny

A model of the board and session logic of a Rust falling-block game (`src/tetris.rs`).
A session (`Tetris`) holds a grid of `u8` cells (0 is empty; any other value is occupied),
three `u32` counters (level, score, lines) and an optional active piece (`Tetrimino`).
The model covers these four operations:

- `Tetris::new` builds an empty 16 by 10 board at level 1.
- `check_lines` removes every complete row. It then inserts fresh rows at the top until there are 16 rows again.
- `make_permanent` writes the active piece's non-zero cells into the board, clipped at the bottom and right edges. It then clears complete rows and drops the piece.
- `create_new_tetrimino` draws a number mod 7. If that number repeats the previous choice, it draws once more.

Files:

- `cells.dfy` (module `Cells`) holds the cell and counter types, rows and grids, the board size, and the row predicates.
- `lines.dfy` (module `Lines`) holds line clearing. It has a functional reference (`Survivors`, `Pad`, `CheckLinesGrid`). It also has a loop version (`RemoveFullRows`, `Refill`, `CheckLinesScan`) that follows the remove-and-step-back scan of `check_lines` and is proved equal to the reference.
- `placement.dfy` (module `Placement`) holds the piece record and the piece write. `Written` is a cell-by-cell reference. `WritePiece` runs the nested loops of `make_permanent` and is proved equal to it.
- `game.dfy` (module `Game`) holds the session record, `New`, `CheckLines` and `MakePermanent`, with lemmas relating them.
- `selection.dfy` (module `Selection`) holds the anti-repeat choice rule. The random bytes are parameters, and the previous choice is an explicit `Selector` value.

Modelling choices:

- **Row 0 underflow.** When row 0 is complete, `y -= 1` underflows a `usize`. The model follows release-build semantics: the wrapped value is undone by the next `y += 1`. In `RemoveFullRows`, `y` is an `int`, and the transient value -1 stands for the wrapped `usize`.
- **Negative columns.** The write has no left-edge clipping. A non-zero piece cell that the loops reach at a negative column would index out of range. `Placeable` therefore requires that every such cell has `x + dx >= 0`. It also requires that the current state index is in range.
- **Empty rows.** A row with no cells counts as complete: the scan in `check_lines` never finds a zero in it. `IsFull` says the same.
- **Tall grids.** Refilling only adds rows. A grid that keeps more than 16 rows is left as it is.

`check_lines` and `make_permanent` never change `score`, `number_of_lines` or `current_level`. The line counter update is only a comment (src/tetris.rs:67).

## Model

| member | source | states |
|---|---|---|
| Game.New | src/tetris.rs:15-28 | The new session has exactly 16 rows of 10 cells, every cell 0, level 1, score 0, no lines, and no active piece |
| Game.NewIsSettled | src/tetris.rs:15-28 | The new board has nothing to clear and nothing to lock: `CheckLines` and `MakePermanent` leave it unchanged |
| Lines.RowComplete | src/tetris.rs:56-62 | The inner scan returns true exactly when no cell of the row is 0, and for a row with no cells |
| Lines.Survivors | src/tetris.rs:55-71 | No row kept by the scan is complete, and the scan never keeps more rows than the input has |
| Lines.SurvivorsMembers | src/tetris.rs:55-71 | A row is kept by the scan exactly when it is a row of the input and is not complete |
| Lines.SurvivorsAppend | src/tetris.rs:64-71 | Removal by index keeps relative order: clearing a + b gives the survivors of a followed by the survivors of b |
| Lines.SurvivorsOfClean | src/tetris.rs:55-71 | A grid with no complete row loses no row |
| Lines.ScanStep | src/tetris.rs:64-70 | After a removal, the decrement and increment leave `y` on the slot the removed row vacated, so the scan never skips a row; otherwise `y` steps past a kept row |
| Lines.RemoveFullRows | src/tetris.rs:53-71 | The first loop (remove, step back, step on) produces exactly the incomplete rows in their original order, so consecutive complete rows are all removed |
| Lines.Pad | src/tetris.rs:73-75 | The refilled grid has 16 rows (or keeps its length if already longer): fresh 10-cell zero rows on top, then the given rows unchanged |
| Lines.Refill | src/tetris.rs:73-75 | The second loop, which inserts a zero row at index 0 while there are fewer than 16 rows, yields the refilled grid |
| Lines.CheckLinesGrid | src/tetris.rs:52-76 | After clearing, no row is complete, there are at least 16 rows, every row is fresh or an incomplete input row, every incomplete input row is kept, and a 16 by 10 input stays 16 by 10 |
| Lines.CheckLinesShape | src/tetris.rs:64-75 | The cleared grid is k fresh rows followed by the input's incomplete rows in order, with k = 16 minus the number of survivors when fewer than 16 survive |
| Lines.CheckLinesScan | src/tetris.rs:52-76 | The source's two-loop procedure computes exactly the reference clearing |
| Lines.CheckLinesIdempotent | src/tetris.rs:52-76 | Clearing a cleared grid changes nothing |
| Game.CheckLines | src/tetris.rs:52-76 | Clearing leaves no complete row and keeps the 16 by 10 shape. Kept rows are fresh or incomplete input rows, and every incomplete row survives. Score, lines, level and active piece are unchanged |
| Game.CheckLinesIdempotentSession | src/tetris.rs:52-76 | Applying `check_lines` to its own output changes nothing in the session |
| Placement.Written | src/tetris.rs:83-99 | Writing keeps the grid's shape. Each reached non-zero piece cell (inside the state, below the row count, left of the row's length) lands at (y+dy, x+dx). No cell outside the piece's non-zero footprint changes |
| Placement.WritePiece | src/tetris.rs:83-99 | The source's nested loops, clipped at the bottom and right edges, write each reached non-zero piece cell, leave every other cell untouched, and equal the reference write |
| Game.MakePermanent | src/tetris.rs:78-103 | Without an active piece, the state is unchanged. Otherwise the board becomes the clearing of the written board, with no complete row left. The active piece becomes None, the 16 by 10 shape is kept, and score, lines and level are unchanged |
| Game.MakePermanentSteps | src/tetris.rs:78-103 | Running the write loops and then the scan gives the same session as `MakePermanent`, with no complete row and no active piece |
| Game.WriteOneCellAtBottom | src/tetris.rs:83-99 | A one-cell piece at the bottom row fills exactly that cell and leaves the other rows alone |
| Game.ClearCompleteBottomRow | src/tetris.rs:64-75 | A complete row under incomplete rows is removed, the rows above move down, and fresh rows fill the top |
| Game.LockFillsGapClearsBottom | src/tetris.rs:78-103 | Locking a piece that fills the only gap of the bottom row removes that row: the board becomes one fresh row over the former rows 0..14 |
| Selection.Select | src/tetris.rs:31-38 | The choice is in 0..7 and is one of the two draws mod 7. It is the first draw whenever that differs from the previous choice. It repeats the previous choice exactly when both draws mod 7 equal it. The stored previous value becomes the choice |
| Selection.FirstChoiceIsFirstDraw | src/tetris.rs:31-36 | With the initial previous value 7, the first choice after the program starts is always the first draw mod 7 |
| Selection.IndexOf | src/tetris.rs:40-49 | Every kind has a number in 0..7 that spawns it |
| Selection.KindOfInjective | src/tetris.rs:40-49 | Distinct numbers in 0..7 spawn distinct kinds, and numbering a spawned kind gives back its number |
| Selection.CreateNewTetrimino | src/tetris.rs:30-50 | The new selector state is the one the redraw-on-repeat choice produces from the previous value and the two draws, and the spawned kind is the kind that choice numbers |
| Selection.EveryKindReachable | src/tetris.rs:32-49 | From any selector state, some pair of draws spawns any given kind, a repeat included |

## Left out

- src/main.rs is not modelled. It holds window, texture and canvas setup, event polling and frame pacing, with no game rules.
- The `Tetrimino` type, its constructors (`TetriminoI::new()` and the others), rotation and collision testing live in `crate::tetrimino`, which is not part of this model. The piece is a record of the four fields the board reads (`states`, `current_state`, `x`, `y`), and piece shapes are opaque input grids.
- Selection.CreateNewTetrimino: returns the chosen piece kind instead of a constructed piece, because the constructors are not part of this model.
- `rand::random` is not modelled: the two random bytes are parameters of `Select`.
- The `static mut PREV` global is not modelled as process-wide state. It is a `Selector` value passed in and returned. In the code the value carries over between games, because `Tetris::new` never resets it; a caller of the model gets the same behaviour by passing the previous game's last `Selector` on, and `Initial` stands only for the state after the program starts.
- Lines.RemoveFullRows: the debug-build panic when row 0 is complete (`usize` underflow at src/tetris.rs:66) is not modelled. Release-build semantics are modelled instead.
- Game.MakePermanent: the panics for an out-of-range `current_state` or a non-zero cell at a negative column are not modelled. `Placeable` excludes them as a precondition.
- Score, line-count and level updates on clearing or locking are not modelled because the code does not perform them.
- The `u32` counters are never changed by the modelled operations, so no 32-bit overflow arises.
