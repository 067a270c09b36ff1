# Falling-blocks game engine, modelled in Dafny

The game is a browser Tetris. Its state is:

- a 20-row by 10-column board of settled cells;
- the falling piece and the next piece;
- the score and the cleared-lines counter;
- the game-over and paused flags.

The player moves, rotates and hard-drops the falling piece with the keyboard, and a timer moves it down one row at a time. A piece that cannot move down any further is merged into the board. Then:

- complete rows are cleared and scored;
- the next piece becomes the falling one and a new next piece is spawned;
- the game is over when the promoted piece does not fit.

The model keeps that state as an immutable `GameState` and each operation as a pure function over it:

| module | file | contents |
|---|---|---|
| `Grid` | `grid.dfy` | board constants, row and shape predicates, the empty board |
| `Pieces` | `pieces.dfy` | the seven-shape catalog and the spawn function |
| `Rotation` | `rotation.dfy` | the clockwise turn (transpose, then reverse each row) |
| `Collision` | `collision.dfy` | the collision test, a nested scan, and its single-existential characterisation |
| `Merge` | `merge.dfy` | writing a piece into the board, including the above-the-top flag |
| `Lines` | `lines.dfy` | the bottom-up clearing scan and its reference result |
| `Scoring` | `scoring.dfy` | the points table |
| `Game` | `game.dfy` | the state machine: move, rotate with kicks, hard drop, merge, pause, keyboard, buttons, event runs |
| `Scenarios` | `scenarios.dfy` | concrete plays: the I piece dropped on an empty board, and dropped into a one-row gap |

A cell is an `int`:

- 0 means empty;
- a piece of kind `k` (0 = I, …, 6 = Z) has colour `k + 1`, which stands for the kind's colour string.

The random piece kind is an explicit parameter `kind < 7` of every operation that spawns a piece.

`Game.Valid` is the invariant of every reachable state. It says:

- the board is well formed, its cells hold colours, and no row is complete;
- both pieces are well formed;
- while the game runs, the falling piece fits where it stands, with its box top on the board.

`Game.InitGame` establishes it. Every event preserves it (`Game.Run`). The step functions require it.

## Model

| member | source | states |
|---|---|---|
| Grid.InitBoard | script.js:51-53 | the fresh board has 20 rows of 10 cells, all empty, so no row is complete |
| Pieces.CreatePiece | script.js:56-64 | a spawned piece has its kind's catalog shape and colour, sits on row 0, lies inside the columns, and its box is centred (an odd width is one column right of centre) |
| Pieces.SpawnColumns | script.js:61 | the I piece spawns in columns 3..6; the O piece and the five three-wide pieces spawn from column 4 |
| Collision.CollidesSpec | script.js:115-132 | the nested scan reports a collision exactly when some occupied cell of the placed shape is left of column 0, right of column 9, below row 19, or on a settled cell of a row on the board |
| Collision.CollidesIffNotFits | script.js:115-132 | no collision is the same as every occupied cell being inside the walls, above the floor, and on an empty cell wherever it is on the board |
| Collision.FitsAboveFloor | script.js:125 | a non-colliding piece with an occupied cell has its box top above the floor |
| Collision.EmptyBoardCollision | script.js:122-127 | on an empty board only the side walls and the floor block a shape; rows above the board never clash |
| Rotation.Rotate | script.js:139-141 | turning an R-by-C shape gives a C-by-R shape whose cell (i, j) is the original cell (R-1-j, i) |
| Rotation.RotateTwice | script.js:139-141 | two turns are a half turn: cell (i, j) comes from (R-1-i, C-1-j) |
| Rotation.RotateFourTimes | script.js:139-141 | four clockwise turns give back the original shape |
| Rotation.RotateCells | script.js:139-141 | the occupied cells of the turned shape are exactly the images of the original's occupied cells under (y, x) -> (x, R-1-y) |
| Rotation.RotateKeepsCellCount | script.js:139-141 | a turn keeps the number of occupied cells |
| Rotation.RotateKeepsShapeOk | script.js:139-141 | a rectangular, non-blank shape of at most 4 by 4 stays so when turned, with its dimensions swapped |
| Game.Kick | script.js:143-152 | the turned shape goes to the first offset of 0, -1, +1 columns where it fits; if it fits at none, the piece is unchanged; row and colour never change |
| Game.RotatePiece | script.js:135-154 | rotation does nothing without an active piece; otherwise the falling piece becomes its kicked turn, and the state stays valid |
| Merge.MergeCells | script.js:157-173 | after merging, each board cell under an occupied piece cell holds the piece colour and every other cell is unchanged; the flag is raised exactly when some occupied cell lies above row 0 |
| Merge.MergeOnBoardNeverAbove | script.js:161-169 | a piece whose box top is on the board never takes the above-the-top early return |
| Merge.MergeTouchesOnlyPieceRows | script.js:158-173 | rows outside the piece's box are left unchanged by the merge |
| Game.MergedBoard | script.js:158-173 | the board after writing a fitting piece is well formed, holds the piece exactly over its occupied cells, and has at most as many complete rows as the piece has rows (so at most 4) |
| Game.MergePiece | script.js:157-189 | landing writes the piece, clears the complete rows, adds their count to the lines and the table's points to the score, promotes the next piece, spawns a new one, and sets game over exactly when the promoted piece collides; the result is valid |
| Lines.ClearScan | script.js:192-202 | the bottom-up scan that re-examines an index after a removal ends with the complete rows of the scanned part removed, as many empty rows on top, the other rows in order below them, and a count of the rows removed |
| Lines.ClearLines | script.js:192-202 | clearing leaves no complete row, keeps the incomplete rows in their order at the bottom, fills the top with as many empty rows as were complete, and reports that number |
| Lines.ClearLinesNoFull | script.js:195 | a board without complete rows is left as it is, with nothing counted |
| Lines.ClearSingleRow | script.js:194-201 | with exactly one complete row k, clearing drops it, shifts the rows above k down by one and adds one empty row on top |
| Lines.KeptLength | script.js:197-198 | every row is either kept or counted as cleared, so the board keeps its height |
| Lines.KeptRows | script.js:197-198 | the kept rows are rows of the input, and none of them is complete |
| Scoring.LineScore | script.js:208-209 | the table awards at least 100 points per cleared row and nothing for clearing no row |
| Scoring.LineScoreIncreasing | script.js:208 | clearing more rows at once is always worth more |
| Scoring.MultiClearBonus | script.js:207-208 | clearing two to four rows at once beats clearing them one at a time |
| Scoring.ApplyClear | script.js:205-212 | the guarded update adds the table's points and the row count, which is the same as always adding, since no row scores nothing |
| Game.MovePiece | script.js:216-230 | a move happens and reports true exactly when there is an active piece and the shifted piece fits; a blocked downward move lands the piece; any other blocked move, or a move without an active piece, changes nothing and reports false |
| Game.MoveRoundTrip | script.js:216-223 | a successful sideways move is undone by the opposite move, which always succeeds |
| Game.FallDepth | script.js:235 | the depth the piece falls is its landing depth: it fits at every depth up to it and not one row further, and its box top stays above the floor |
| Game.LandingUnique | script.js:235 | a piece has exactly one landing depth |
| Game.HardDrop | script.js:233-236 | without an active piece nothing happens; otherwise the piece is lowered to its landing depth, fewer than 20 rows, and merged there |
| Game.HardDropLandsAt | script.js:233-236 | the hard drop ends by merging the piece at its landing depth, whichever landing depth is named |
| Game.HardDropRepeatsMoveDown | script.js:235 | the hard drop is the loop of downward moves: after a successful move it goes on from the lowered piece, and the first blocked move, which lands the piece, is its result |
| Game.TogglePause | script.js:289-292 | pausing flips the paused flag and nothing else, and does nothing once the game is over |
| Game.TogglePauseTwice | script.js:289-292 | toggling pause twice restores the state |
| Game.KeyDown | script.js:263-286 | keys are ignored once the game is over; while paused only the pause key has an effect; the state stays valid |
| Game.Tick | script.js:239-244 | while the game runs, a gravity tick lowers the piece one row when it fits there and otherwise lands it (merge, clear, score, spawn); it changes nothing while the game is paused or over, and keeps the state valid |
| Game.InitGame | script.js:247-260 | a new game has an empty board, zero score and lines, both flags cleared, and two spawned pieces, the first of which fits |
| Game.StartButton | script.js:302-306 | the start button is ignored while the game runs; on a game that is over or paused it restarts: empty board, zero score and lines, both flags cleared, the first piece of the given kind falling and the second one next, in a valid state |
| Game.Step | script.js:263-314 | every event keeps the state valid; the reset button restarts from any state, even mid-game, with an empty board, zero totals and the two given pieces spawned; the pause button changes only the paused flag, and flips it exactly when the game is not over |
| Game.Run | script.js:263-314 | every sequence of keys, ticks and button presses keeps the reachable-state invariant |
| Game.GameOverIsFinal | script.js:264 | once the game is over, keys, ticks and the pause button leave the state exactly as it is |
| Scenarios.ILandsOnBottom | script.js:233-236 | the spawned I piece falls through empty rows to land on the bottom row |
| Scenarios.HardDropIOnEmptyBoard | script.js:233-236 | on an empty board, a hard-dropped I piece ends on columns 3..6 of the bottom row, and score and lines are unchanged |
| Scenarios.HardDropIClearsBottom | script.js:192-212 | an I piece dropped into a four-cell gap of the bottom row completes it: one line and 100 points are added, and the board ends up empty |
| Scenarios.NewGameWithI | script.js:247-260 | a new game whose first piece is the I piece has that piece at its spawn position over an empty board |

## Left out

- Drawing on the canvases, the text of the score and lines elements, the button labels and the game-over alert are output only and are not modelled.
- `Math.random` is not modelled. The piece kind is a parameter of every operation that spawns a piece.
- The interval timer is not modelled. Each firing is an explicit `TimerTick` event. The timer runs only while the game is neither paused nor over, and a tick at any other time changes nothing in the model.
- Colours are not modelled as strings. A cell holds the kind's index plus one, and 0 stands for the empty cell.
- `movePiece` returns `undefined` without an active piece. The model returns false there. Both are falsy, so the hard-drop loop behaves the same.
- The optional `(piece, dx, dy, rotatedShape)` signature of the collision test is not kept. The model passes the shape and the shifted position directly.
- The operations require `Game.Valid`, the reachable-state invariant, because the source never calls them from other states. Every event preserves it (`Game.Run`).
- Merge.MergeCells: the source writes cells without a bounds check. The model requires the piece to lie inside the walls and above the floor, which a fitting piece always does.
- Game.MergePiece: the early `return` inside the merge loop on a cell above row 0 is reproduced. That cell is skipped and game over is set. `Merge.MergeOnBoardNeverAbove` shows this branch cannot be reached from a valid state.
- Game.KeyDown: the contract states the guards of the handler (game over, paused) and validity, not which command each key runs; that dispatch is the body itself.
