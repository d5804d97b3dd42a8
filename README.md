# Snake engine in Dafny

A verified model of the game engine of a grid-based Snake game: the class
`GameState` of `Snake/GameState.cs`. The engine owns a `Rows × Cols` grid of
cells (Empty, Snake, Food), the snake's body as a sequence of positions from
head to tail, a heading, a score and a game-over flag. Every tick, `Move`
computes where the head would go and classifies that cell with `WillHit`:
- Off the grid or into the body, the game ends.
- Onto an empty cell, the snake slides: its tail is removed and the new head added.
- Onto food, the snake grows, the score goes up and new food is placed on a random empty cell.

The model keeps the source's imperative form. `GameState` is a class:
- The grid is an `array2<GridValue>` updated in place.
- The C# `LinkedList` body is a `seq<Position>` field. `AddFirst` and `RemoveLast` become prepending and dropping the last element.
- `Dir`, `Score` and `GameOver` are mutable fields.
- `AddSnake` and `EmptyPositions` keep their loops, each with its invariants.

Files:
- `types.dfy` (module `SnakeTypes`): `Direction`, `GridValue`, `Position` and `Position.Translate`.
  - The source files for these types are not part of this model.
  - `Position` is a datatype, so the `==` in `WillHit` is structural equality.
  - `Translate` moves one cell: Up is one row up, Down one row down, Left and Right one column.
- `body.dfy` (module `SnakeBody`): facts about the body sequence. It is free of repeats (`Distinct`) and connected (`Chain`: each segment is edge-adjacent to the one before it).
- `game_state.dfy` (module `SnakeEngine`): the class `GameState`, its invariants and the proofs that construction and every `Move` keep them.
- `scenarios.dfy` (module `SnakeScenarios`): concrete games whose outcome follows from the contracts.

The invariant `Valid()` holds after the constructor and is kept by every `Move` and `ChangeDirection`. It says:
- The grid has the constructed dimensions and no cell stores `Outside`.
- The body lies inside the grid and has no repeated cell.
- A cell is Snake exactly when its position is in the body.
- At most one cell holds food.
- The body is a connected chain.
- `Score` equals the body length minus 3.
- Some cell holds food unless no cell is empty.

## Model

| member | source | states |
|---|---|---|
| SnakeTypes.Direction.RowOffset | Snake/GameState.cs:125 | the row offset of a heading is −1, 0 or 1, and is nonzero exactly for Up and Down |
| SnakeTypes.Direction.ColOffset | Snake/GameState.cs:125 | the column offset of a heading is −1, 0 or 1, and is nonzero exactly for Left and Right |
| SnakeTypes.Position.Translate | Snake/GameState.cs:125 | the translated position shares an edge with the original one |
| SnakeBody.DistinctPrefix | Snake/GameState.cs:91-96 | dropping segments from the tail end keeps the body free of repeats |
| SnakeBody.DistinctTail | Snake/GameState.cs:115-117 | in a body without repeats the tail occurs nowhere in front of it |
| SnakeBody.DistinctIndices | Snake/GameState.cs:17 | the recursive no-repeat property implies that segments at different indices differ |
| SnakeBody.PairwiseDistinct | Snake/GameState.cs:17 | conversely, pairwise different segments give the recursive no-repeat property |
| SnakeBody.DistinctCellCount | Snake/GameState.cs:17 | a body without repeats covers exactly as many cells as it has segments |
| SnakeBody.ChainParity | Snake/GameState.cs:125 | along a connected body the chequerboard colour alternates, so the tail's colour follows from the head's colour and the length |
| SnakeBody.HeadTouchesTailOnlyIfEven | Snake/GameState.cs:115-117 | the head of a connected body can be next to its tail only when the length is even |
| SnakeBody.ChainPrefix | Snake/GameState.cs:91-96 | dropping segments from the tail end keeps the body connected |
| SnakeBody.SlideKeepsChain | Snake/GameState.cs:133-137 | a new head next to the old head, with the tail dropped, leaves a connected body |
| SnakeBody.GrowKeepsChain | Snake/GameState.cs:138-143 | a new head next to the old head, with the tail kept, leaves a connected body |
| SnakeEngine.RowCellCount | Snake/GameState.cs:9 | a grid row `cols` wide has `cols` cells |
| SnakeEngine.GridCellCount | Snake/GameState.cs:25 | a `rows × cols` grid has `rows * cols` cells |
| SnakeEngine.GameState.OutsideGrid | Snake/GameState.cs:103-106 | a position is outside the grid exactly when it is not a valid index pair of `Grid` |
| SnakeEngine.GameState.constructor | Snake/GameState.cs:21-30 | dimensions as given; heading Right; score 0; game not over; body (Rows/2,3), (Rows/2,2), (Rows/2,1), head first; those three cells are Snake; every other cell is Empty or Food, and exactly one holds food; the state is `Valid()` |
| SnakeEngine.GameState.InitialLayout | Snake/GameState.cs:32-41 | the three-cell snake on an otherwise empty grid has a consistent grid and body, is connected, has no food and leaves an empty cell |
| SnakeEngine.GameState.FirstFoodKeepsConsistent | Snake/GameState.cs:57-68 | food placed on an empty cell of a consistent grid that had no food keeps the grid consistent |
| SnakeEngine.GameState.AddSnake | Snake/GameState.cs:32-41 | the three cells of the middle row at columns 3, 2, 1 are put at the front of the body and marked Snake; no other cell changes |
| SnakeEngine.GameState.EmptyPositions | Snake/GameState.cs:43-55 | a position is listed exactly when it is inside the grid and Empty; the list is in strictly increasing row-major order, so it has no repeats |
| SnakeEngine.GameState.AddFood | Snake/GameState.cs:57-68 | if some cell is Empty, exactly one previously Empty cell becomes Food and no other cell changes; if none is Empty, nothing changes; afterwards food exists or no cell is empty; only the grid is modified |
| SnakeEngine.GameState.HeadPosition | Snake/GameState.cs:70-73 | in a valid state the head is an in-grid Snake cell that no other segment occupies |
| SnakeEngine.GameState.TailPosition | Snake/GameState.cs:75-78 | in a valid state the tail is an in-grid Snake cell; in a body without repeats no other segment is on it |
| SnakeEngine.GameState.SnakePositions | Snake/GameState.cs:80-83 | in a valid state the body has at least three segments, has no repeats, is connected, and every segment is an in-grid Snake cell |
| SnakeEngine.GameState.AddHead | Snake/GameState.cs:85-89 | the position is put in front of the body and its cell is marked Snake; no other cell changes |
| SnakeEngine.GameState.RemoveTail | Snake/GameState.cs:91-96 | the last segment is dropped and its cell becomes Empty; no other cell changes |
| SnakeEngine.GameState.ChangeDirection | Snake/GameState.cs:98-101 | the heading becomes the given one, only the heading changes, and validity is kept |
| SnakeEngine.GameState.WillHit | Snake/GameState.cs:108-121 | Outside off the grid; Empty on the current tail; otherwise the cell's content. In a consistent state: Outside exactly off the grid; Snake exactly on a body segment other than the tail; Food only on a food cell off the body; Empty only on an empty cell or the tail |
| SnakeEngine.GameState.Move | Snake/GameState.cs:123-144 | validity is kept; the score never decreases and game over is never reset. Fatal hit: game over, with body, score and grid unchanged. Empty hit: the new head is the old head translated by the heading, the old tail is dropped, the new head's cell becomes Snake and the old tail's cell Empty, and score and flag are unchanged. Food hit: the new head is prepended with the tail kept, the score grows by one, the head's cell becomes Snake, and every other changed cell went from Empty to Food |
| SnakeEngine.GameState.SlideKeepsValid | Snake/GameState.cs:133-137 | sliding onto an empty cell or onto the vacating tail leaves a valid state |
| SnakeEngine.GameState.GrowKeepsValid | Snake/GameState.cs:138-143 | eating, raising the score and placing new food leaves a valid state, with at most one food cell |
| SnakeEngine.GameState.SnakeCellCount | Snake/GameState.cs:85-96 | in a consistent state the number of Snake cells equals the body length |
| SnakeEngine.GameState.ScoreBounded | Snake/GameState.cs:141 | in a valid state the score is at most `Rows * Cols - 3` |
| SnakeEngine.GameState.TailExceptionNeedsEvenLength | Snake/GameState.cs:115-117 | the head can step onto the current tail only when the body length is even and at least 4 |
| SnakeScenarios.ReversalIsFatal | Snake/GameState.cs:123-132 | on a fresh 5 × 5 game, turning Left and moving ends the game with score 0 and the body unchanged |
| SnakeScenarios.FatalMoveRepeats | Snake/GameState.cs:123-132 | a second move after that fatal reversal, with the heading unchanged, again ends the game and leaves score and body unchanged |
| SnakeScenarios.TurnAfterGameOverStillMoves | Snake/GameState.cs:98-101 | after that fatal reversal, turning Up and moving still advances the head to (1,3), since `Move` does not check the game-over flag; the flag stays set |
| SnakeScenarios.TurnUpAndMove | Snake/GameState.cs:123-143 | from the body (2,3), (2,2), (2,1) on a valid 5 × 5 grid, turning Up and moving puts the head on (1,3) and leaves the game-over flag as it was |
| SnakeScenarios.FirstMoveOffNarrowGrid | Snake/GameState.cs:21-30 | on a fresh 1 × 4 game the food is at column 0, and the first move to the right leaves the grid and ends the game |

## Left out

- The random number generator. `random.Next(empties.Count)` becomes a nondeterministic choice of an index into the list of empty cells. `AddFood`'s contract holds for every choice.
- `EmptyPositions` is a lazy C# iterator (`yield return`). The model returns the whole list at once, which is how `AddFood` consumes it anyway.
- `Snake/MainWindow.xaml.cs` is not part of this model. It holds the window, rendering and key handling.
- The constructor does not validate its arguments, and the model states the cases that work as the precondition `rows >= 1 && cols >= 4`. The others fail in the source:
  - Negative dimensions fail at line 25: allocating the grid throws an overflow exception.
  - `rows == 0` fails at line 38: marking the first snake cell indexes a grid with no rows.
  - Fewer than four columns also fails at line 38: the loop writes columns 1 to 3, and at least one of them does not exist.
- The source throws on an empty body (`First`/`Last` of an empty list) and on an out-of-grid index. The model does not model exceptions. Instead:
  - `HeadPosition`, `TailPosition` and `WillHit` require a non-empty body.
  - `AddHead` requires an in-grid position.
  - `RemoveTail` requires an in-grid tail.
  - A valid state meets all of these.
- The C# array is zero-initialised, which gives Empty as the first enum value. The model allocates the grid with an explicit Empty initialiser.
- The 32-bit wrap-around of `Score++` is not modelled; `Score` is an unbounded integer. `ScoreBounded` shows the score stays at most `Rows * Cols - 3`, so it cannot wrap on any grid of fewer than 2^31 cells.
- `Move` does not check `GameOver` first, and the model follows the code. A fatal move changes only `GameOver`. So while the heading is unchanged, a further `Move` repeats the same fatal verdict and changes nothing (`FatalMoveRepeats`). After a `ChangeDirection` it can still move the snake (`TurnAfterGameOverStillMoves`). No general no-op is claimed.
- `WillHit` has no special case for a one-segment body; a valid body always has at least three segments.
- A three-segment snake can never move onto its own tail: `TailExceptionNeedsEvenLength` proves the head can reach the tail only when the length is even and at least 4, so with three segments a reversal is fatal (`ReversalIsFatal`).
- SnakeEngine.GameState.Move: the food branch says each changed cell other than the head went from Empty to Food. It does not name the one cell that received food. That "exactly one" fact is stated by `AddFood`. After the move, `Valid()` gives at most one food cell, and food unless no cell is empty.
- Aliasing is not modelled. Callers could write to the public `Grid` array, but only the engine's own methods do so in the model. `SnakePositions()` returns the live `LinkedList` (Snake/GameState.cs:80-83), which a holder sees change on later moves; the model returns the body as a `seq` value at the time of the call.
