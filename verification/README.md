# 2048 rule engine, modelled in Dafny

This project models the rule engine of a 4×4 game of 2048 (`Game2048Manager`) and the game-over test of the Android activity that drives it (`MainActivity.hasValidMoves`, `isGameOver`, `performMove`). The board is a value: `seq<seq<nat>>` with four rows of four cells, where 0 is an empty cell.

- `line.dfy`, module `Line`: the line merge `mergeTiles`. `MergeLine` is a reference definition: a left-to-right scan (`Scan`, one `Push` per cell) followed by padding with zeros. `MergeTiles` is the source loop with its write position `pos`, and it is proved equal to the reference.
- `grid.dfy`, module `Grid`: the board and the four directional moves. Each direction has an index mapping that reads a row or column in travel order (`ExtractLine`). `Slide` is the board after every line is merged. `MoveLines` is the source's extract, merge and write-back loop, and it reports whether any cell changed.
- `manager.dfy`, module `Manager`: the game state `Game(grid, gameWon)`, the constructor, `spawnTile`, `checkGameWon` and `move`.
- `activity.dfy`, module `Activity`: `hasValidMoves`, `isGameOver` and `performMove`. The lemmas here relate the adjacency scan to the moves.

This model follows the code, not textbook 2048. `mergeTiles` does not mark a slot as already merged, so a doubled slot can absorb the next equal tile. For example, `[2,2,4,4]` merges to `[8,4,0,0]`, not `[4,8,0,0]`, and `[2,2,4,8]` merges to `[16,0,0,0]`. Textbook 2048 lets each tile merge at most once per move; where that differs from the code, this model follows the code. `Line.ChainedMerges` pins these cases down.

Randomness is a nondeterministic choice. `SpawnTile` places a 2 or a 4 (`:|`) into some empty cell (`:|`). No claim is made about which value or which cell.

## Model

| member | source | states |
|---|---|---|
| `Line.MergeTiles` | app/src/main/java/com/example/game2048/Game2048Manager.java:154-172 | The source loop with `pos` and `newTiles` returns exactly the reference merge. The reference is the scan that skips zeros, doubles the last written slot when it equals the next tile and otherwise appends, then pads with zeros. |
| `Line.MergeLineShape` | app/src/main/java/com/example/game2048/Game2048Manager.java:154-172 | The merged line has the input's length. All its tiles come before all its zeros. It holds no more tiles than the input. |
| `Line.MergeLineConservesSum` | app/src/main/java/com/example/game2048/Game2048Manager.java:158-169 | The sum of the merged line equals the sum of the input line. |
| `Line.MergeLinePreservesTiles` | app/src/main/java/com/example/game2048/Game2048Manager.java:160-162 | If every input cell is 0 or a power of two, every output cell is too. |
| `Line.ChainedMerges` | app/src/main/java/com/example/game2048/Game2048Manager.java:158-169 | A merged slot is not frozen: `[2,2,4,8]`→`[16,0,0,0]`, `[2,2,4,4]`→`[8,4,0,0]`, `[2,2,2,0]`→`[4,2,0,0]`. Also `[2,0,0,2]`→`[4,0,0,0]`. |
| `Line.MergeLineFixpoint` | app/src/main/java/com/example/game2048/Game2048Manager.java:154-172 | The merge leaves a line unchanged if and only if the line is stable. Stable means tiles are packed toward index 0 and no tile equals the next one. |
| `Line.MergeChangeLeavesRoom` | app/src/main/java/com/example/game2048/Game2048Manager.java:154-172 | A line the merge changes comes out with at least one empty cell. |
| `Grid.ParseDirection` | app/src/main/java/com/example/game2048/Game2048Manager.java:24-39 | Exactly the four names UP, DOWN, LEFT and RIGHT select a direction, each its own. Every other string selects none. |
| `Grid.Slide` | app/src/main/java/com/example/game2048/Game2048Manager.java:73-152 | Each line of the moved board, read in travel order, is the merge of that line of the original board. Lines are processed independently, and RIGHT and DOWN read in reversed index order. |
| `Grid.WriteLine` | app/src/main/java/com/example/game2048/Game2048Manager.java:83-88 | The write-back stores the merged values into exactly the cells of one line and leaves every other line alone. Its flag is set if and only if the stored line differs from the old one. |
| `Grid.MoveLines` | app/src/main/java/com/example/game2048/Game2048Manager.java:73-152 | The loop of `moveUp`/`moveDown`/`moveLeft`/`moveRight` produces the moved board. It returns true if and only if some cell differs from before. |
| `Grid.SlideChangedIffLineChanged` | app/src/main/java/com/example/game2048/Game2048Manager.java:73-152 | A move changes the board if and only if the merge changes at least one of its rows or columns. |
| `Grid.SlidePreservesTiles` | app/src/main/java/com/example/game2048/Game2048Manager.java:73-152 | A move keeps every cell 0 or a power of two. |
| `Grid.SlideConservesTotal` | app/src/main/java/com/example/game2048/Game2048Manager.java:73-152 | A move conserves the sum of all cells. |
| `Grid.SlideChangeLeavesRoom` | app/src/main/java/com/example/game2048/Game2048Manager.java:41-42 | After a move that changed the board, some cell is empty, so the spawn that follows can succeed. |
| `Manager.SpawnTile` | app/src/main/java/com/example/game2048/Game2048Manager.java:48-60 | The spawn needs an empty cell. It sets exactly one previously empty cell to 2 or 4 and changes nothing else, so the total grows by 2 or 4. |
| `Manager.CheckGameWon` | app/src/main/java/com/example/game2048/Game2048Manager.java:62-71 | The board is unchanged. The flag is afterwards set if and only if it was set before or some cell holds 2048, so it is never reset. |
| `Manager.NewGame` | app/src/main/java/com/example/game2048/Game2048Manager.java:8-14 | A new game has exactly two tiles, in distinct cells and each 2 or 4. All other cells are 0 and `gameWon` is false. |
| `Manager.Move` | app/src/main/java/com/example/game2048/Game2048Manager.java:24-46 | The result is true if and only if the name is a direction and that move changes the board. A blocked move or an unknown name leaves the grid and the flag untouched. A changing move spawns one tile into the moved board. The flag becomes true after a changing move that leaves a 2048, and once true it stays true. The total grows by 2 or 4 exactly when something moved. Cells stay 0 or powers of two. |
| `Activity.HasValidMoves` | app/src/main/java/com/example/game2048/MainActivity.java:119-129 | The scan returns true if and only if some cell is 0 or some vertically or horizontally adjacent pair is equal. |
| `Activity.IsGameOver` | app/src/main/java/com/example/game2048/MainActivity.java:115-117 | Game over holds exactly when the board is full and has no equal adjacent pair. |
| `Activity.GameOverBlocksEveryMove` | app/src/main/java/com/example/game2048/MainActivity.java:115-129 | On a board that is over, every direction leaves the board unchanged, so `move` returns false. |
| `Activity.CanMoveIffSomeMoveChanges` | app/src/main/java/com/example/game2048/MainActivity.java:119-129 | On a board with at least one tile, `hasValidMoves` holds if and only if some direction changes the board. |
| `Activity.PerformMove` | app/src/main/java/com/example/game2048/MainActivity.java:54-61 | The move is made through `move`: it happens if and only if the name is a direction whose slide changes the board. A changing move spawns one tile into the slid board and keeps the win flag sticky. A blocked move leaves the game as it was. Game over is reported only after a move that changed the grid, and then exactly when no valid move is left. A board that is already over never moves. |

## Left out

- Score: `Game2048Manager` has no score field and no `getScore`, although `MainActivity` calls one. No score is modelled.
- High-score persistence (`saveHighScore`, `getHighScore`, `showGameOver`): this is I/O through Android shared preferences.
- Gesture recognition (`SwipeGestureListener.onFling`): it applies float thresholds to touch events. The model takes the direction name as an input string.
- Rendering and restart wiring (`updateUI`, `updateTileUI`, `getTileBackground`, `restartGame`, `onCreate`): this is Android UI. A restart is a fresh `Manager.NewGame`.
- Manager.SpawnTile: the 90%/10% distribution of 2 and 4 is not modelled, and neither is the uniform choice of cell. The spawn is a nondeterministic choice of value in {2, 4} and of an empty cell. The source's random retry loop ends only if an empty cell exists. That is modelled as a precondition, and `Grid.SlideChangeLeavesRoom` shows that `move` meets it.
- Array aliasing: `getGrid` returns the internal mutable array. The model treats the grid as a value and does not model writes through that reference.
- 32-bit arithmetic: cells are unbounded naturals. Java's `*= 2` on `int` would wrap only for a tile of 2^30 or more, and this is not modelled.
- Line.MergeTiles: it requires a line of exactly four cells. Every caller in the source passes one, and the source's output array always has four cells.
- Activity.CanMoveIffSomeMoveChanges: it requires at least one tile. The all-empty board has empty cells, so `hasValidMoves` holds, yet no move changes it. A constructed game never has an all-empty board.
