# Reversi rules engine and computer opponent

This project models the rules engine and the computer opponent of a console Reversi game,
`reversi.py`. The board has 8x8 cells, and each cell is blank, `X` or `O`. Cells are addressed
`board[x][y]`.

- `Tiles` (tiles.dfy) holds the cell values and the opponent-tile map. It also holds
  `isOnBoard` as `OnBoard`, `isOnCorner` as `OnCorner`, and the table of eight scan directions.
- `Grids` (grids.dfy) treats the board as a value `seq<seq<Tile>>`. It defines the blank board
  (`getNewBoard`), the starting position (`resetBoard`) and tile counts (`getScoreOfBoard`).
- `Capture` (capture.dfy) defines the capture rule of `isValidMove` twice:
  - as the scan the program performs, ray by ray in its fixed direction order;
  - as an independent geometric predicate, `Flanked`.

  It proves that the two definitions agree.
- `Moves` (moves.dfy) covers legal-move enumeration (`getValidMoves`) and the effect of a move
  on a grid (`makeMove`), with its tile-count consequences.
- `BoardState` (board.dfy) is the board as the program holds it: a mutable 8x8 array inside a
  class. Every function that reads or writes the board in place is a method there. Each method
  is proved against the value-level functions above. This includes:
  - the temporary write into the target cell and its restore in `isValidMove`;
  - the loops that walk each ray out and back;
  - the nested scans;
  - the cell-by-cell copy.
- `Opponent` (opponent.dfy) is `getComputerMove`. The shuffle is supplied as a permutation
  `perm` of candidate indices. The policy takes the first corner in shuffled order. Otherwise it
  takes the first candidate with the highest own-tile count after the move, played on a copy of
  the board.

## Model

| member | source | states |
|---|---|---|
| Tiles.Other | reversi.py:47-50 | The tile scanned for is never the mover's tile and never blank; X and O map to each other. |
| Tiles.OnCorner | reversi.py:156-157 | True exactly for on-board cells whose coordinates are both 0 or 7. |
| Tiles.OnBoard | reversi.py:85-86 | True exactly when both coordinates lie in 0..7. It is a one-line predicate with no contract of its own; every cell access in the model requires it. |
| Tiles.DirsAreDirections | reversi.py:53 | The direction table has eight entries, each a distinct compass direction. |
| Grids.EmptyGrid | reversi.py:33-37 | A new board is 8x8 and every cell is blank. |
| Grids.CountEmptyGrid | reversi.py:33-37 | The blank board counts 64 blank cells and no X or O tile. |
| Grids.StartGrid | reversi.py:21-30 | The starting position is an 8x8 grid. Its contents and counts are stated by Grids.StartPosition. |
| Grids.StartPosition | reversi.py:21-30 | After a reset, X is on (3,3) and (4,4), O is on (3,4) and (4,3), and the other 60 cells are blank. The counts are X 2, O 2, blank 60. |
| Grids.Count | reversi.py:98-107 | The number of cells holding a tile, at most 64. How it changes under a write is stated by Grids.CountSet, and that the three counts cover the board by Grids.CountPartition. |
| Grids.CountSet | reversi.py:98-107 | Overwriting one cell moves it from the count of its old tile to the count of the new tile. |
| Grids.CountPartition | reversi.py:98-107 | The X, O and blank counts add up to 64. |
| Grids.SetRestore | reversi.py:79 | Writing a cell's old value back over the temporary write restores the board exactly. |
| Capture.Ray | reversi.py:54-69 | The cells walked from the target in one direction are all on the board. There are as many as the board leaves room for. |
| Capture.RayIsWalk | reversi.py:54-69 | A ray starts one step from the target and moves one unit step at a time. It ends where the next step leaves the board, and it never returns to the target. It is empty exactly when the first step is off the board. |
| Capture.RunLength | reversi.py:63-67 | The run of opponent tiles skipped along a ray: all cells before it hold the opponent tile, and the first cell after it does not. |
| Capture.WalkCaptures | reversi.py:57-77 | The capture rule along any walk leaving the target: the run of opponent tiles, far end first, when a tile of the mover closes it, else nothing. BoardState.Board.ScanWalk is proved to compute it. |
| Capture.RayCaptures | reversi.py:57-77 | The capture rule along one direction. What it returns is stated by Capture.RayCapturesSound and Capture.RayCapturesComplete. |
| Capture.RayCapturesSound | reversi.py:57-77 | Each cell one direction reports is on the board, holds the opponent tile and lies in that direction from the target. It is flanked, and no cell is reported twice. |
| Capture.RayCapturesComplete | reversi.py:57-77 | Every cell flanked along a direction is reported by that direction's scan. |
| Capture.Captures | reversi.py:52-77 | The eight directions' captures joined in table order. What it returns is stated by Capture.CapturesSpec. |
| Capture.CapturesSpec | reversi.py:52-77 | The collected flip list has no duplicates. Every entry is on the board, is not the target and holds the opponent tile. A cell is in the list if and only if it is flanked. |
| Capture.ValidMove | reversi.py:41-82 | The verdict on a move: rejected, or the flip list. Stated by Capture.ValidMoveSpec. |
| Capture.ValidMoveSpec | reversi.py:41-82 | An occupied target is rejected. A move is accepted if and only if the target is blank and some cell is flanked. An accepted move's list is non-empty, duplicate-free and holds exactly the flanked cells. |
| Capture.CapturesIgnoreTarget | reversi.py:45-79 | The tile temporarily written into the target does not change what the scan finds. |
| Moves.ValidMoves | reversi.py:89-95 | The move list is strictly ascending in x-then-y order, so it has no duplicates, and every entry is on the board. |
| Moves.ValidMovesSpec | reversi.py:89-95 | A cell is in the move list if and only if it is on the board and the move there is accepted. |
| Moves.ApplyFlips | reversi.py:141-142 | Every listed cell ends up holding the mover's tile, and every other cell keeps its tile. |
| Moves.Play | reversi.py:134-143 | A rejected move leaves the grid unchanged. An accepted move sets the target and every flipped cell to the mover's tile and changes nothing else. |
| Moves.PlayCount | reversi.py:134-143 | A move that flips k tiles raises the mover's count by k+1 and lowers the opponent's by k. The number of occupied cells grows by exactly one. |
| BoardState.Board.constructor | reversi.py:33-37 | A new board is a fresh 8x8 array of blank cells. |
| BoardState.Board.Reset | reversi.py:21-30 | The nested blanking loops followed by the four writes leave the starting position. |
| BoardState.Board.Put | reversi.py:140 | Writing one cell in place changes exactly that cell of the board. It is the write used by the reset, the temporary target write and its restore, and every flip. |
| BoardState.Board.SkipRun | reversi.py:59-69 | The loop over opponent tiles stops at the first cell past the run, or off the board, after exactly the run length. |
| BoardState.WalkBack | reversi.py:70-77 | Walking back to the target collects the cells of the run, far end first. |
| BoardState.Board.ScanWalk | reversi.py:54-77 | The scan of one direction returns exactly that direction's capture list, and returns none when a step leaves the board. |
| BoardState.Board.ScanRay | reversi.py:54-77 | The scan in direction (dx, dy) equals that ray's capture list. |
| BoardState.Board.ScanRays | reversi.py:52-77 | The direction loop appends the directions' capture lists in table order. |
| BoardState.Board.ScanFromTarget | reversi.py:45-79 | With the target temporarily set and then blanked again, the board ends exactly as it began. The list is the capture list of the original board. |
| BoardState.Board.IsValidMove | reversi.py:41-82 | On every path the board is left as it was found. The result is the value-level verdict: rejected for an occupied target or an empty list, otherwise the flip list. |
| BoardState.Board.ValidMovesIn | reversi.py:92-94 | The inner loop lists the accepted targets of one column, y ascending, and leaves the board unchanged. |
| BoardState.Board.GetValidMoves | reversi.py:89-95 | The nested loops return exactly the ordered move list and leave the board unchanged. |
| BoardState.Board.GetScore | reversi.py:98-107 | The two counters equal the number of X and O cells. |
| BoardState.Score.Of | reversi.py:206 | The score dictionary's entry for the computer's tile: the X count for X and the O count for O. Only X and O have entries. |
| BoardState.Board.FlipAll | reversi.py:141-142 | Flipping in place produces the value-level flipped grid. |
| BoardState.Board.MakeMove | reversi.py:134-143 | Returns true exactly for an accepted move. The board afterwards is the value-level result of playing it, and unchanged when the move is rejected. |
| BoardState.Board.Copy | reversi.py:146-153 | The duplicate is a new board with a new array and the same contents. |
| Opponent.ShuffleIndices | reversi.py:192 | A shuffle of n candidates lists each index below n exactly once. |
| Opponent.Shuffle | reversi.py:192 | Shuffling gives a permutation: the same length and every element as often as before. So a duplicate-free list stays duplicate-free. |
| Opponent.PickMultiset | reversi.py:192 | Two index lists holding the same indices in any order pick the same elements, counted with multiplicity. |
| Opponent.FirstCorner | reversi.py:195-197 | Finds the first corner in candidate order. It is none exactly when no candidate is a corner. |
| Opponent.FirstMax | reversi.py:202-209 | Picks the first position of a maximum: no entry exceeds it, and every earlier entry is smaller. |
| Opponent.FirstMaxUnique | reversi.py:202-209 | That position is the only one with both properties. |
| Opponent.ScoreAfterFlips | reversi.py:204-206 | The score of a candidate on a copy is the computer's count plus one plus the number of tiles flipped. |
| Opponent.ScoreAfter | reversi.py:204-206 | The computer's tile count after playing a candidate on a copy of the board. Its value is stated by Opponent.ScoreAfterFlips. |
| Opponent.Candidates | reversi.py:186-192 | The valid moves in shuffled order: on the board and as many as there are valid moves. Opponent.CandidatesSpec states which they are. |
| Opponent.CandidatesSpec | reversi.py:186-192 | The shuffled candidates are exactly the valid moves, each listed once. |
| Opponent.ComputerChoiceCorner | reversi.py:185-197 | The choice is a valid move. It is a corner exactly when some valid move is a corner, and then it is the first corner in shuffled order. |
| Opponent.ComputerChoiceGreedy | reversi.py:199-209 | With no corner available, the choice scores at least as much as every candidate, and strictly more than every earlier one. |
| Opponent.ComputerChoice | reversi.py:185-218 | The policy's choice for a given shuffle. What it is is stated by Opponent.ComputerChoiceCorner and Opponent.ComputerChoiceGreedy. |
| Opponent.GreedyMaximisesFlips | reversi.py:202-209 | Ranking valid moves by score is ranking them by the number of tiles flipped. |
| Opponent.ChoiceAtCorner | reversi.py:195-197 | A corner candidate with no corner before it is the choice. |
| Opponent.ChoiceWithoutCorner | reversi.py:199-209 | Without corners, the choice is the first maximum of the candidates' scores. |
| Opponent.ScoreMove | reversi.py:204-206 | Playing on a copy and reading the computer's count gives the candidate's score. The caller's board is only read. |
| Opponent.Consider | reversi.py:206-209 | A candidate replaces the best so far only when its score is strictly greater. |
| Opponent.Greedy | reversi.py:202-209 | The greedy loop returns the first candidate with the highest score. |
| Opponent.ComputerMove | reversi.py:185-218 | Returns the policy's choice for the given shuffle and leaves the caller's board unchanged. |

## Left out

- Printing: `drawBoard` (reversi.py:5-18) and `showPoints` (reversi.py:221-223) only write to the console.
- Keyboard input: `enterPlayerTile`, `whoGoesFirst` and `getPlayerMove` (reversi.py:111-180) are `input()` loops.
- The top-level game loop, `sys.exit` and the verdict printing (reversi.py:226-282) are console orchestration. That loop ends the game as soon as the side to move has no legal move; there is no pass rule.
- `random.shuffle` (reversi.py:192) draws on hidden randomness. It becomes the parameter `perm`, constrained to be a permutation of the candidate indices. The model does not state that the shuffle is uniform.
- The `depth`/`ai_range` value (reversi.py:189) is never used, and the branch at reversi.py:210-217 is commented out. Neither is modelled.
- BoardState.Board.IsValidMove: requires an on-board target. The program reads `board[xstart][ystart]` before it checks `isOnBoard` (reversi.py:42). There, Python's negative-index wrap-around or an `IndexError` would apply, but every caller in the file passes coordinates in 0..7. `Capture.ValidMove`, `Moves.Play` and `BoardState.Board.MakeMove` carry the same precondition.
- BoardState.Score.Of: requires a non-blank tile. The score dictionary has only the keys 'X' and 'O', so a blank lookup would raise `KeyError`.
- Opponent.ComputerMove: requires at least one valid move. With none, `bestMove` is never bound at reversi.py:218.
- Tiles: cells and tiles are the three values blank, X and O. The program would accept any string as a tile and treat every non-'X' string as playing against 'X'. The model keeps that mapping in `Other`, but only for these three values.
- The board's list-of-lists aliasing is modelled by the one array a `Board` owns. `Copy` proves the duplicate shares no storage with the original.
