# Sudoku puzzle generator and tic-tac-toe minimax player, modelled in Dafny

This project models two small Java games.

**Sudoku.**
- A `Puzzle` builds a solved 9x9 grid. It clears the grid and seeds the three diagonal 3x3 boxes with Fisher-Yates shuffles of 1..9. It then fills the other cells by backtracking, trying the digits in ascending order.
- Next it copies the solution into the puzzle and empties `difficulty` randomly chosen cells.
- A `Cell` shows a puzzle number with a status: given, to guess, correctly guessed or wrongly guessed.
- The `GameBoardPanel` deals a puzzle onto its 81 cells, reports whether the board is solved, reveals hints and judges guesses.
- The `Sudoku` window keeps the hint budget, the hints used, the score, a one-second clock with a pause flag, and the difficulty.

**Tic-tac-toe.** `AIPlayerMinimax` picks the computer's move with a depth-6 minimax search with alpha-beta cut-offs.
- It tries each open move on the live board it shares with the game, then takes it back.
- At the leaves it scores the board with a line-by-line heuristic.
- It detects wins by testing a bit mask of the player's cells against eight winning patterns.

**How the model is organised.**
- Modules follow the source files: `SudokuConstants`, `SudokuCell`, `SudokuPuzzle`, `SudokuGame` (the panel and the window, which refer to each other) and `TicTacToe`.
- Value-level rules live in their own modules:
  - `SudokuGrid`: grids, conflicts, completeness and the count of emptied cells;
  - `DecimalText`: `String.valueOf` and `Integer.parseInt`;
  - `Options`.
- Objects whose fields the source updates are classes with `modifies` frames: `Puzzle`, `Cell`, `GameBoardPanel`, `Sudoku` and `AIPlayerMinimax`. Boards are arrays.
- Each loop of the source is a `while` or `for` loop with invariants. Each method is proved against a specification function (`Safe`, `Shuffle`, `Mask`, `EmptyCells`, `Moves`, `BestMove`, `TryMoves`, `LinesFrom`), or against a predicate over the board (`NoConflict`, `Complete`, `Cleared`). Lemmas state the properties of those functions.

**Randomness.** `Math.random()` is a choice the verifier must handle for every outcome (`:|`).
- The shuffle records its picks in a ghost sequence.
- The removal loop draws among the cells that are still filled.

## Model

| member | source | states |
|---|---|---|
| DecimalText.IntToString | Sudoku/Cell.java:58 | `String.valueOf` gives non-empty text that starts with '-' exactly for negatives and is all digits otherwise |
| DecimalText.ParseInt | Sudoku/GameBoardPanel.java:93-99 | a successful parse lies in the 32-bit `int` range and the text starts with a sign or a digit; failure (Java's NumberFormatException) is `None` |
| DecimalText.DigitsRoundTrip | Sudoku/Cell.java:58 | reading back the decimal digits of n gives n |
| DecimalText.IntRoundTrip | Sudoku/GameBoardPanel.java:94 | every `int` shown by `String.valueOf` parses back to itself |
| DecimalText.NonNumericRejected | Sudoku/GameBoardPanel.java:95-98 | as `Integer.parseInt` does, rejects empty text, text without a leading sign or digit, a non-digit after the first character, a lone sign, and any value outside the 32-bit `int` range, signed or not |
| SudokuConstants.ConstantsAgree | Sudoku/SudokuConstants.java:5-11 | the board is 9x9 tiled by 3x3 boxes; Easy < Medium < Hard, and each asks for between 1 and 81 emptied cells |
| SudokuGrid.SafePlacementKeepsNoConflict | Sudoku/Puzzle.java:101-104 | writing a digit that `isSafe` accepts into a conflict-free grid leaves it conflict-free |
| SudokuGrid.DiagonalSeedingIsConflictFree | Sudoku/Puzzle.java:41-42 | the diagonal boxes are independent: a grid that is filled only there, with no digit repeated in a box, has no conflict |
| SudokuGrid.DigitPermutation | Sudoku/Puzzle.java:55-56 | any rearrangement of 1..9 has nine entries, each a digit 1..9, all distinct |
| SudokuGrid.DigitsDistinct | Sudoku/Puzzle.java:55 | the array literal {1..9} has no repeated digit |
| SudokuGrid.RowHasEveryDigit | Sudoku/Puzzle.java:115-119 | a complete conflict-free grid has every digit 1..9 in each row |
| SudokuGrid.ColumnHasEveryDigit | Sudoku/Puzzle.java:122-126 | ... in each column |
| SudokuGrid.BoxHasEveryDigit | Sudoku/Puzzle.java:129-137 | ... in each 3x3 box |
| SudokuGrid.SolvedGridHasEveryDigit | Sudoku/Puzzle.java:113-140 | a complete grid that passes the row, column and box rules holds each digit once in every row, column and box |
| SudokuGrid.NoneCleared | Sudoku/Puzzle.java:13-18 | after the copy loop marks every cell given, no cell counts as emptied |
| SudokuGrid.ClearOne | Sudoku/Puzzle.java:26-28 | clearing one given flag raises the count of emptied cells by exactly one |
| SudokuGrid.SomeGiven | Sudoku/Puzzle.java:22-25 | while fewer than all cells are emptied, a given cell is left for the removal loop to draw |
| SudokuGrid.SomeCleared | Sudoku/GameBoardPanel.java:48-50 | if any cell is emptied, some cell of the board is not given |
| SudokuCell.StatusFor | Sudoku/Cell.java:53-61 | a new game makes a cell "to guess" exactly when its number is 0, and "given" otherwise |
| SudokuCell.Cell.constructor | Sudoku/Cell.java:39-46 | a new cell knows its row and column, has number 0, no status (Java's null), and empty editable text |
| SudokuCell.Cell.NewGame | Sudoku/Cell.java:51-63 | sets the number and its status; an empty cell is blank and editable, a given one shows its number and is locked; the row and column are kept |
| SudokuCell.Cell.Paint | Sudoku/Cell.java:68-88 | a given cell shows its number (blank for 0) and is locked; a cell to guess is blanked and unlocked; guessed cells keep their text and editability; the number and status are unchanged |
| SudokuCell.NewGameTextReadsBack | Sudoku/Cell.java:51-63 | the text a new game puts in a given cell parses back to its number |
| SudokuPuzzle.Swap | Sudoku/Puzzle.java:69-71 | the exchange puts each of the two elements in the other's place and leaves every other position alone |
| SudokuPuzzle.SwapPermutes | Sudoku/Puzzle.java:69-71 | an exchange keeps the multiset of elements |
| SudokuPuzzle.ShufflePermutes | Sudoku/Puzzle.java:66-73 | every sequence of random picks rearranges the array: the multiset is kept |
| SudokuPuzzle.ShuffledDigits | Sudoku/Puzzle.java:55-56 | every shuffle of {1..9} holds nine distinct digits 1..9 |
| SudokuPuzzle.NextCell | Sudoku/Puzzle.java:76-99 | the fill's cell-advancing prologue: it reports "done" only when no cell outside the diagonal boxes is left; otherwise it gives an on-board cell outside the diagonal boxes, at or after the entry point, with no pending cell before it |
| SudokuPuzzle.BoxIsBlock | Sudoku/Puzzle.java:129-137 | `row - row % 3`, `col - col % 3` is the top-left cell of the box, and the 3x3 block scanned from it is exactly the cells of that box |
| SudokuPuzzle.BlockIndexInjective | Sudoku/Puzzle.java:57-63 | the row-by-row walk `num++` over a 3x3 block gives each cell a different position 0..8 |
| SudokuPuzzle.MaskAfterClear | Sudoku/Puzzle.java:27 | clearing one `isGiven` flag changes the mask in that cell only |
| SudokuPuzzle.BlockHoldsDigits | Sudoku/Puzzle.java:54-64 | a block that receives nine distinct digits, one per walk position, holds digits 1..9 with no repeat |
| SudokuPuzzle.Puzzle.constructor | Sudoku/Puzzle.java:4-6 | three fresh 9x9 boards, all 0 and all false |
| SudokuPuzzle.Puzzle.NewPuzzle | Sudoku/Puzzle.java:8-31 | the solution is conflict-free with its diagonal boxes filled, and complete or untouched outside them; each cell of the puzzle is given and equal to the solution, or emptied to 0; with a complete solution, exactly `difficulty` cells are emptied (none for difficulty <= 0) |
| SudokuPuzzle.Puzzle.CopySolution | Sudoku/Puzzle.java:13-18 | every cell of `numbers` equals the solution and is marked given |
| SudokuPuzzle.Puzzle.RemoveCells | Sudoku/Puzzle.java:21-30 | keeps every cell given-and-equal or emptied; with a solution that has no 0, the emptied cells are exactly the ones not given, and there are `difficulty` of them (0 for difficulty <= 0) |
| SudokuPuzzle.Puzzle.GenerateSolution | Sudoku/Puzzle.java:33-46 | the solution is conflict-free and its diagonal boxes hold digits; it is complete, or else it is empty outside the diagonal boxes and no solved grid extends that seeding |
| SudokuPuzzle.Puzzle.FillDiagonalBoxes | Sudoku/Puzzle.java:48-52 | the three diagonal boxes each hold nine distinct digits 1..9; no other cell changes |
| SudokuPuzzle.Puzzle.FillBox | Sudoku/Puzzle.java:54-64 | the block at (row, col) holds nine distinct digits 1..9; no other cell changes |
| SudokuPuzzle.Puzzle.CopyToBlock | Sudoku/Puzzle.java:57-63 | the block cell at walk position k takes `numbers[k]`; no other cell changes |
| SudokuPuzzle.Puzzle.ShuffleArray | Sudoku/Puzzle.java:66-73 | the array becomes `Shuffle` of its old contents under the recorded Fisher-Yates picks, each drawn from [0, i] |
| SudokuPuzzle.Puzzle.FillRemaining | Sudoku/Puzzle.java:75-111 | backtracking keeps the grid conflict-free and leaves already-filled cells alone; on success the grid is complete; it fails only when no solved grid agrees with the filled cells, and then the grid is restored exactly |
| SudokuPuzzle.Puzzle.FillCell | Sudoku/Puzzle.java:101-110 | the digit loop at one cell: the same conflict-freedom, success and restore guarantees as the fill, and it fails only after every digit 1..9 is ruled out there, so no solved grid agrees with the filled cells |
| SudokuPuzzle.Puzzle.TryDigit | Sudoku/Puzzle.java:102-108 | one digit: when it is safe, it is written and the fill continues at the next cell; on failure the cell is reset to 0 and no solved grid agreeing with the filled cells has that digit there |
| SudokuPuzzle.CompletionDigitIsSafe | Sudoku/Puzzle.java:101-102 | the digit any solved grid agreeing with the filled cells puts at the current cell passes the safety test, so trying only safe digits loses no solution |
| SudokuPuzzle.CompletionAfterPlace | Sudoku/Puzzle.java:103-104 | a solved grid with that digit at the current cell also agrees with the grid after writing it, for the fill entered at the next cell |
| SudokuPuzzle.Puzzle.IsSafe | Sudoku/Puzzle.java:113-140 | true exactly when the digit occurs in neither the row, the column nor the 3x3 box of the cell |
| SudokuGame.CellsToGuess | Sudoku/Sudoku.java:378-384 | a level asks for its own number of empty cells; any other value falls back to Easy |
| SudokuGame.MaxHintsFor | Sudoku/Sudoku.java:165-179 | the budget is 5 hints for Medium, 7 for Hard and 3 for Easy or any other level, each in both directions |
| SudokuGame.HarderLevelsGetMoreHints | Sudoku/Sudoku.java:165-179 | of two levels, the harder one gets strictly more hints |
| SudokuGame.ClockFace | Sudoku/Sudoku.java:216-218 | minutes and seconds with 0 <= seconds < 60 that add back up to the elapsed time |
| SudokuGame.GameBoardPanel.constructor | Sudoku/GameBoardPanel.java:18-41 | 81 fresh cells, each at its own coordinates, blank, editable and without status, plus a fresh puzzle |
| SudokuGame.GameBoardPanel.NewGame | Sudoku/GameBoardPanel.java:44-57 | every cell shows the new puzzle; with a complete solution, the cells to guess are exactly those not given, there are `difficulty` of them, and the board is not solved |
| SudokuGame.GameBoardPanel.DealtCompletePuzzle | Sudoku/GameBoardPanel.java:46-56 | once a complete puzzle is dealt, a cell is to be guessed iff it is not given, and any emptied cell keeps the board unsolved |
| SudokuGame.GameBoardPanel.Deal | Sudoku/GameBoardPanel.java:46-56 | each cell is reset with 0 when it is not given, and with the puzzle's number when it is |
| SudokuGame.GameBoardPanel.IsSolved | Sudoku/GameBoardPanel.java:60-69 | true exactly when no cell is to be guessed or wrongly guessed |
| SudokuGame.GameBoardPanel.ProvideHint | Sudoku/GameBoardPanel.java:71-86 | reveals the first cell to guess in row-major order: it shows the solution's digit, is correctly guessed and locked, and every other cell is unchanged; with no such cell nothing changes |
| SudokuGame.GameBoardPanel.ActionPerformed | Sudoku/GameBoardPanel.java:90-122 | text that is not a number 1..9 is blanked and nothing else changes; the solution's digit makes the cell correctly guessed and adds 10 points; any other digit makes it wrongly guessed |
| SudokuGame.Sudoku.constructor | Sudoku/Sudoku.java:31-139 | the window opens at the given difficulty with its hint budget, score 0, no hints used, the clock at 0 and running, and a dealt board |
| SudokuGame.Sudoku.SetMaxHints | Sudoku/Sudoku.java:165-179 | sets the budget for the difficulty and nothing else |
| SudokuGame.Sudoku.HintsLeft | Sudoku/Sudoku.java:181-183 | the number on the hint button is between 0 and the budget, and is 0 exactly when the budget is used up |
| SudokuGame.Sudoku.HintPressed | Sudoku/Sudoku.java:99-107 | while hints remain, uses one up and reveals the first cell still to be guessed (its solution digit, shown as correct and locked, every other cell unchanged), or reports none left; without hints left, nothing on the board changes; budget, score, clock, pause, timer and difficulty are kept |
| SudokuGame.Sudoku.UpdateScore | Sudoku/Sudoku.java:399-402 | adds the points to the score and changes nothing else |
| SudokuGame.Sudoku.Tick | Sudoku/Sudoku.java:211-222 | a running, unpaused clock advances one second and the label follows it; otherwise the clock and label stay; pause, timer, hints, score and difficulty are kept |
| SudokuGame.Sudoku.TogglePauseResume | Sudoku/Sudoku.java:239-247 | flips the pause flag; time, label, timer, hints, score and difficulty are kept |
| SudokuGame.Sudoku.ResetGame | Sudoku/Sudoku.java:299-305 | the clock restarts from 0 and a new game is dealt at the current difficulty; score, hints and difficulty are kept |
| SudokuGame.Sudoku.StartNewGame | Sudoku/Sudoku.java:374-387 | the clock restarts from 0 and a new game with `CellsToGuess(difficulty)` empty cells is dealt; score, hints and the window's difficulty are kept |
| TicTacToe.Opponent | TicTacToe/AIPlayer.java:19 | the opponent is never empty and never the player: Nought exactly for Cross |
| TicTacToe.ScoreCells | TicTacToe/AIPlayerMinimax.java:91-136 | the line score equals the reference: 0 if both sides hold a cell of the line, otherwise ±10^(count-1) for the side that holds cells, and 0 for an empty line |
| TicTacToe.EvaluateLine | TicTacToe/AIPlayerMinimax.java:91-136 | one line is worth between -100 and 100 |
| TicTacToe.EvaluatedLinesAreLines | TicTacToe/AIPlayerMinimax.java:79-86 | the eight calls score exactly the three rows, the three columns and the two diagonals, all on the board |
| TicTacToe.Evaluate | TicTacToe/AIPlayerMinimax.java:77-88 | the heuristic lies in [-800, 800] |
| TicTacToe.EvaluateFrom | TicTacToe/AIPlayerMinimax.java:78-87 | the running sum from line j on lies within ±100 per remaining line |
| TicTacToe.EvaluateFromSumsLines | TicTacToe/AIPlayerMinimax.java:78-87 | from every line on, the heuristic equals the reference line sum |
| TicTacToe.EvaluateSumsLines | TicTacToe/AIPlayerMinimax.java:77-88 | the heuristic is the reference line score summed over the eight lines |
| TicTacToe.LineScoreAntisymmetric | TicTacToe/AIPlayerMinimax.java:91-136 | swapping the sides negates a line's score |
| TicTacToe.LinesFromAntisymmetric | TicTacToe/AIPlayerMinimax.java:77-88 | swapping the sides negates every suffix sum of lines |
| TicTacToe.EvaluateAntisymmetric | TicTacToe/AIPlayerMinimax.java:77-88 | the heuristic is zero-sum: what the board is worth to one side, it is worth negated to the other |
| TicTacToe.CoveredFromSome | TicTacToe/AIPlayerMinimax.java:148-151 | the pattern loop from pattern i succeeds iff some pattern from i on is wholly set in the mask |
| TicTacToe.PatternsAreLines | TicTacToe/AIPlayerMinimax.java:154-158 | the mask covers a winning pattern iff the player holds a whole row, column or diagonal |
| TicTacToe.MaskStep | TicTacToe/AIPlayerMinimax.java:143-145 | scanning one more cell sets its bit exactly when the player holds it |
| TicTacToe.EmptyCellsStep | TicTacToe/AIPlayerMinimax.java:68-70 | scanning cell (row, col) appends it exactly when it is empty |
| TicTacToe.EmptyCellsAreEmpty | TicTacToe/AIPlayerMinimax.java:66-72 | the scan lists each empty cell, only empty cells, in increasing row-major order |
| TicTacToe.Moves | TicTacToe/AIPlayerMinimax.java:59-74 | every open move is a cell on the board |
| TicTacToe.MovesAreEmptyCells | TicTacToe/AIPlayerMinimax.java:59-74 | a move is open iff neither side has won and its cell is empty; the moves come in row-major order |
| TicTacToe.OpenMoveIsEmpty | TicTacToe/AIPlayerMinimax.java:68-69 | each open move is an empty cell |
| TicTacToe.TakeBack | TicTacToe/AIPlayerMinimax.java:34-50 | playing on an empty cell and resetting it to empty restores the board |
| TicTacToe.BestMoveLeaf | TicTacToe/AIPlayerMinimax.java:29-31 | unfolds the search `BestMove`: at depth 0, or with no open move, it returns the board's line sum (the heuristic) and the move (-1, -1) |
| TicTacToe.BestMoveSearches | TicTacToe/AIPlayerMinimax.java:32-54 | unfolds the search `BestMove`: otherwise it runs the loop `TryMoves` over the open moves with no best move yet |
| TicTacToe.TryMovesStep | TicTacToe/AIPlayerMinimax.java:33-51 | unfolds one turn of the loop `TryMoves`: after the reply's score raises alpha (maximiser) or lowers beta (minimiser) and records the move, the loop stops when alpha >= beta and continues otherwise |
| TicTacToe.TryMovesResult | TicTacToe/AIPlayerMinimax.java:33-53 | the loop returns its initial best move or one of its moves; the maximiser's score is >= alpha and the minimiser's <= beta |
| TicTacToe.BestMoveResult | TicTacToe/AIPlayerMinimax.java:22-55 | the search returns no move or an empty cell of a board nobody has won, and once it searches its score stays on the narrowed side of the window |
| TicTacToe.AIPlayerMinimax.constructor | TicTacToe/AIPlayer.java:12-14 | the player shares the board's cells (same array, not a copy), with no seeds yet |
| TicTacToe.AIPlayerMinimax.SetSeed | TicTacToe/AIPlayer.java:17-20 | sets the computer's seed; the opponent gets Nought for Cross and Cross otherwise; the board is kept |
| TicTacToe.AIPlayerMinimax.HasWon | TicTacToe/AIPlayerMinimax.java:139-152 | true exactly when the player holds a whole row, column or diagonal |
| TicTacToe.AIPlayerMinimax.GenerateMoves | TicTacToe/AIPlayerMinimax.java:59-74 | returns exactly `Moves` of the board: none after a win, else the empty cells in row-major order |
| TicTacToe.AIPlayerMinimax.EvaluateBoard | TicTacToe/AIPlayerMinimax.java:77-88 | the heuristic value of the board for the computer, which equals the reference line sum |
| TicTacToe.AIPlayerMinimax.Minimax | TicTacToe/AIPlayerMinimax.java:22-55 | returns `BestMove` of the board it started from, and the board is as it was on entry |
| TicTacToe.AIPlayerMinimax.TryMovesOnBoard | TicTacToe/AIPlayerMinimax.java:33-53 | the loop over the moves returns `TryMoves` of the board and restores the board |
| TicTacToe.AIPlayerMinimax.Reply | TicTacToe/AIPlayerMinimax.java:34-50 | playing a cell, searching one ply shallower with the other side to move and taking it back gives the child's minimax score; the board is restored |
| TicTacToe.AIPlayerMinimax.Move | TicTacToe/AIPlayerMinimax.java:14-18 | the move is the depth-6 search over the full int window; it is (-1, -1) or an empty cell of an unwon board, and the board is unchanged |

## Left out

- Swing is not modelled: layouts, fonts, colours, menus, dialogs, message boxes, `WelcomeScreen`, the volume control, listener wiring, and `GameBoardPanel.java`'s `isEditable` listener pass. A message box that changes no state is left out, and so is the final "solved" dialog of the guess handler.
- Sound is not modelled: clips, background music, `VolumeManager`, `playCorrectSound` and `playIncorrectSound`. These are I/O.
- The Swing `Timer` is not modelled as a thread. Each timer period is the method `Sudoku.Tick`, and `startTimer`/`stopTimer` set the flag `timerRunning`.
- The `playerName` field and its label are not modelled; they hold no logic.
- `dispose` and `main` are not modelled.
- `Math.random()` is replaced by a choice over every possible outcome. Probabilities are not modelled.
- SudokuPuzzle.Puzzle.RemoveCells: the source retries random draws until it hits a filled cell. The model draws among the filled cells directly. Where the source would spin forever (difficulty above the number of filled cells of the solution), the model's loop stops once every cell is empty.
- SudokuPuzzle.Puzzle.NewPuzzle: its counting guarantees are conditional on the solution being complete. That backtracking always succeeds, i.e. that every diagonal seeding extends to a solved grid, is a fact about Sudoku that is not proved here; the model proves only that the fill fails when no such grid exists.
- SudokuPuzzle.Puzzle.FillRemaining: the order in which digits are tried is kept in the code but not stated in the contract. Termination is by the position of the entry cell.
- Helpers split out of one source method: `CopySolution` and `RemoveCells` (of `newPuzzle`), `CopyToBlock` (of `fillBox`), `NextCell`, `FillCell` and `TryDigit` (of `fillRemaining`), `Deal` (of `GameBoardPanel.newGame`), `TryMovesOnBoard`, `Reply` and `EvaluateBoard` (of `minimax`). Each keeps the source's statements and order.
- Java's `null` status and seeds are `Option` values. A `move()` before `setSeed` (a null seed in Java) is not modelled: the search requires the seeds to be set.
- Integer widths: cell values, the score, the clock and the hint counters are unbounded integers. No Java `int` overflow is modelled. It cannot arise for the values the game produces, apart from a score above 2^31-1 points.
- `ParseInt` accepts only ASCII digits. Java's `Integer.parseInt` also accepts other Unicode decimal digits.
- The 3x3 `Cell[][]` of tic-tac-toe is stored as a row-major array of nine seeds. The `Cell` objects and their `content` field become array elements, and the board is shared by reference as in the source.
- The 32-bit win mask is modelled as the set of its bit positions. `pattern & p == p` is subset inclusion.
- The `int[]` results `{score, row, col}` are the datatype `Outcome`.
- TicTacToe.BestMove: its leaves are scored by the reference line sum `LinesFrom`. `EvaluateSumsLines` proves this equal to `evaluate` whenever the two seeds differ, which `SetSeed` guarantees.
- The tic-tac-toe `Board`, `Cell`, game loop and other player classes are not part of this model.
