# Sudoku game core in Dafny

A model of the logic of a browser Sudoku game (`script.js`). It covers four parts:

- The puzzle generator, class `SudokuGenerator`. It fills the three diagonal boxes with shuffled digits, completes the grid by backtracking, and carves a puzzle out of the solution by random removals. A removal is kept only when the emptied cell still has at most one legal digit.
- The read-only checks the game runs on the player's board: `isPossible`, `findHint`, `isValid`, `isBoardFull`, `isBoardValid` and `validateAndHighlightErrors`.
- The game state: the board, the given (fixed) cells, the undo history and the hint counter. The actions on it are number input, erase, undo and hint.
- `formatTime`, the elapsed-time display.

Modules:

- `Wrappers` (wrappers.dfy): the `Option` type shared by the other modules.
- `Board` (board.dfy): the 9x9 grid as `seq<seq<int>>`, with 0 for an empty cell. It holds the Sudoku rules as predicates (`Fits`, `ConflictFree`, `Consistent`, `Solved`, `Agrees`), the ordered candidate list `Candidates` and `Put` (one cell changed). `Snapshot` reads a 9x9 array as a grid.
- `Validation` (validation.dfy): the read-only checks, written as methods with the source's loops and early returns (`IsBoardValid` checks the row lengths in a pass of its own; see Left out).
- `Filling` (filling.dfy): specification predicates and lemmas for filling the diagonal boxes (repeat-free boxes, the fillDiagonal invariant).
- `Carving` (carving.dfy): specification functions and lemmas for carving a puzzle out of the solution, including the top-left step as written and corrected.
- `Generator` (generator.dfy): class `SudokuGenerator`, with the grid `mat` as an `array2<int>` that its methods update in place and `solution` as an `Option<Grid>`.
- `Game` (game.dfy): class `SudokuGame`, with `currentBoard` as an `array2<int>`, the fixed-cell marks, the move history and the hint counter.
- `Clock` (clock.dfy): `formatTime` and a reader for its output.

`Math.random` is modelled as a nondeterministic choice, so every contract holds for every random sequence. The class `SudokuGame` keeps a ghost list `boards`: `boards[i]` is the board before move `i`, and the last entry is the current board. It also keeps a ghost `puzzle`, the board the game started from, which is `boards[0]`. Its invariant says that each recorded move takes one board to the next, and every handler states how it changes `boards`. Undo therefore provably restores the board as it was before the move it pops, and no move ever changes a given.

## Model

| member | source | states |
|---|---|---|
| Board.SingleCandidate | script.js:83 | the candidate list is exactly `[v]` iff v is the one and only digit that fits the cell |
| Board.CandidatesAtMostOne | script.js:48 | at most one candidate iff no two distinct digits fit the cell (the `n>1` test of removeKDigits) |
| Board.FitsIffConflictFree | script.js:119 | for a cell not already holding v, the `isPossible` test (v absent from row, column, box) agrees with the `isValid` test (no peer holds v) |
| Board.PlaceKeepsConsistent | script.js:48 | placing a fitting digit in an empty cell of a consistent board keeps it consistent (the step fillRemaining relies on) |
| Board.AgreeingIsConsistent | script.js:48 | a board whose clues all agree with a consistent solution is itself consistent |
| Board.AscendingSingle | script.js:83 | a one-element ordered candidate list names a member and excludes all others |
| Board.AscendingAtMostOne | script.js:48 | an ordered list of the members of a set has length at most one iff the set has at most one member in range |
| Board.BoxStart | script.js:48 | `x - x % SRN`, the first row (column) of the box containing x |
| Board.Put | script.js:48 | one cell replaced, every other cell unchanged |
| Board.Snapshot | script.js:48 | the array's cells, cell by cell, as a grid value |
| Validation.IsPossible | script.js:75-80 | true iff num is absent from row r, column c and the box of (r, c) |
| Validation.PossibleNumbers | script.js:83 | the list built by findHint equals `Candidates` and holds exactly the fitting digits |
| Validation.HintAt | script.js:83 | for one cell: Some(v) iff the cell is empty, not fixed and v is its only fitting digit |
| Validation.FindHint | script.js:82-83 | the first cell in row-major order that is empty, not fixed and has exactly one fitting digit, with that digit; None iff no cell qualifies |
| Validation.IsValid | script.js:119 | true iff no other cell of the row, column or box holds num |
| Validation.IsBoardFull | script.js:120 | true iff the board is 9x9 with no empty cell |
| Validation.IsBoardValid | script.js:121 | true iff the board is 9x9 and every non-empty cell passes isValid (the board is consistent) |
| Validation.ValidateAndHighlightErrors | script.js:122-123 | true iff no non-empty, non-fixed cell clashes with a peer; givens are never checked |
| Filling.ShuffledDigits | script.js:48 | a permutation of 1..9 holds only digits 1..9 |
| Filling.PlaceKeepsBoxDistinct | script.js:48 | placing a value not found elsewhere in the box keeps the box free of repeats (unUsedInBoxStrict) |
| Filling.EmptyBoxDistinct | script.js:48 | an empty box has no repeats |
| Filling.BoxDistinctFrame | script.js:48 | writes outside a box keep it free of repeats |
| Filling.DiagonalStep | script.js:48 | filling the next diagonal box keeps the invariant of fillDiagonal: diagonal boxes repeat-free, all other cells empty |
| Filling.DiagonalConsistent | script.js:48 | a board whose only non-empty cells are repeat-free diagonal boxes is consistent and holds digits only |
| Carving.ClearAddsEmpty | script.js:48 | emptying a non-empty cell adds exactly that cell to the empty cells |
| Carving.SwapKeepsEmptyCount | script.js:48 | filling one empty cell and emptying one filled cell keeps the number of empty cells |
| Carving.RemovedValueFits | script.js:48 | in a puzzle agreeing with a consistent solution, an emptied cell's solution digit is still legal there |
| Carving.RemovalKeptIffForced | script.js:48 | a removal passes the `n <= 1` test iff the solution digit is the only digit that fits the emptied cell |
| Carving.MovedToTopLeft | script.js:48 | the top-left step as written: (0, 0) gets the first clue's value and the clue's cell is emptied |
| Carving.RestoredTopLeft | script.js:48 | the corrected top-left step: (0, 0) gets its solution value and the first clue's cell is emptied |
| Carving.MovedKeepsEmptyCount | script.js:48 | the top-left step as written keeps the number of empty cells |
| Carving.MovedDisagrees | script.js:48 | with the first clue in row 0, the step as written puts a value at (0, 0) that differs from the solution, so the puzzle no longer agrees with it |
| Carving.RestoredAgrees | script.js:48 | the corrected step keeps the puzzle in agreement with the solution and keeps the number of empty cells |
| Carving.MovedAgreesElsewhere | script.js:48 | after the step as written, every clue except (0, 0) still agrees with the solution, and (0, 0) holds the solution value of the moved clue's cell |
| Carving.MovedClashes | script.js:48 | when the moved clue sits in row 0 and column 0 keeps a clue equal to it, the puzzle after the step as written is not consistent: two givens clash |
| Generator.KeepCount | script.js:48 | `K_MAP[difficulty] \|\| K_MAP.normal`: the mapped value for easy, normal and hard, the normal value for any other key; always 25..45 |
| Generator.SudokuGenerator.constructor | script.js:48 | a 9x9 grid of zeros and no solution |
| Generator.SudokuGenerator.UnusedInRow | script.js:48 | true iff v is not in row r |
| Generator.SudokuGenerator.UnusedInCol | script.js:48 | true iff v is not in column c |
| Generator.SudokuGenerator.UnusedInBox | script.js:48 | true iff v is not in the box at (r0, c0) |
| Generator.SudokuGenerator.UnusedInBoxStrict | script.js:48 | true iff v is in no cell of the box other than (r, c) |
| Generator.SudokuGenerator.CheckIfSafe | script.js:48 | true iff v fits at (r, c): absent from row, column and box |
| Generator.SudokuGenerator.RandomGenerator | script.js:48 | a number in 1..max |
| Generator.SudokuGenerator.ShuffleArray | script.js:48 | the array after the in-place swaps is a permutation of what it was |
| Generator.SudokuGenerator.FillCell | script.js:48 | places the first value of the list that the box does not hold elsewhere and returns the list with exactly that entry spliced out; otherwise changes nothing, and (the list being within the 45-look bound) every value of the list is already elsewhere in the box |
| Generator.SudokuGenerator.FillBoxRow | script.js:48 | fills the empty cells of one box row with digits, changes nothing else, keeps the box repeat-free |
| Generator.SudokuGenerator.FillBox | script.js:48 | writes digits only into empty cells of the box, keeps it repeat-free, and on success leaves no empty cell in it |
| Generator.SudokuGenerator.FillDiagonal | script.js:48 | from an empty grid: writes only into the diagonal boxes, leaves the grid consistent with digits only, and on success fills all three boxes |
| Generator.SudokuGenerator.FillRemaining | script.js:48 | from (r0, c0) on: writes only digits into cells that were empty, keeps a consistent grid consistent, on success fills every cell from (r0, c0) on, on failure leaves the grid unchanged |
| Generator.SudokuGenerator.TryDigit | script.js:48 | one candidate of fillRemaining: the same promises for the cells from (r, c) on, after placing v |
| Generator.SudokuGenerator.FillValues | script.js:48 | on success from an empty grid the grid is a solved Sudoku and is recorded as the solution; on failure the solution is untouched |
| Generator.SudokuGenerator.IsSafeForPuzzleGen | script.js:48 | true iff v fits at (r, c) of the given board |
| Generator.SudokuGenerator.CountLegal | script.js:48 | the number of digits legal at the emptied cell; at most one iff no two digits fit |
| Generator.SudokuGenerator.TryRemove | script.js:48 | the removal is kept iff the cell held a clue and at most one digit fits once it is emptied; otherwise the grid is unchanged |
| Generator.SudokuGenerator.FirstClue | script.js:48 | the first non-empty cell in row-major order, or None for an empty grid |
| Generator.SudokuGenerator.MoveFirstClue | script.js:48 | the top-left step as written: with (0, 0) empty, the grid becomes `MovedToTopLeft` of the first clue |
| Generator.SudokuGenerator.RestoreTopLeft | script.js:48 | the corrected step: with (0, 0) empty, the grid becomes `RestoredTopLeft` of the first clue |
| Generator.SudokuGenerator.DrawRemovals | script.js:48 | at most 3·N² draws, all of them when removals are still owed; the puzzle agrees with the solution; empty cells = requested − remaining |
| Generator.SudokuGenerator.RemoveKDigits | script.js:48 | as written: without a solution nothing changes; otherwise a fresh copy of the solution is carved (at most 3·N² draws) into `carved`, which agrees with the solution and has requested − remaining empty cells; the board is then `carved` itself when (0, 0) holds a clue or no clue is left, and otherwise `MovedToTopLeft` of `carved` at its first clue; every clue except (0, 0) agrees with the solution |
| Generator.SudokuGenerator.RemoveKDigitsCorrected | script.js:48 | the same carving with the corrected top-left step: every clue agrees with the solution; empty cells = requested − remaining |
| Generator.SudokuGenerator.FillAttempts | script.js:48 | clears the board and solution, then up to 5 fillValues attempts; on failure exactly 5 attempts and no solution, on success a solved solution |
| Generator.SudokuGenerator.Generate | script.js:48 | as written: at most 5 attempts; None (and no solution) after 5 failures; otherwise a solved solution, N² − KeepCount(difficulty) removals requested, a puzzle whose clues agree with the solution except possibly at (0, 0), with requested − remaining empty cells; the puzzle is the carved grid, or `MovedToTopLeft` of it at its first clue when its (0, 0) is empty, so `Carving.MovedDisagrees` and `Carving.MovedClashes` apply to it; consistency is not promised (see Findings) |
| Generator.SudokuGenerator.GenerateCorrected | script.js:48 | the same with the corrected carving: the puzzle agrees with the solution everywhere and is consistent |
| Game.UndoRestores | script.js:57-72 | writing a move's previous value back gives exactly the board from before the move |
| Game.GivensKept | script.js:111-115 | along any recorded history, the cells marked fixed hold the values they had at the start |
| Game.ChainPrefix | script.js:58-59 | dropping the last move of a history leaves a history ending at the board before it |
| Game.ChainExtend | script.js:112 | a history extended by one recorded move is a history |
| Game.SudokuGame.constructor | script.js:141-142 | startNewGame: a copy of the puzzle (populateGrid, script.js line 97, marks its non-zero cells fixed); empty history; MAX_HINTS hints |
| Game.SudokuGame.Record | script.js:112 | pushes the move with the cell's previous value and writes the new value, keeping the history in step with the board |
| Game.SudokuGame.GivensUnchanged | script.js:111-115 | in every reachable state the fixed cells hold the values of the puzzle the game started from |
| Game.SudokuGame.ClashingGivensNeverWin | script.js:121 | if two peer cells are fixed with the same digit in the starting puzzle, the board is never consistent, so isBoardValid never succeeds and the game cannot be won |
| Game.SudokuGame.IsWon | script.js:112 | `isBoardFull() && isBoardValid()`: true iff the board is full and consistent |
| Game.SudokuGame.HandleNumberInput | script.js:111-112 | nothing happens (history of boards unchanged) without a selection, on a fixed cell or for the same value; otherwise one move is recorded, the cell set and the new board appended to the history; won iff the board is then full and consistent |
| Game.SudokuGame.HandleErase | script.js:114-115 | nothing happens (history of boards unchanged) without a selection, on a fixed cell or on an empty cell; otherwise one move to 0 is recorded, the cell emptied and the new board appended to the history |
| Game.SudokuGame.HandleUndo | script.js:57-72 | with an empty history nothing changes; otherwise the last move is popped, the last board dropped from the history, and the board is exactly the one before that move; hints are not given back |
| Game.SudokuGame.HandleHint | script.js:88-89 | with hints left and no error cell, fills the first hint cell with its only fitting digit, records a hint move and uses one hint; if nothing is applied although hints remain and there are no errors, no hint cell exists |
| Clock.NatToString | script.js:51 | `String(n)`: decimal digits, no leading zero, one digit below 10 and two below 100 |
| Clock.PadStart2 | script.js:51 | `padStart(2, '0')`: zeros in front up to length two, the original at the end |
| Clock.NatToStringValue | script.js:51 | the digits read back give n |
| Clock.PadValue | script.js:51 | padding keeps the digits' value |
| Clock.FormatTime | script.js:51 | the display has a colon three characters from the end and at least five characters; exactly five below 100 minutes |
| Clock.FormatTimeRoundTrip | script.js:51 | reading the display back (minutes field, `:`, seconds below 60) gives the count of seconds it was made from |

## Left out

- The DOM, CSS classes, messages, `console` output, `setTimeout` and the timer (`startTimer`, `stopTimer`, `updateTimerDisplay`) are not modelled. `Date.now` is a clock. The elapsed seconds are a parameter of `FormatTime`.
- `Math.random` is not modelled as a distribution. Every draw is an arbitrary value in its range, so the contracts hold for every outcome.
- Tile selection (`handleTileClick`, highlighting) and the keyboard handler are not modelled. The selected cell is a parameter of the handlers. The keyboard handler filters keys to 1..9 before calling `handleNumberInput`, and `parseInt` returning NaN is left out with it.
- `createGrid` and `startNewGame` are not modelled beyond the `SudokuGame` constructor. It stands for copying the generated puzzle and marking its non-zero cells fixed (`populateGrid`). Generation failure (`startNewGame` throwing) is the `None` of `Generate`.
- The defensive guards of the source (`!board[row]`, `typeof ... != "undefined"`, a missing tile) are not modelled. They cannot fire on a 9x9 board. The cell checks therefore require a 9x9 board and in-range coordinates, which every caller in the source supplies. `isBoardFull` and `isBoardValid` do check the shape.
- Only N = 9 (SRN = 3) is modelled. The constructor's size argument and `Math.sqrt` are fixed to these values.
- `K_MAP` is modelled as a map over the three difficulty names. A key inherited from the object prototype (such as "constructor") would give a non-number in JavaScript. The model treats it as any other unknown key.
- Generator.SudokuGenerator.FillBox: the model does not prove that filling an empty box succeeds. The source bounds the search by 45 steps per cell, and the contract states only what holds on success and on failure.
- Generator.SudokuGenerator.Generate: the puzzle is promised to agree with the solution only away from (0, 0), and not to be consistent, because the source's top-left step can make two givens clash (see Findings). The puzzle and solution are returned as values; the source returns the arrays themselves, so the puzzle aliases the generator's `mat`.
- Generator.SudokuGenerator.RemoveKDigits: as in the source, an emptied (0, 0) receives the first clue's value, so agreement with the solution is stated for every cell except (0, 0) and consistency is not promised (see Findings). RemoveKDigitsCorrected states full agreement.
- Validation.IsBoardValid: the row lengths are checked in a pass of their own before the validity scan, while `isBoardValid` checks each row's length inside the scan, just before that row. The answer is the same for every board: a row of the wrong length makes both return false, whether or not an earlier cell fails first. The model's `IsValid` needs a 9x9 board, hence the separate pass.
- Uniqueness of the puzzle's solution is not modelled. The source's removal test is local (at most one legal digit in the emptied cell) and does not establish uniqueness.
- Game.SudokuGame.HandleHint: `updateHintButtonDisplay` only redraws the hint button and is not modelled.

## Findings

| source | as written | input that shows it | evidently intended | confidence | as-written member | corrected member |
|---|---|---|---|---|---|---|
| script.js:48 | when the carved puzzle has (0, 0) empty, removeKDigits moves the first clue's value into (0, 0) and empties the clue's cell | any carving that empties (0, 0) and keeps a clue at (0, e) in row 0: that value differs from the solution's value at (0, 0), since both sit in row 0 of a solved grid; if column 0 also keeps a clue at (i, 0) equal to that value, (0, 0) and (i, 0) are two clashing givens, and since givens are fixed and isBoardValid checks them, the game can never be won | the puzzle still agrees with the solution after the top-left step (the step is meant to be cosmetic); (0, 0) should get its own solution value | not executed | Carving.MovedDisagrees, Carving.MovedClashes, Generator.SudokuGenerator.RemoveKDigits, Generator.SudokuGenerator.Generate | Carving.RestoredAgrees, Generator.SudokuGenerator.RemoveKDigitsCorrected, Generator.SudokuGenerator.GenerateCorrected |
