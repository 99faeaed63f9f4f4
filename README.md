# Sudoku solver: a verified model

This project models the core of a small browser Sudoku solver. The board is
a 9x9 grid of text cells: `""` for an empty cell, `"1"`..`"9"` for a digit.
The model covers the following parts of the program, file by file.

- **Board utilities** (`src/utils/sudoku.ts`), in module `SudokuBoard`:
  - creating an empty grid;
  - the placement check (`isValidCell`), which scans the row, the column and the 3x3 box;
  - the row-major scan for the first empty cell (`findEmptyCell`);
  - the whole-board check (`isValidSudoku`), which clears each filled cell in turn, re-checks its digit and then restores the cell.

  Each check is specified by a function on grid values. The program runs each one as a loop over a 9x9 array, and that loop method is proved equal to its function. The source's scans are also proved equivalent to the usual peer rule, in both directions: no other cell in the same row, column or box holds the digit.
- **The solver component** (`src/components/SudokuSolver.tsx`), in module `SudokuSolverEngine`, class `SudokuSolver`:
  - the component state: the displayed grid, `solveState` (idle / solving / paused / solved), the highlighted cell and the stop flag `solvingRef`;
  - the recursive backtracking `solve`;
  - the Solve, Pause, Resume and Reset handlers.

  `solve` works in place on an array. It fills the first empty cell with the digits 1..9 in ascending order, checks the stop flag before each digit, recurses, and clears the cell when the recursion fails. Every step is published to the displayed grid. The model proves three things about it:
  - it is **sound**: success leaves a completion of the starting board, in which only empty cells were filled, each with a digit that passes the placement check;
  - it is **complete**: if the flag is up and the search fails, the starting board has no completion at all;
  - it **follows a fixed order**: its result is exactly `FirstCompletion`, a function on grid values. At the row-major first empty cell, that function tries the digits 1..9 in ascending order, and the first digit that passes the placement check and whose board completes decides the result. So on a board with several completions, such as the empty board, the search's answer is pinned down. The digit it settles on at that cell is the least one any completion holds there;
  - it **undoes its work**: a failed search leaves the board, `solveState` and the flag as they were. The highlighted cell is not restored; it stays on the last cell probed.
- **The grid editor** (`src/components/SudokuGrid.tsx`), in module `SudokuGridEdit`: the input filter of `handleCellChange` and the single-cell update it makes. `SudokuSolver.HandleGridEdit` models how the solver wires it in: the editor is enabled only while idle, and its change listener is `setGrid`.

Shared types (`src/types/sudoku.ts`) are in module `SudokuTypes`.

## Model

| member | source | states |
|---|---|---|
| SudokuBoard.CreateEmptyGrid | src/utils/sudoku.ts:3 | nine rows of nine cells, every cell `""` |
| SudokuBoard.BoxOrigin | src/utils/sudoku.ts:20-21 | the box origin `floor(i/3)*3` is 0, 3 or 6, and the index lies in the three rows or columns starting there |
| SudokuBoard.IsValidCell | src/utils/sudoku.ts:5-30 | the three early-return scans over the array answer exactly the placement check on the board's contents |
| SudokuBoard.ValidPlacementIffNoPeerHolds | src/utils/sudoku.ts:9-27 | the placement check holds iff no other cell in the same row, column or 3x3 box holds the digit |
| SudokuBoard.ValidPlacementIgnoresOwnCell | src/utils/sudoku.ts:10-25 | each scan skips the cell itself, so whatever that cell holds does not change the answer |
| SudokuBoard.FirstEmptyInRow | src/utils/sudoku.ts:34-36 | the inner scan finds the leftmost empty cell of a row from a column on, or reports that there is none |
| SudokuBoard.FirstEmptyFrom | src/utils/sudoku.ts:33-38 | the outer scan finds the row-major first empty cell from a row on, or reports that none exists |
| SudokuBoard.FirstEmpty | src/utils/sudoku.ts:32-39 | the result is absent iff no cell is empty; when present, it is an empty cell and every cell before it in row-major order is filled |
| SudokuBoard.FirstEmptyIsUnique | src/utils/sudoku.ts:32-39 | any empty cell with no empty cell before it is the one the scan returns |
| SudokuBoard.FindEmptyCell | src/utils/sudoku.ts:32-39 | the nested loops over the array return the row-major first empty cell, or nothing when the board is full |
| SudokuBoard.CellPassesIffNoPeerHolds | src/utils/sudoku.ts:44-51 | a filled cell passes the clear-and-check step iff no peer holds its digit |
| SudokuBoard.ValidBoardIffNoClash | src/utils/sudoku.ts:41-57 | the whole-board check holds iff no two peer cells hold the same non-empty text |
| SudokuBoard.EmptyGridIsValid | src/utils/sudoku.ts:3 | the empty grid passes the whole-board check |
| SudokuBoard.IsValidSudoku | src/utils/sudoku.ts:41-57 | the answer is the whole-board check on the board as given, and clearing then restoring each cell leaves the array as it was |
| SudokuTypes.DigitString | src/components/SudokuSolver.tsx:33 | `num.toString()` of a candidate 1..9 is one digit character naming that number |
| SudokuTypes.DigitStringOfDigit | src/components/SudokuSolver.tsx:29-33 | every one-digit text "1".."9" is the text of exactly one candidate |
| SudokuSolverEngine.FillingShrinksEmptyCells | src/components/SudokuSolver.tsx:37 | writing a digit into an empty cell removes exactly that cell from the empty cells, so the recursion terminates |
| SudokuSolverEngine.SolutionFixesCell | src/components/SudokuSolver.tsx:29-37 | a completion's digit at an empty cell passes the placement check on the board and completes the board with that digit written |
| SudokuSolverEngine.SolutionExtendsBack | src/components/SudokuSolver.tsx:35-48 | a completion of the board with a checked digit written is a completion of the board without it |
| SudokuSolverEngine.SolutionPreservesValidBoard | src/components/SudokuSolver.tsx:17-57 | completing a board that passes the whole-board check yields a board that passes it |
| SudokuSolverEngine.SolutionIsComplete | src/components/SudokuSolver.tsx:18-24 | a completion has no empty cell, and it holds only digits when the board held only digits and blanks |
| SudokuSolverEngine.FullBoardIsOwnSolution | src/components/SudokuSolver.tsx:18-24 | a board with no empty cell is its own completion |
| SudokuSolverEngine.ExcludeCandidate | src/components/SudokuSolver.tsx:35-52 | a candidate that fails the check, or whose recursion has no completion, appears in no completion at that cell |
| SudokuSolverEngine.AllCandidatesExcluded | src/components/SudokuSolver.tsx:29-55 | once all nine digits are excluded at an empty cell, the board has no completion |
| SudokuSolverEngine.FirstCompletionSound | src/components/SudokuSolver.tsx:17-57 | whatever the ordered search finds is a completion of the board |
| SudokuSolverEngine.CompletionFromSound | src/components/SudokuSolver.tsx:29-52 | trying the candidates num..9 at an empty cell only ever yields a completion of the board |
| SudokuSolverEngine.FirstCompletionComplete | src/components/SudokuSolver.tsx:17-57 | when the ordered search finds nothing, the board has no completion at all |
| SudokuSolverEngine.CompletionFromComplete | src/components/SudokuSolver.tsx:29-55 | when the candidates num..9 all fail and no completion uses a smaller digit, the board has no completion |
| SudokuSolverEngine.FailedCandidateExcluded | src/components/SudokuSolver.tsx:35-52 | a candidate the ordered search passes over appears in no completion at that cell, and the search moves on to the next digit |
| SudokuSolverEngine.CompletionFromLeast | src/components/SudokuSolver.tsx:29-52 | the digit the candidates num..9 settle on is the least one any completion holds at that cell |
| SudokuSolverEngine.FirstCompletionLeastAtFirstEmpty | src/components/SudokuSolver.tsx:18-52 | at the row-major first empty cell, the ordered search's completion holds the least digit that any completion holds there |
| SudokuSolverEngine.SudokuSolver.constructor | src/components/SudokuSolver.tsx:9-15 | the initial state: an empty grid, idle, no highlighted cell, flag down |
| SudokuSolverEngine.SudokuSolver.Solve | src/components/SudokuSolver.tsx:17-57 | A full board is solved at once: state solved, flag cleared, nothing written. With the flag down nothing is placed. Success leaves exactly the ordered search's completion `FirstCompletion` of the starting board, and sets solved with the flag cleared. Failure restores the board, `solveState` and the flag; with the flag up it means the ordered search finds nothing and the board has no completion |
| SudokuSolverEngine.SudokuSolver.TryCandidates | src/components/SudokuSolver.tsx:29-55 | the candidate loop at an empty cell checks the flag before each digit (flag down: nothing placed). Success leaves exactly the result of trying 1..9 in ascending order (`CompletionFrom` from 1); with the flag up, failure means that ordered trial finds nothing |
| SudokuSolverEngine.SudokuSolver.TryDigit | src/components/SudokuSolver.tsx:33-52 | a digit that fails the placement check is never written and changes nothing. On success `num` stays at the cell, it passed the check, and the board is the ordered search's completion of the board with `num` written. With the flag up, a failure means the digit is invalid there or that board has no ordered completion |
| SudokuSolverEngine.SudokuSolver.Place | src/components/SudokuSolver.tsx:37-51 | write, publish, recurse. Success keeps the digit and leaves the ordered completion of the written board. On failure the cell is cleared and everything restored. Either way the displayed grid is the working board, so the restored board is published |
| SudokuSolverEngine.SudokuSolver.HandleSolve | src/components/SudokuSolver.tsx:59-69 | searches a copy of the grid with the flag raised. It succeeds iff the ordered search finds a completion, and then the grid becomes exactly that completion (a valid board stays valid) and the state is solved. Failure: the grid is unchanged, no completion exists and the flag stays up; the state becomes idle only if the state captured at render time was already solving |
| SudokuSolverEngine.SudokuSolver.HandlePause | src/components/SudokuSolver.tsx:71-76 | the state becomes paused; grid, highlight and flag are untouched |
| SudokuSolverEngine.SudokuSolver.HandleResume | src/components/SudokuSolver.tsx:78-81 | the state becomes solving and the search restarts from the displayed grid: it ends solved with a completion, or still solving with the grid unchanged (unsolvable when the flag was up); with the flag down and an empty cell it stays solving with the grid unchanged; a solved outcome is exactly the ordered search's completion of the displayed grid, and with the flag up it is solved iff that completion exists |
| SudokuSolverEngine.SudokuSolver.HandleReset | src/components/SudokuSolver.tsx:83-90 | an empty grid, idle, no highlighted cell; the flag is left as it was |
| SudokuSolverEngine.SudokuSolver.HandleGridEdit | src/components/SudokuSolver.tsx:118-121 | while idle, an edit replaces the solver's grid by the editor's accepted grid; otherwise the grid is unchanged; the rest of the state is untouched |
| SudokuGridEdit.HandleCellChange | src/components/SudokuGrid.tsx:18-27 | a rejected value changes nothing and notifies no one. An accepted value yields a copy that differs at (row, col) only, where it holds the value; that same copy is kept locally and passed to the listener |
| SudokuGridEdit.AcceptedValues | src/components/SudokuGrid.tsx:19 | an edit is accepted iff the value is `""` or the text of a digit 1..9 |
| SudokuGridEdit.RejectedExamples | src/components/SudokuGrid.tsx:19 | `"0"`, `"a"`, `"12"` and a digit followed by a line break are rejected; `""` and `"7"` are accepted |
| SudokuGridEdit.EditKeepsWellFormed | src/components/SudokuGrid.tsx:19-24 | an edit keeps every cell empty or a digit 1..9 |
| SudokuGridEdit.EditThenRestore | src/components/SudokuGrid.tsx:23-24 | typing back a cell's previous text undoes an edit |
| SudokuGridEdit.EditIsIdempotent | src/components/SudokuGrid.tsx:23-24 | repeating an edit changes nothing further |

A completion (`IsSolutionOf(h, g)`) is a board `h` that:
- keeps every filled cell of `g`;
- holds a digit 1..9 in every cell that is empty in `g`;
- passes the placement check at each of those cells.

As in the program's own check, a clash between digits that were given in `g` is not examined here. `HandleSolve` relates this to the whole-board check through `SolutionPreservesValidBoard`.

Where the program's behaviour differs from a stronger reading of its purpose, the model follows the program:

- **Failure after Solve leaves the state at solving.** When `handleSolve`'s search fails, the handler compares `solveState` with `'solving'`. That value is the one captured when the handler was rendered, and the Solve button is rendered only while idle. So the failure never returns the component to idle: the state stays solving and the flag stays up. `HandleSolve` states the transition in terms of the captured state.
- **Only success lowers the flag.** Pause and reset never lower `solvingRef`; only a successful search does (line 22). A resumed search therefore runs with the flag as it was.
- **Floor division.** `Math.floor(i / 3)` on the non-negative indices 0..8 is Dafny's `/`.

The search is split into four methods: `Solve` handles the first-empty-cell step, `TryCandidates` the candidate loop, `TryDigit` one candidate's check, and `Place` the write-recurse-undo step. Together they are the single recursive `solve` function, split only to keep each proof small. Termination is proved from the strictly shrinking set of empty cells.

## Left out

- Delays: the `setTimeout` delay between steps, the speed slider and `clearTimeout` in pause, reset and the unmount cleanup are timing only. In the model the delay is a no-op.
- Abandoned searches: after pause or reset the suspended search's promise never resolves, so that search is simply abandoned. The model has no concurrency and does not represent a suspended search.
- Row sharing: `setGrid([...testGrid])` publishes a shallow copy whose rows are shared with the working board, and `handleResume` runs `solve` on the displayed grid itself. The model publishes value snapshots, and resume searches a copy of the grid. Later in-place writes showing through shared rows are not modelled.
- SudokuSolverEngine.SudokuSolver.HandleResume: the effect of resume on a board that a still-running earlier search also writes to is not captured, because of the copy above.
- Rendering: React state snapshots, re-rendering, JSX and CSS. Which buttons are shown in which state is not a precondition of the handlers; each handler is modelled for every state.
- The editor's local grid: it is reset from the solver's grid by an effect (`src/components/SudokuGrid.tsx:14-16`). The model assumes the two are in sync, as they are after every accepted edit.
- `src/App.tsx` is only the page shell and is not part of this model.
