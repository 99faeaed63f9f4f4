/**
  The grid editor's input filter: a typed value reaches the board only when
  it is empty or a single non-zero digit, and an accepted value replaces
  exactly one cell of a fresh copy of the board, which is both kept locally
  and handed to the change listener.
 */
module SudokuGridEdit {
  import opened SudokuTypes

  /** `/^\d$/`: the whole value is one ASCII digit, '0' included. */
  predicate IsSingleDigit(value: string)
  {
    |value| == 1 && '0' <= value[0] <= '9'
  }

  /** The early-return guard of `handleCellChange`. */
  predicate RejectsEdit(value: string)
  {
    value != "" && (!IsSingleDigit(value) || value == "0")
  }

  /** What an edit leaves behind: the locally held grid, and the grid passed to `onGridChange`, if it was called. */
  datatype EditOutcome = EditOutcome(grid: Grid, notified: Option<Grid>)

  /** `handleCellChange(row, col, value)` on the locally held `grid`. */
  function HandleCellChange(grid: Grid, row: int, col: int, value: string): (out: EditOutcome)
    requires IsGrid(grid) && 0 <= row < 9 && 0 <= col < 9
    ensures IsGrid(out.grid)
    // rejected: the local grid stays as it was and the listener is not called
    ensures RejectsEdit(value) <==> out.notified.None?
    ensures RejectsEdit(value) ==> out.grid == grid
    // accepted: the listener receives the very grid kept locally, which differs
    // from the old one at (row, col) alone, where it holds the value
    ensures !RejectsEdit(value) ==> out.notified == Some(out.grid)
    ensures !RejectsEdit(value) ==>
              out.grid[row][col] == value &&
              forall r, c :: 0 <= r < 9 && 0 <= c < 9 && (r, c) != (row, col) ==> out.grid[r][c] == grid[r][c]
  {
    if RejectsEdit(value) then
      EditOutcome(grid, None)
    else
      var newGrid := Set(grid, CellPosition(row, col), value);
      EditOutcome(newGrid, Some(newGrid))
  }

  /** The filter lets through exactly the empty value and the texts of the digits 1..9. */
  lemma AcceptedValues(value: string)
    ensures !RejectsEdit(value) <==> value == "" || exists n :: 1 <= n <= 9 && value == DigitString(n)
  {
    if value != "" && !RejectsEdit(value) {
      DigitStringOfDigit(value);
    }
    if exists n :: 1 <= n <= 9 && value == DigitString(n) {
      var n :| 1 <= n <= 9 && value == DigitString(n);
      assert value[0] as int - '0' as int == n;
    }
  }

  /** "0", a letter, a multi-character string and a digit followed by a line break are all turned away. */
  lemma RejectedExamples()
    ensures RejectsEdit("0") && RejectsEdit("a") && RejectsEdit("12") && RejectsEdit("5\n")
    ensures !RejectsEdit("") && !RejectsEdit("7")
  {
  }

  /** Edits keep every cell empty or a single non-zero digit. */
  lemma EditKeepsWellFormed(grid: Grid, row: int, col: int, value: string)
    requires IsGrid(grid) && 0 <= row < 9 && 0 <= col < 9 && WellFormed(grid)
    ensures WellFormed(HandleCellChange(grid, row, col, value).grid)
  {
  }

  /** Typing back a cell's previous text undoes an accepted edit of a well-formed board. */
  lemma EditThenRestore(grid: Grid, row: int, col: int, value: string)
    requires IsGrid(grid) && 0 <= row < 9 && 0 <= col < 9 && WellFormed(grid)
    ensures HandleCellChange(HandleCellChange(grid, row, col, value).grid, row, col, grid[row][col]).grid == grid
  {
    var once := HandleCellChange(grid, row, col, value).grid;
    var back := HandleCellChange(once, row, col, grid[row][col]);
    assert !RejectsEdit(grid[row][col]);
    GridExtensionality(back.grid, grid);
  }

  /** Repeating an edit changes nothing further. */
  lemma EditIsIdempotent(grid: Grid, row: int, col: int, value: string)
    requires IsGrid(grid) && 0 <= row < 9 && 0 <= col < 9
    ensures var once := HandleCellChange(grid, row, col, value).grid;
            HandleCellChange(once, row, col, value).grid == once
  {
    var once := HandleCellChange(grid, row, col, value).grid;
    GridExtensionality(HandleCellChange(once, row, col, value).grid, once);
  }
}
