/**
  The board primitives: the empty grid, the placement check over a cell's
  row, column and 3x3 box, the row-major scan for the first empty cell, and
  the whole-board check that clears each filled cell, checks it and puts it
  back. The checks and the scan are specified by functions on grid values and
  implemented by loop methods over a 9x9 array, as the program runs them.
 */
module SudokuBoard {
  import opened SudokuTypes

  /** A grid of nine rows of nine empty cells. */
  function CreateEmptyGrid(): (g: Grid)
    ensures IsGrid(g)
    ensures forall r, c :: 0 <= r < 9 && 0 <= c < 9 ==> g[r][c] == ""
  {
    seq(9, _ => seq(9, _ => ""))
  }

  // ----- placement check ---------------------------------------------------

  /** First row (or column) of the 3x3 box holding index `i`: `Math.floor(i / 3) * 3`. */
  function BoxOrigin(i: int): (o: int)
    requires 0 <= i < 9
    ensures o == 0 || o == 3 || o == 6
    ensures o <= i < o + 3
  {
    (i / 3) * 3
  }

  /** No cell of row `row` other than column `col` holds `num`. */
  predicate RowClear(g: Grid, row: int, col: int, num: Cell)
    requires IsGrid(g) && 0 <= row < 9
  {
    forall x :: 0 <= x < 9 && x != col ==> g[row][x] != num
  }

  /** No cell of column `col` other than row `row` holds `num`. */
  predicate ColumnClear(g: Grid, row: int, col: int, num: Cell)
    requires IsGrid(g) && 0 <= col < 9
  {
    forall y :: 0 <= y < 9 && y != row ==> g[y][col] != num
  }

  /** No cell of the box, outside row `row` and column `col`, holds `num`. */
  predicate BoxClear(g: Grid, row: int, col: int, num: Cell)
    requires IsGrid(g) && 0 <= row < 9 && 0 <= col < 9
  {
    forall y, x ::
      (BoxOrigin(row) <= y < BoxOrigin(row) + 3 && BoxOrigin(col) <= x < BoxOrigin(col) + 3 &&
       y != row && x != col) ==> g[y][x] != num
  }

  /** What `isValidCell(grid, pos, num)` decides: its three scans all pass. */
  predicate ValidPlacement(g: Grid, pos: CellPosition, num: Cell)
    requires IsGrid(g) && InRange(pos)
  {
    RowClear(g, pos.row, pos.col, num) && ColumnClear(g, pos.row, pos.col, num) &&
    BoxClear(g, pos.row, pos.col, num)
  }

  predicate SameBox(r1: int, c1: int, r2: int, c2: int)
  {
    r1 / 3 == r2 / 3 && c1 / 3 == c2 / 3
  }

  /** Two different cells that share a row, a column or a 3x3 box. */
  predicate Peers(r1: int, c1: int, r2: int, c2: int)
  {
    (r1 != r2 || c1 != c2) && (r1 == r2 || c1 == c2 || SameBox(r1, c1, r2, c2))
  }

  /** The Sudoku rule for one cell: no peer of (row, col) holds `num`. */
  predicate NoPeerHolds(g: Grid, row: int, col: int, num: Cell)
    requires IsGrid(g)
  {
    forall r, c :: 0 <= r < 9 && 0 <= c < 9 && Peers(row, col, r, c) ==> g[r][c] != num
  }

  /**
    The three scans together examine exactly the peers of `pos`: the check
    fails iff `num` stands at some other cell of the row, the column or the box.
   */
  lemma ValidPlacementIffNoPeerHolds(g: Grid, pos: CellPosition, num: Cell)
    requires IsGrid(g) && InRange(pos)
    ensures ValidPlacement(g, pos, num) <==> NoPeerHolds(g, pos.row, pos.col, num)
  {
    var row, col := pos.row, pos.col;
    if ValidPlacement(g, pos, num) {
      forall r, c | 0 <= r < 9 && 0 <= c < 9 && Peers(row, col, r, c)
        ensures g[r][c] != num
      {
        if r == row {
          assert c != col;
        } else if c == col {
        } else {
          assert BoxOrigin(row) == BoxOrigin(r) && BoxOrigin(col) == BoxOrigin(c);
        }
      }
    }
    if NoPeerHolds(g, row, col, num) {
      forall y, x | BoxOrigin(row) <= y < BoxOrigin(row) + 3 && BoxOrigin(col) <= x < BoxOrigin(col) + 3 &&
                    y != row && x != col
        ensures g[y][x] != num
      {
        assert SameBox(row, col, y, x);
      }
    }
  }

  /** The check keys on the queried coordinate, not on what that cell holds. */
  lemma ValidPlacementIgnoresOwnCell(g: Grid, pos: CellPosition, v: Cell, num: Cell)
    requires IsGrid(g) && InRange(pos)
    ensures ValidPlacement(Set(g, pos, v), pos, num) == ValidPlacement(g, pos, num)
  {
    var h := Set(g, pos, v);
    ValidPlacementIffNoPeerHolds(g, pos, num);
    ValidPlacementIffNoPeerHolds(h, pos, num);
    assert NoPeerHolds(h, pos.row, pos.col, num) == NoPeerHolds(g, pos.row, pos.col, num);
  }

  /** `isValidCell`: the row scan, the column scan, then the box scan, each returning early. */
  method IsValidCell(a: array2<Cell>, pos: CellPosition, num: Cell) returns (ok: bool)
    requires a.Length0 == 9 && a.Length1 == 9 && InRange(pos)
    ensures ok == ValidPlacement(Contents(a), pos, num)
  {
    ghost var g := Contents(a);
    var row, col := pos.row, pos.col;
    for x := 0 to 9
      invariant forall x' :: 0 <= x' < x && x' != col ==> a[row, x'] != num
    {
      if x != col && a[row, x] == num {
        assert g[row][x] == num;
        return false;
      }
    }
    for y := 0 to 9
      invariant forall y' :: 0 <= y' < y && y' != row ==> a[y', col] != num
    {
      if y != row && a[y, col] == num {
        assert g[y][col] == num;
        return false;
      }
    }
    var boxRow := (row / 3) * 3;
    var boxCol := (col / 3) * 3;
    assert boxRow == BoxOrigin(row) && boxCol == BoxOrigin(col);
    for y := boxRow to boxRow + 3
      invariant forall y', x' :: boxRow <= y' < y && boxCol <= x' < boxCol + 3 && y' != row && x' != col ==>
                  a[y', x'] != num
    {
      for x := boxCol to boxCol + 3
        invariant forall y', x' :: boxRow <= y' < y && boxCol <= x' < boxCol + 3 && y' != row && x' != col ==>
                    a[y', x'] != num
        invariant forall x' :: boxCol <= x' < x && y != row && x' != col ==> a[y, x'] != num
      {
        if y != row && x != col && a[y, x] == num {
          assert g[y][x] == num;
          return false;
        }
      }
    }
    return true;
  }

  // ----- first empty cell --------------------------------------------------

  /** Cell (r1, c1) comes before cell (r2, c2) in row-major order. */
  predicate Before(r1: int, c1: int, r2: int, c2: int)
  {
    r1 < r2 || (r1 == r2 && c1 < c2)
  }

  /** The first empty cell of row `row` at column `col` or later. */
  function FirstEmptyInRow(g: Grid, row: int, col: int): (r: Option<CellPosition>)
    requires IsGrid(g) && 0 <= row < 9 && 0 <= col <= 9
    decreases 9 - col
    ensures r.None? ==> forall x :: col <= x < 9 ==> g[row][x] != ""
    ensures r.Some? ==> r.value.row == row && col <= r.value.col < 9 && g[row][r.value.col] == ""
    ensures r.Some? ==> forall x :: col <= x < r.value.col ==> g[row][x] != ""
  {
    if col == 9 then None
    else if g[row][col] == "" then Some(CellPosition(row, col))
    else FirstEmptyInRow(g, row, col + 1)
  }

  /** The first empty cell, in row-major order, of rows `row`..8. */
  function FirstEmptyFrom(g: Grid, row: int): (r: Option<CellPosition>)
    requires IsGrid(g) && 0 <= row <= 9
    decreases 9 - row
    ensures r.None? ==> forall y, x :: row <= y < 9 && 0 <= x < 9 ==> g[y][x] != ""
    ensures r.Some? ==> InRange(r.value) && row <= r.value.row && g[r.value.row][r.value.col] == ""
    ensures r.Some? ==> forall y, x :: row <= y < 9 && 0 <= x < 9 && Before(y, x, r.value.row, r.value.col) ==>
                          g[y][x] != ""
  {
    if row == 9 then None
    else
      match FirstEmptyInRow(g, row, 0)
      case Some(p) => Some(p)
      case None => FirstEmptyFrom(g, row + 1)
  }

  /** What `findEmptyCell` returns: the first empty cell in row-major order, or none. */
  function FirstEmpty(g: Grid): (r: Option<CellPosition>)
    requires IsGrid(g)
    ensures r.None? <==> forall y, x :: 0 <= y < 9 && 0 <= x < 9 ==> g[y][x] != ""
    ensures r.Some? ==> InRange(r.value) && g[r.value.row][r.value.col] == ""
    ensures r.Some? ==> forall y, x :: 0 <= y < 9 && 0 <= x < 9 && Before(y, x, r.value.row, r.value.col) ==>
                          g[y][x] != ""
  {
    FirstEmptyFrom(g, 0)
  }

  /** An empty cell with no empty cell before it is the one the scan finds. */
  lemma FirstEmptyIsUnique(g: Grid, p: CellPosition)
    requires IsGrid(g) && InRange(p) && g[p.row][p.col] == ""
    requires forall y, x :: 0 <= y < 9 && 0 <= x < 9 && Before(y, x, p.row, p.col) ==> g[y][x] != ""
    ensures FirstEmpty(g) == Some(p)
  {
    var q := FirstEmpty(g).value;
    assert !Before(q.row, q.col, p.row, p.col);
  }

  /** `findEmptyCell`: rows 0..8, and within each row columns 0..8, returning at the first "". */
  method FindEmptyCell(a: array2<Cell>) returns (r: Option<CellPosition>)
    requires a.Length0 == 9 && a.Length1 == 9
    ensures r == FirstEmpty(Contents(a))
  {
    ghost var g := Contents(a);
    for row := 0 to 9
      invariant forall y, x :: 0 <= y < row && 0 <= x < 9 ==> a[y, x] != ""
    {
      for col := 0 to 9
        invariant forall y, x :: 0 <= y < row && 0 <= x < 9 ==> a[y, x] != ""
        invariant forall x :: 0 <= x < col ==> a[row, x] != ""
      {
        if a[row, col] == "" {
          r := Some(CellPosition(row, col));
          FirstEmptyIsUnique(g, r.value);
          return;
        }
      }
    }
    r := None;
  }

  // ----- whole-board check -------------------------------------------------

  /** The step `isValidSudoku` takes at one cell: if filled, clear it and check its own value there. */
  predicate CellPasses(g: Grid, row: int, col: int)
    requires IsGrid(g) && 0 <= row < 9 && 0 <= col < 9
  {
    g[row][col] != "" ==> ValidPlacement(Set(g, CellPosition(row, col), ""), CellPosition(row, col), g[row][col])
  }

  /** What `isValidSudoku` decides: every cell passes the clear-then-check step. */
  predicate ValidBoard(g: Grid)
    requires IsGrid(g)
  {
    forall r, c :: 0 <= r < 9 && 0 <= c < 9 ==> CellPasses(g, r, c)
  }

  /** No two peers hold the same digit: the Sudoku rule as a property of the whole board. */
  predicate NoClash(g: Grid)
    requires IsGrid(g)
  {
    forall r1, c1, r2, c2 ::
      (0 <= r1 < 9 && 0 <= c1 < 9 && 0 <= r2 < 9 && 0 <= c2 < 9 &&
       Peers(r1, c1, r2, c2) && g[r1][c1] != "") ==> g[r1][c1] != g[r2][c2]
  }

  /** One filled cell passes the clear-then-check step iff no peer holds its value. */
  lemma CellPassesIffNoPeerHolds(g: Grid, row: int, col: int)
    requires IsGrid(g) && 0 <= row < 9 && 0 <= col < 9 && g[row][col] != ""
    ensures CellPasses(g, row, col) <==> NoPeerHolds(g, row, col, g[row][col])
  {
    var p := CellPosition(row, col);
    ValidPlacementIgnoresOwnCell(g, p, "", g[row][col]);
    ValidPlacementIffNoPeerHolds(g, p, g[row][col]);
  }

  /** The clear-then-check board test is exactly the Sudoku rule. */
  lemma ValidBoardIffNoClash(g: Grid)
    requires IsGrid(g)
    ensures ValidBoard(g) <==> NoClash(g)
  {
    forall r, c | 0 <= r < 9 && 0 <= c < 9 && g[r][c] != ""
      ensures CellPasses(g, r, c) <==> NoPeerHolds(g, r, c, g[r][c])
    {
      CellPassesIffNoPeerHolds(g, r, c);
    }
  }

  /** The all-empty grid passes the whole-board check. */
  lemma EmptyGridIsValid()
    ensures ValidBoard(CreateEmptyGrid())
  {
  }

  /**
    `isValidSudoku`: for each filled cell in row-major order, clear it, check
    its value there, write it back, and stop at the first failure. The array
    is the caller's and is left as it was found.
   */
  method IsValidSudoku(a: array2<Cell>) returns (ok: bool)
    requires a.Length0 == 9 && a.Length1 == 9
    modifies a
    ensures Contents(a) == old(Contents(a))
    ensures ok == ValidBoard(old(Contents(a)))
  {
    ghost var g := Contents(a);
    for row := 0 to 9
      invariant Contents(a) == g
      invariant forall y, x :: 0 <= y < row && 0 <= x < 9 ==> CellPasses(g, y, x)
    {
      for col := 0 to 9
        invariant Contents(a) == g
        invariant forall y, x :: 0 <= y < row && 0 <= x < 9 ==> CellPasses(g, y, x)
        invariant forall x :: 0 <= x < col ==> CellPasses(g, row, x)
      {
        var currentValue := a[row, col];
        if currentValue != "" {
          var pos := CellPosition(row, col);
          a[row, col] := "";
          GridExtensionality(Contents(a), Set(g, pos, ""));
          var isValid := IsValidCell(a, pos, currentValue);
          a[row, col] := currentValue;
          GridExtensionality(Contents(a), g);
          if !isValid {
            assert !CellPasses(g, row, col);
            return false;
          }
        }
      }
    }
    return true;
  }
}
