/**
  The shared vocabulary of the solver: a cell is the empty string or a digit
  string, a grid is nine rows of nine cells, a position is a (row, col) pair
  and the solver is in one of four states.
 */
module SudokuTypes {

  /** A cell's text: "" when empty, otherwise (normally) one digit "1".."9". */
  type Cell = string

  /** A board as a value: a sequence of rows, each a sequence of cells. */
  type Grid = seq<seq<Cell>>

  datatype CellPosition = CellPosition(row: int, col: int)

  datatype SolveState = Idle | Solving | Paused | Solved

  datatype Option<T> = None | Some(value: T)

  /** Nine rows of nine cells. */
  predicate IsGrid(g: Grid)
  {
    |g| == 9 && forall r :: 0 <= r < 9 ==> |g[r]| == 9
  }

  predicate InRange(p: CellPosition)
  {
    0 <= p.row < 9 && 0 <= p.col < 9
  }

  /** The text "1".."9" of a single non-zero digit. */
  predicate IsDigitString(s: string)
  {
    |s| == 1 && '1' <= s[0] <= '9'
  }

  /** Every cell is empty or a single non-zero digit. */
  predicate WellFormed(g: Grid)
    requires IsGrid(g)
  {
    forall r, c :: 0 <= r < 9 && 0 <= c < 9 ==> g[r][c] == "" || IsDigitString(g[r][c])
  }

  /** `num.toString()` for a candidate 1 <= num <= 9. */
  function DigitString(n: int): (s: string)
    requires 1 <= n <= 9
    ensures IsDigitString(s) && s[0] as int - '0' as int == n
  {
    [('0' as int + n) as char]
  }

  /** Every single-digit string is the text of exactly the candidate its character names. */
  lemma DigitStringOfDigit(s: string)
    requires IsDigitString(s)
    ensures 1 <= s[0] as int - '0' as int <= 9
    ensures s == DigitString(s[0] as int - '0' as int)
  {
    var t := DigitString(s[0] as int - '0' as int);
    assert |t| == 1 && t[0] == s[0];
  }

  /** The grid equal to `g` except that the cell at `p` holds `v`. */
  function Set(g: Grid, p: CellPosition, v: Cell): (h: Grid)
    requires IsGrid(g) && InRange(p)
    ensures IsGrid(h) && h[p.row][p.col] == v
    ensures forall r, c :: 0 <= r < 9 && 0 <= c < 9 && (r, c) != (p.row, p.col) ==> h[r][c] == g[r][c]
  {
    g[p.row := g[p.row][p.col := v]]
  }

  /** Two grids with the same cells are the same grid. */
  lemma GridExtensionality(g: Grid, h: Grid)
    requires IsGrid(g) && IsGrid(h)
    requires forall r, c :: 0 <= r < 9 && 0 <= c < 9 ==> g[r][c] == h[r][c]
    ensures g == h
  {
    forall r | 0 <= r < 9
      ensures g[r] == h[r]
    {
      assert forall c :: 0 <= c < 9 ==> g[r][c] == h[r][c];
    }
  }

  /** The value of a 9x9 array of cells, row by row. */
  function Contents(a: array2<Cell>): (g: Grid)
    requires a.Length0 == 9 && a.Length1 == 9
    reads a
    ensures IsGrid(g)
    ensures forall r, c {:trigger g[r][c]} :: 0 <= r < 9 && 0 <= c < 9 ==> g[r][c] == a[r, c]
  {
    seq(9, r requires 0 <= r < 9 reads a => seq(9, c requires 0 <= c < 9 reads a => a[r, c]))
  }
}
