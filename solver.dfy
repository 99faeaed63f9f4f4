/**
  The solver component: a depth-first backtracking search that works in place
  on a 9x9 array, tries the digits 1..9 in ascending order at the first empty
  cell, recurses, and clears the cell again when the recursion fails; and the
  Solve / Pause / Resume / Reset handlers over the component's state. The
  visualisation delay between steps is a no-op here.
 */
module SudokuSolverEngine {
  import opened SudokuTypes
  import opened SudokuBoard
  import opened SudokuGridEdit

  // ----- what a solution is ------------------------------------------------

  /** `h` keeps every filled cell of `g`. */
  predicate Extends(g: Grid, h: Grid)
    requires IsGrid(g) && IsGrid(h)
  {
    forall r, c :: 0 <= r < 9 && 0 <= c < 9 && g[r][c] != "" ==> h[r][c] == g[r][c]
  }

  /**
    `h` completes `g`: it keeps g's filled cells, and every cell g left empty
    holds a digit that passes the placement check in `h`. Clashes among g's own
    filled cells are not ruled out: the search treats them as fixed.
   */
  predicate IsSolutionOf(h: Grid, g: Grid)
  {
    IsGrid(h) && IsGrid(g) && Extends(g, h) &&
    forall r, c :: 0 <= r < 9 && 0 <= c < 9 && g[r][c] == "" ==>
      IsDigitString(h[r][c]) && ValidPlacement(h, CellPosition(r, c), h[r][c])
  }

  /** The positions of the empty cells; the search's termination measure. */
  function EmptyCells(g: Grid): set<CellPosition>
    requires IsGrid(g)
  {
    set r, c | 0 <= r < 9 && 0 <= c < 9 && g[r][c] == "" :: CellPosition(r, c)
  }

  /** Writing a digit into an empty cell removes that cell, and only it, from the empty cells. */
  lemma FillingShrinksEmptyCells(g: Grid, p: CellPosition, d: Cell)
    requires IsGrid(g) && InRange(p) && g[p.row][p.col] == "" && d != ""
    ensures p in EmptyCells(g) && EmptyCells(Set(g, p, d)) == EmptyCells(g) - {p}
  {
    var h := Set(g, p, d);
    assert p == CellPosition(p.row, p.col);
    forall q | q in EmptyCells(h) ensures q in EmptyCells(g) - {p} {
      assert h[q.row][q.col] == "";
    }
    forall q | q in EmptyCells(g) - {p} ensures q in EmptyCells(h) {
      assert h[q.row][q.col] == g[q.row][q.col];
    }
  }

  /** A solution fixes each empty cell to a digit that is already a valid placement in `g`, and stays a solution once that digit is written. */
  lemma SolutionFixesCell(h: Grid, g: Grid, p: CellPosition)
    requires IsSolutionOf(h, g) && InRange(p) && g[p.row][p.col] == ""
    ensures ValidPlacement(g, p, h[p.row][p.col])
    ensures IsSolutionOf(h, Set(g, p, h[p.row][p.col]))
  {
    var d := h[p.row][p.col];
    ValidPlacementIffNoPeerHolds(h, p, d);
    ValidPlacementIffNoPeerHolds(g, p, d);
    assert NoPeerHolds(g, p.row, p.col, d);
    var g' := Set(g, p, d);
    assert Extends(g', h);
    forall r, c | 0 <= r < 9 && 0 <= c < 9 && g'[r][c] == ""
      ensures IsDigitString(h[r][c]) && ValidPlacement(h, CellPosition(r, c), h[r][c])
    {
      assert g[r][c] == "";
    }
  }

  /**
    If `d` passes the placement check at the empty cell `p` of `g`, every
    solution of `g` with `d` written at `p` is a solution of `g` itself.
   */
  lemma SolutionExtendsBack(g: Grid, p: CellPosition, d: Cell, h: Grid)
    requires IsGrid(g) && InRange(p) && g[p.row][p.col] == ""
    requires IsDigitString(d) && ValidPlacement(g, p, d)
    requires IsSolutionOf(h, Set(g, p, d))
    ensures IsSolutionOf(h, g)
  {
    var g' := Set(g, p, d);
    assert h[p.row][p.col] == d;
    ValidPlacementIffNoPeerHolds(g, p, d);
    forall r, c | 0 <= r < 9 && 0 <= c < 9 && Peers(p.row, p.col, r, c)
      ensures h[r][c] != d
    {
      if g[r][c] == "" {
        assert g'[r][c] == "";
        ValidPlacementIffNoPeerHolds(h, CellPosition(r, c), h[r][c]);
        assert Peers(r, c, p.row, p.col);
      }
    }
    ValidPlacementIffNoPeerHolds(h, p, d);
    assert Extends(g, h);
  }

  /** Completing a board that passes the whole-board check yields a board that passes it too. */
  lemma SolutionPreservesValidBoard(g: Grid, h: Grid)
    requires IsSolutionOf(h, g) && ValidBoard(g)
    ensures ValidBoard(h)
  {
    ValidBoardIffNoClash(g);
    forall r1, c1, r2, c2 |
      0 <= r1 < 9 && 0 <= c1 < 9 && 0 <= r2 < 9 && 0 <= c2 < 9 &&
      Peers(r1, c1, r2, c2) && h[r1][c1] != ""
      ensures h[r1][c1] != h[r2][c2]
    {
      if g[r1][c1] == "" {
        ValidPlacementIffNoPeerHolds(h, CellPosition(r1, c1), h[r1][c1]);
      } else if g[r2][c2] == "" {
        ValidPlacementIffNoPeerHolds(h, CellPosition(r2, c2), h[r2][c2]);
        assert Peers(r2, c2, r1, c1);
      }
    }
    assert NoClash(h);
    ValidBoardIffNoClash(h);
  }

  /** A solution has no empty cell and, when `g` holds only digits and blanks, neither does it hold anything else. */
  lemma SolutionIsComplete(h: Grid, g: Grid)
    requires IsSolutionOf(h, g)
    ensures FirstEmpty(h).None?
    ensures WellFormed(g) ==> WellFormed(h)
  {
    forall r, c | 0 <= r < 9 && 0 <= c < 9 ensures h[r][c] != "" {
      if g[r][c] != "" {
        assert h[r][c] == g[r][c];
      }
    }
  }

  /** A board with no empty cell is its own (only) completion. */
  lemma FullBoardIsOwnSolution(g: Grid)
    requires IsGrid(g) && FirstEmpty(g).None?
    ensures IsSolutionOf(g, g)
  {
  }

  /** No completion of `g` exists. */
  ghost predicate Unsolvable(g: Grid)
  {
    forall h :: !IsSolutionOf(h, g)
  }

  /** No completion of `g` puts any of the candidates 1 .. num - 1 at `p`. */
  ghost predicate CandidatesExcluded(g: Grid, p: CellPosition, num: int)
    requires InRange(p) && num <= 10
  {
    forall h, k :: IsSolutionOf(h, g) && 1 <= k < num ==> h[p.row][p.col] != DigitString(k)
  }

  /**
    Candidate `num` at the empty cell `p` leads to no completion when it fails
    the placement check, or when writing it leaves a board with no completion.
   */
  lemma ExcludeCandidate(g: Grid, p: CellPosition, num: int)
    requires IsGrid(g) && InRange(p) && g[p.row][p.col] == "" && 1 <= num <= 9
    requires CandidatesExcluded(g, p, num)
    requires !ValidPlacement(g, p, DigitString(num)) || Unsolvable(Set(g, p, DigitString(num)))
    ensures CandidatesExcluded(g, p, num + 1)
  {
    forall h, k | IsSolutionOf(h, g) && 1 <= k < num + 1
      ensures h[p.row][p.col] != DigitString(k)
    {
      if k == num && h[p.row][p.col] == DigitString(num) {
        SolutionFixesCell(h, g, p);
      }
    }
  }

  /** Once all nine candidates at an empty cell are excluded, there is no completion. */
  lemma AllCandidatesExcluded(g: Grid, p: CellPosition)
    requires IsGrid(g) && InRange(p) && g[p.row][p.col] == ""
    requires CandidatesExcluded(g, p, 10)
    ensures Unsolvable(g)
  {
    forall h | IsSolutionOf(h, g)
      ensures false
    {
      DigitStringOfDigit(h[p.row][p.col]);
    }
  }

  // ----- the order of the search -------------------------------------------

  /**
    The board the search ends with when the flag stays up: at the row-major
    first empty cell, the digits 1..9 are tried in ascending order, and the
    first one that passes the placement check and whose board completes
    decides the result. None when no digit does.
   */
  function FirstCompletion(g: Grid): (r: Option<Grid>)
    requires IsGrid(g)
    decreases EmptyCells(g), 10
    ensures r.Some? ==> IsGrid(r.value)
  {
    match FirstEmpty(g)
    case None => Some(g)
    case Some(p) => CompletionFrom(g, p, 1)
  }

  /** The candidates num..9 at the empty cell `p`, tried in ascending order. */
  function CompletionFrom(g: Grid, p: CellPosition, num: int): (r: Option<Grid>)
    requires IsGrid(g) && InRange(p) && g[p.row][p.col] == "" && 1 <= num <= 10
    decreases EmptyCells(g), 10 - num
    ensures r.Some? ==> IsGrid(r.value)
  {
    if num == 10 then
      None
    else
      var d := DigitString(num);
      if !ValidPlacement(g, p, d) then
        CompletionFrom(g, p, num + 1)
      else
        FillingShrinksEmptyCells(g, p, d);
        match FirstCompletion(Set(g, p, d))
        case Some(h) => Some(h)
        case None => CompletionFrom(g, p, num + 1)
  }

  /** The ordered search is sound: what it finds is a completion of the board. */
  lemma {:induction false} FirstCompletionSound(g: Grid)
    requires IsGrid(g) && FirstCompletion(g).Some?
    ensures IsSolutionOf(FirstCompletion(g).value, g)
    decreases EmptyCells(g), 10
  {
    match FirstEmpty(g)
    case None =>
      FullBoardIsOwnSolution(g);
    case Some(p) =>
      CompletionFromSound(g, p, 1);
  }

  /** The candidates num..9 at `p` only ever yield a completion of the board. */
  lemma {:induction false} CompletionFromSound(g: Grid, p: CellPosition, num: int)
    requires IsGrid(g) && InRange(p) && g[p.row][p.col] == "" && 1 <= num <= 10
    requires CompletionFrom(g, p, num).Some?
    ensures IsSolutionOf(CompletionFrom(g, p, num).value, g)
    decreases EmptyCells(g), 10 - num
  {
    var d := DigitString(num);
    if ValidPlacement(g, p, d) {
      var g' := Set(g, p, d);
      FillingShrinksEmptyCells(g, p, d);
      if FirstCompletion(g').Some? {
        assert CompletionFrom(g, p, num) == FirstCompletion(g');
        FirstCompletionSound(g');
        SolutionExtendsBack(g, p, d, FirstCompletion(g').value);
        return;
      }
    }
    assert CompletionFrom(g, p, num) == CompletionFrom(g, p, num + 1);
    CompletionFromSound(g, p, num + 1);
  }

  /** The ordered search is complete: when it finds nothing, the board has no completion. */
  lemma {:induction false} FirstCompletionComplete(g: Grid)
    requires IsGrid(g) && FirstCompletion(g).None?
    ensures Unsolvable(g)
    decreases EmptyCells(g), 10, 2
  {
    var p := FirstEmpty(g).value;
    CompletionFromComplete(g, p, 1);
  }

  /** When the candidates num..9 at `p` all fail, and no completion uses a smaller one, there is no completion. */
  lemma {:induction false} CompletionFromComplete(g: Grid, p: CellPosition, num: int)
    requires IsGrid(g) && InRange(p) && g[p.row][p.col] == "" && 1 <= num <= 10
    requires CandidatesExcluded(g, p, num) && CompletionFrom(g, p, num).None?
    ensures Unsolvable(g)
    decreases EmptyCells(g), 10 - num, 1
  {
    if num == 10 {
      AllCandidatesExcluded(g, p);
    } else {
      FailedCandidateExcluded(g, p, num);
      CompletionFromComplete(g, p, num + 1);
    }
  }

  /** A candidate the ordered search passes over appears in no completion at `p`. */
  lemma {:induction false} FailedCandidateExcluded(g: Grid, p: CellPosition, num: int)
    requires IsGrid(g) && InRange(p) && g[p.row][p.col] == "" && 1 <= num <= 9
    requires CandidatesExcluded(g, p, num) && CompletionFrom(g, p, num).None?
    ensures CandidatesExcluded(g, p, num + 1) && CompletionFrom(g, p, num + 1).None?
    decreases EmptyCells(g), 10 - num, 0
  {
    var d := DigitString(num);
    if ValidPlacement(g, p, d) {
      FillingShrinksEmptyCells(g, p, d);
      FirstCompletionComplete(Set(g, p, d));
    }
    ExcludeCandidate(g, p, num);
  }

  /** The digit the candidates num..9 settle on is the least one any completion can hold at `p`. */
  lemma {:induction false} CompletionFromLeast(g: Grid, p: CellPosition, num: int)
    requires IsGrid(g) && InRange(p) && g[p.row][p.col] == "" && 1 <= num <= 10
    requires CandidatesExcluded(g, p, num) && CompletionFrom(g, p, num).Some?
    ensures exists n :: num <= n <= 9 && CompletionFrom(g, p, num).value[p.row][p.col] == DigitString(n) &&
                        CandidatesExcluded(g, p, n)
    decreases 10 - num
  {
    var d := DigitString(num);
    if ValidPlacement(g, p, d) && FirstCompletion(Set(g, p, d)).Some? {
      FirstCompletionSound(Set(g, p, d));
      assert Set(g, p, d)[p.row][p.col] == d;
      assert CompletionFrom(g, p, num).value[p.row][p.col] == d;
    } else {
      if ValidPlacement(g, p, d) {
        FirstCompletionComplete(Set(g, p, d));
      }
      ExcludeCandidate(g, p, num);
      CompletionFromLeast(g, p, num + 1);
    }
  }

  /**
    The ordered search picks, at the first empty cell, the least digit that
    any completion of the board holds there.
   */
  lemma FirstCompletionLeastAtFirstEmpty(g: Grid)
    requires IsGrid(g) && FirstEmpty(g).Some? && FirstCompletion(g).Some?
    ensures var p := FirstEmpty(g).value;
            exists n :: 1 <= n <= 9 && FirstCompletion(g).value[p.row][p.col] == DigitString(n) &&
                        CandidatesExcluded(g, p, n)
  {
    CompletionFromLeast(g, FirstEmpty(g).value, 1);
  }

  // ----- the component -----------------------------------------------------

  /** Publishing the board touches no cell of the working array, so its contents stay put. */
  twostate lemma ContentsFramed(a: array2<Cell>)
    requires a.Length0 == 9 && a.Length1 == 9 && unchanged(a)
    ensures Contents(a) == old(Contents(a))
  {
    GridExtensionality(Contents(a), old(Contents(a)));
  }

  /**
    The solver component's state: the grid shown, the solve state, the
    highlighted cell, and the stop flag (`solvingRef.current`) that the search
    reads before each candidate.
   */
  class SudokuSolver {
    var grid: Grid
    var solveState: SolveState
    var currentCell: Option<CellPosition>
    var solving: bool

    ghost predicate Valid()
      reads this
    {
      IsGrid(grid) && (currentCell.Some? ==> InRange(currentCell.value))
    }

    /** Mounting: an empty grid, idle, nothing highlighted, the flag down. */
    constructor ()
      ensures Valid()
      ensures grid == CreateEmptyGrid() && solveState == Idle && currentCell == None && !solving
    {
      grid := CreateEmptyGrid();
      solveState := Idle;
      currentCell := None;
      solving := false;
    }

    /**
      `solve(testGrid)`: find the first empty cell; if there is none, the
      board is solved. Otherwise highlight it and try the digits 1..9 in
      ascending order, checking the stop flag before each one. Returns true
      once no empty cell is left, false when the flag was down or every
      candidate failed.
     */
    method Solve(work: array2<Cell>) returns (found: bool)
      requires Valid() && work.Length0 == 9 && work.Length1 == 9
      modifies this, work
      decreases EmptyCells(Contents(work)), 3
      ensures Valid()
      // a full board: solved at once, nothing written
      ensures FirstEmpty(old(Contents(work))).None? ==>
                found && Contents(work) == old(Contents(work)) && grid == old(grid) &&
                currentCell == old(currentCell)
      // flag down at the first candidate: no placement at all
      ensures !old(solving) && FirstEmpty(old(Contents(work))).Some? ==> !found && grid == old(grid)
      // success: the board is completed, only the empty cells were written, and
      // the completion is the one the ascending search order reaches first
      ensures found ==> IsSolutionOf(Contents(work), old(Contents(work)))
      ensures found ==> FirstCompletion(old(Contents(work))) == Some(Contents(work))
      ensures found ==> solveState == Solved && !solving
      // failure: every placement was undone and the state and flag are as they were
      ensures !found ==> Contents(work) == old(Contents(work)) && solveState == old(solveState) && solving == old(solving)
      // with the flag up, failure means the board has no completion at all
      ensures old(solving) && !found ==> FirstCompletion(old(Contents(work))).None?
      ensures old(solving) && !found ==> Unsolvable(old(Contents(work)))
      // the published grid is the working board, unless nothing was ever written
      ensures grid == Contents(work) || (grid == old(grid) && Contents(work) == old(Contents(work)))
    {
      ghost var g0 := Contents(work);
      var empty := FindEmptyCell(work);
      if empty.None? {
        solveState := Solved;
        solving := false;
        FullBoardIsOwnSolution(g0);
        return true;
      }
      currentCell := Some(empty.value);
      found := TryCandidates(work, empty.value);
      if found {
        FirstCompletionSound(g0);
      } else if old(solving) {
        FirstCompletionComplete(g0);
      }
    }

    /**
      The candidate loop of `solve` at the empty cell `pos`: the digits 1..9
      in ascending order, with the stop flag checked before each one.
     */
    method TryCandidates(work: array2<Cell>, pos: CellPosition) returns (found: bool)
      requires Valid() && work.Length0 == 9 && work.Length1 == 9
      requires InRange(pos) && work[pos.row, pos.col] == ""
      modifies this, work
      decreases EmptyCells(Contents(work)), 2
      ensures Valid()
      ensures !old(solving) ==> !found && grid == old(grid)
      ensures found ==> CompletionFrom(old(Contents(work)), pos, 1) == Some(Contents(work))
      ensures found ==> solveState == Solved && !solving
      ensures !found ==> Contents(work) == old(Contents(work)) && solveState == old(solveState) && solving == old(solving)
      ensures old(solving) && !found ==> CompletionFrom(old(Contents(work)), pos, 1).None?
      ensures grid == Contents(work) || (grid == old(grid) && Contents(work) == old(Contents(work)))
    {
      ghost var g0 := Contents(work);
      assert g0[pos.row][pos.col] == "";
      for num := 1 to 10
        invariant Valid() && Contents(work) == g0
        invariant solving == old(solving) && solveState == old(solveState)
        invariant grid == old(grid) || grid == g0
        invariant !old(solving) ==> num == 1 && grid == old(grid)
        invariant old(solving) ==> CompletionFrom(g0, pos, 1) == CompletionFrom(g0, pos, num)
      {
        if !solving {
          return false;
        }
        found := TryDigit(work, pos, num);
        if found {
          return;
        }
      }
      found := false;
    }

    /**
      One pass of the candidate loop in `solve`: `num` is placed at the empty
      cell `pos` only when it passes the placement check there.
     */
    method TryDigit(work: array2<Cell>, pos: CellPosition, num: int) returns (found: bool)
      requires Valid() && work.Length0 == 9 && work.Length1 == 9
      requires InRange(pos) && work[pos.row, pos.col] == "" && 1 <= num <= 9
      modifies this, work
      decreases EmptyCells(Contents(work)), 1
      ensures Valid()
      // success: `num` passed the check, stays at `pos`, and the rest is the ordered search's completion
      ensures found ==> ValidPlacement(old(Contents(work)), pos, DigitString(num)) &&
                        FirstCompletion(Set(old(Contents(work)), pos, DigitString(num))) == Some(Contents(work))
      ensures found ==> Contents(work)[pos.row][pos.col] == DigitString(num)
      ensures found ==> solveState == Solved && !solving
      ensures !found ==> Contents(work) == old(Contents(work)) && solveState == old(solveState) && solving == old(solving)
      // a candidate that fails the check is never written
      ensures !ValidPlacement(old(Contents(work)), pos, DigitString(num)) ==> !found && grid == old(grid)
      // with the flag up, a failed candidate is invalid there or leads to no completion
      ensures old(solving) && !found ==>
                !ValidPlacement(old(Contents(work)), pos, DigitString(num)) ||
                FirstCompletion(Set(old(Contents(work)), pos, DigitString(num))).None?
      ensures grid == Contents(work) || (grid == old(grid) && Contents(work) == old(Contents(work)))
    {
      var numStr := DigitString(num);
      var valid := IsValidCell(work, pos, numStr);
      if !valid {
        return false;
      }
      found := Place(work, pos, numStr);
    }

    /**
      The body of a passing candidate: write `d` into the empty cell `pos`,
      publish the board, search on, and when that fails clear the cell and
      publish the board again.
     */
    method Place(work: array2<Cell>, pos: CellPosition, d: Cell) returns (found: bool)
      requires Valid() && work.Length0 == 9 && work.Length1 == 9
      requires InRange(pos) && work[pos.row, pos.col] == "" && d != ""
      modifies this, work
      decreases EmptyCells(Contents(work)), 0
      ensures Valid()
      ensures found ==> FirstCompletion(Set(old(Contents(work)), pos, d)) == Some(Contents(work))
      ensures found ==> Contents(work)[pos.row][pos.col] == d
      ensures found ==> solveState == Solved && !solving
      ensures !found ==> Contents(work) == old(Contents(work)) && solveState == old(solveState) && solving == old(solving)
      ensures old(solving) && !found ==> FirstCompletion(Set(old(Contents(work)), pos, d)).None?
      // the board is published after the write and again after the undo
      ensures grid == Contents(work)
    {
      ghost var g0 := Contents(work);
      ghost var g1 := Set(g0, pos, d);
      work[pos.row, pos.col] := d;
      assert Contents(work) == g1 by {
        GridExtensionality(Contents(work), g1);
      }
      label Written:
      grid := Contents(work);
      ContentsFramed@Written(work);
      assert EmptyCells(Contents(work)) < EmptyCells(g0) by {
        FillingShrinksEmptyCells(g0, pos, d);
      }
      found := Solve(work);
      if found {
        return;
      }
      work[pos.row, pos.col] := "";
      assert Contents(work) == g0 by {
        GridExtensionality(Contents(work), g0);
      }
      label Cleared:
      grid := Contents(work);
      ContentsFramed@Cleared(work);
    }

    /**
      `handleSolve`: set the state to solving, raise the flag, and search a
      deep copy of the grid. The failure branch compares the state value the
      handler captured when it was rendered, not the one just set.
     */
    method HandleSolve() returns (success: bool)
      requires Valid()
      modifies this
      ensures Valid() && solving == !success
      ensures success ==> IsSolutionOf(grid, old(grid)) && solveState == Solved
      // with the flag raised, the outcome is exactly that of the ordered search
      ensures success <==> FirstCompletion(old(grid)).Some?
      ensures success ==> grid == FirstCompletion(old(grid)).value
      ensures success && ValidBoard(old(grid)) ==> ValidBoard(grid)
      ensures !success ==> grid == old(grid) && Unsolvable(old(grid))
      ensures !success ==> solveState == (if old(solveState) == Solving then Idle else Solving)
      ensures !success && old(solveState) == Solving ==> currentCell == None
    {
      var renderedState := solveState;
      solveState := Solving;
      solving := true;
      var g := grid;
      var gridCopy := new Cell[9, 9]((r, c) requires 0 <= r < 9 && 0 <= c < 9 => g[r][c]);
      GridExtensionality(Contents(gridCopy), g);
      success := Solve(gridCopy);
      assert grid == Contents(gridCopy);
      if success {
        assert FirstCompletion(g) == Some(grid);
        if ValidBoard(g) {
          SolutionPreservesValidBoard(g, grid);
        }
      }
      if !success && renderedState == Solving {
        solveState := Idle;
        currentCell := None;
      }
    }

    /** `handlePause`: only the state changes; the flag stays as it is. */
    method HandlePause()
      requires Valid()
      modifies this
      ensures Valid()
      ensures solveState == Paused
      ensures grid == old(grid) && solving == old(solving) && currentCell == old(currentCell)
    {
      solveState := Paused;
    }

    /**
      `handleResume`: set the state to solving and start a fresh search on the
      grid as it now stands; the flag is not raised again.
     */
    method HandleResume()
      requires Valid()
      modifies this
      ensures Valid()
      ensures solveState == Solved || solveState == Solving
      ensures solveState == Solved ==> IsSolutionOf(grid, old(grid)) && !solving
      ensures solveState == Solved ==> FirstCompletion(old(grid)) == Some(grid)
      ensures old(solving) ==> (solveState == Solved <==> FirstCompletion(old(grid)).Some?)
      ensures solveState == Solving ==> grid == old(grid) && solving == old(solving)
      ensures old(solving) && solveState == Solving ==> Unsolvable(old(grid))
      ensures !old(solving) && FirstEmpty(old(grid)).Some? ==> solveState == Solving
    {
      solveState := Solving;
      var g := grid;
      var work := new Cell[9, 9]((r, c) requires 0 <= r < 9 && 0 <= c < 9 => g[r][c]);
      GridExtensionality(Contents(work), g);
      var found := Solve(work);
    }

    /** `handleReset`: an empty grid, idle, nothing highlighted; the flag is left alone. */
    method HandleReset()
      requires Valid()
      modifies this
      ensures Valid()
      ensures grid == CreateEmptyGrid() && solveState == Idle && currentCell == None
      ensures solving == old(solving)
    {
      grid := CreateEmptyGrid();
      solveState := Idle;
      currentCell := None;
    }

    /**
      An edit typed into the board: the editor is enabled only while idle,
      and its `onGridChange` listener is `setGrid`, so an accepted edit
      becomes the solver's grid.
     */
    method HandleGridEdit(row: int, col: int, value: string)
      requires Valid() && 0 <= row < 9 && 0 <= col < 9
      modifies this
      ensures Valid()
      ensures grid == (if old(solveState) == Idle then HandleCellChange(old(grid), row, col, value).grid else old(grid))
      ensures solveState == old(solveState) && currentCell == old(currentCell) && solving == old(solving)
    {
      if solveState == Idle {
        var out := HandleCellChange(grid, row, col, value);
        if out.notified.Some? {
          grid := out.notified.value;
        }
      }
    }
  }
}
