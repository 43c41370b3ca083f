/** The playing board: the puzzle grid, its solution, per-cell flags (fixed clue, hint,
    correctly solved) and per-cell pencil notes, with the operations the game applies to
    them, and the generation of a new puzzle (randomized fill, then greedy removal of clues
    while the puzzle keeps exactly one completion).  Random choices are inputs: a stream of
    digit shuffles for the fill and an order of the 81 cells for the removal. */
module Board {
  import opened Grids
  import opened Rules
  import opened Search
  import opened Solver

  /** The clue target `GenerateNewPuzzle` uses when none is given. */
  const DefaultClues := 30

  /** A pencil-note set with `v` added when absent and removed when present. */
  function Toggled(s: set<int>, v: int): (t: set<int>)
    ensures v in t <==> v !in s
    ensures t - {v} == s - {v}
  {
    if v in s then s - {v} else s + {v}
  }

  /** Toggling the same note twice gives back the original set. */
  lemma ToggledTwice(s: set<int>, v: int)
    ensures Toggled(Toggled(s, v), v) == s
  {
    var t := Toggled(Toggled(s, v), v);
    assert v in t <==> v in s;
    assert t - {v} == s - {v};
    assert t == (t - {v}) + (if v in t then {v} else {});
  }

  /** Fills the grid in place by backtracking: at the first empty cell one shuffle of the
      digits is drawn from the stream (the t-th draw is `shuffles(t)`), its safe digits are
      tried in order with a recursive fill after each, and the cell is emptied again when
      none succeeds.  Returns whether the fill succeeded and the number of draws so far. */
  method FillGrid(grid: array2<int>, shuffles: nat -> seq<int>, t: nat) returns (filled: bool, draws: nat)
    requires IsGridArray(grid)
    modifies grid
    ensures Backtrack(old(Snapshot(grid)), shuffles, t) == Outcome(filled, Snapshot(grid), draws)
    ensures !filled ==> Snapshot(grid) == old(Snapshot(grid))
    decreases Zeros(Snapshot(grid)), 1
  {
    ghost var g := Snapshot(grid);
    var found, row, col := FindEmptyCell(grid);
    if !found {
      return true, t;
    }
    BacktrackAtFirstEmpty(g, row, col, shuffles, t);
    var nums := shuffles(t);
    draws := t + 1;
    for j := 0 to |nums|
      invariant Snapshot(grid) == g
      invariant TryEach(g, row, col, nums, j, shuffles, draws) == Backtrack(g, shuffles, t)
    {
      var safe := IsSafe(grid, row, col, nums[j]);
      if safe {
        filled, draws := PlaceAndFill(grid, row, col, nums[j], shuffles, draws);
        if filled {
          return;
        }
      }
    }
    return false, draws;
  }

  /** One step of `FillGrid`: writes `num` into the empty cell, fills the rest, and empties
      the cell again when that fails. */
  method PlaceAndFill(grid: array2<int>, row: int, col: int, num: int, shuffles: nat -> seq<int>, t: nat)
    returns (filled: bool, draws: nat)
    requires IsGridArray(grid) && InRange(row, col) && grid[row, col] == 0
    requires Safe(Snapshot(grid), row, col, num)
    modifies grid
    ensures filled == Backtrack(Place(old(Snapshot(grid)), row, col, num), shuffles, t).ok
    ensures draws == Backtrack(Place(old(Snapshot(grid)), row, col, num), shuffles, t).draws
    ensures filled ==> Snapshot(grid) == Backtrack(Place(old(Snapshot(grid)), row, col, num), shuffles, t).grid
    ensures !filled ==> Snapshot(grid) == old(Snapshot(grid))
    decreases Zeros(Snapshot(grid)), 0
  {
    ghost var g := Snapshot(grid);
    WriteCell(grid, row, col, num);
    ZerosAfterWrite(g, 9 * row + col, num);
    filled, draws := FillGrid(grid, shuffles, t);
    if !filled {
      WriteCell(grid, row, col, 0);
      assert Place(Place(g, row, col, num), row, col, 0) == g;
    }
  }

  /** Greedy clue removal: the cells are tried in the given order; a filled cell is emptied
      and kept empty only when the puzzle then has exactly one completion, and the loop
      stops as soon as `81 - removed <= clues`.  The result only empties cells, has exactly
      one completion unless nothing was removed, and loses at most `81 - clues` clues (one
      when `clues` is 81 or more). */
  method RemoveNumbers(grid: array2<int>, clues: int, order: seq<int>)
    requires IsGridArray(grid)
    requires forall i :: 0 <= i < |order| ==> 0 <= order[i] < 81
    modifies grid
    ensures IsPuzzleOf(Snapshot(grid), old(Snapshot(grid)))
    ensures Snapshot(grid) == old(Snapshot(grid)) || |Solutions(Snapshot(grid))| == 1
    ensures ClueCount(Snapshot(grid)) >= ClueCount(old(Snapshot(grid))) - (if clues < 81 then 81 - clues else 1)
  {
    ghost var g0 := Snapshot(grid);
    var removed := 0;
    for i := 0 to |order|
      invariant IsPuzzleOf(Snapshot(grid), g0)
      invariant Snapshot(grid) == g0 || |Solutions(Snapshot(grid))| == 1
      invariant ClueCount(Snapshot(grid)) + removed == ClueCount(g0)
      invariant 0 <= removed && (removed == 0 || 81 - removed > clues)
    {
      var row, col := order[i] / 9, order[i] % 9;
      if grid[row, col] == 0 {
        continue;
      }
      var kept := TryRemove(grid, row, col);
      if kept {
        removed := removed + 1;
        if 81 - removed <= clues {
          break;
        }
      }
    }
  }

  /** One step of `RemoveNumbers` at a filled cell: empties it, counts the completions on
      a copy, and puts the digit back unless there is exactly one. */
  method TryRemove(grid: array2<int>, row: int, col: int) returns (kept: bool)
    requires IsGridArray(grid) && InRange(row, col) && grid[row, col] != 0
    modifies grid
    ensures kept ==> Snapshot(grid) == Place(old(Snapshot(grid)), row, col, 0)
    ensures kept ==> |Solutions(Snapshot(grid))| == 1
    ensures kept ==> ClueCount(Snapshot(grid)) + 1 == ClueCount(old(Snapshot(grid)))
    ensures !kept ==> Snapshot(grid) == old(Snapshot(grid))
  {
    ghost var cur := Snapshot(grid);
    var backup := grid[row, col];
    WriteCell(grid, row, col, 0);
    ZerosAfterWrite(cur, 9 * row + col, 0);
    var copy := CloneGrid(grid);
    var count := CountSolutions(copy);
    if count != 1 {
      WriteCell(grid, row, col, backup);
      assert Place(Place(cur, row, col, 0), row, col, backup) == cur;
      return false;
    }
    return true;
  }

  /** The board.  `Notes[r, c]` is the set of pencil marks of a cell. */
  class SudokuBoard {
    var Grid: array2<int>
    var Solution: array2<int>
    var FixedCells: array2<bool>
    var Notes: array2<set<int>>
    var HintCells: array2<bool>
    var CorrectlySolvedCells: array2<bool>

    /** Six 9x9 arrays, none shared by two fields. */
    ghost predicate Valid()
      reads this
    {
      && IsGridArray(Grid) && IsGridArray(Solution) && IsGridArray(FixedCells)
      && IsGridArray(Notes) && IsGridArray(HintCells) && IsGridArray(CorrectlySolvedCells)
      && Grid != Solution
      && FixedCells != HintCells && FixedCells != CorrectlySolvedCells && HintCells != CorrectlySolvedCells
    }

    /** The arrays the board consists of. */
    ghost function Repr(): set<object>
      reads this
    {
      {Grid as object, Solution as object, FixedCells as object, Notes as object, HintCells as object, CorrectlySolvedCells as object}
    }

    /** No array of `other` is an array of this board. */
    ghost predicate Separate(other: SudokuBoard)
      reads this, other
    {
      && other.Grid != Grid && other.Grid != Solution && other.Solution != Grid && other.Solution != Solution
      && other.Notes != Notes
      && other.FixedCells != FixedCells && other.FixedCells != HintCells && other.FixedCells != CorrectlySolvedCells
      && other.HintCells != FixedCells && other.HintCells != HintCells && other.HintCells != CorrectlySolvedCells
      && other.CorrectlySolvedCells != FixedCells && other.CorrectlySolvedCells != HintCells
      && other.CorrectlySolvedCells != CorrectlySolvedCells
    }

    /** The bookkeeping agrees with the solution: the solution holds digits, a cell marked
        correctly solved holds its solution digit, a fixed cell is marked correctly solved
        and a hint cell is fixed. */
    ghost predicate Consistent()
      requires Valid()
      reads this, Grid, Solution, FixedCells, HintCells, CorrectlySolvedCells
    {
      forall r, c :: InRange(r, c) ==>
        && 1 <= Solution[r, c] <= 9
        && (CorrectlySolvedCells[r, c] ==> Grid[r, c] == Solution[r, c])
        && (FixedCells[r, c] ==> CorrectlySolvedCells[r, c])
        && (HintCells[r, c] ==> FixedCells[r, c])
    }

    /** `new SudokuBoard(skipGeneration)`: empty arrays and empty note sets, then, unless
        generation is skipped, a new puzzle with the default clue target. */
    constructor (skipGeneration: bool, shuffles: nat -> seq<int>, order: seq<int>)
      requires !skipGeneration ==> IsShuffleStream(shuffles)
      requires forall i :: 0 <= i < |order| ==> 0 <= order[i] < 81
      ensures Valid() && fresh(Repr())
      ensures skipGeneration ==> forall r, c :: InRange(r, c) ==>
        && Grid[r, c] == 0 && Solution[r, c] == 0 && Notes[r, c] == {}
        && !FixedCells[r, c] && !HintCells[r, c] && !CorrectlySolvedCells[r, c]
      ensures !skipGeneration ==> IsGeneratedPuzzle(DefaultClues)
    {
      Grid := new int[9, 9]((_, _) => 0);
      Solution := new int[9, 9]((_, _) => 0);
      FixedCells := new bool[9, 9]((_, _) => false);
      Notes := new set<int>[9, 9]((_, _) => {});
      HintCells := new bool[9, 9]((_, _) => false);
      CorrectlySolvedCells := new bool[9, 9]((_, _) => false);
      new;
      InitializeNotes();
      if !skipGeneration {
        GenerateNewPuzzle(DefaultClues, shuffles, order);
      }
    }

    /** What a newly generated board satisfies: the solution is a full valid Sudoku, the
        grid is a puzzle of it whose only completion is the solution, exactly the clues are
        fixed and correctly solved, and there are no hints and no notes. */
    ghost predicate IsFreshPuzzle()
      reads this, Grid, Solution, FixedCells, Notes, HintCells, CorrectlySolvedCells
    {
      && Valid()
      && IsSolvedGrid(Snapshot(Solution))
      && IsPuzzleOf(Snapshot(Grid), Snapshot(Solution))
      && Solutions(Snapshot(Grid)) == {Snapshot(Solution)}
      && (forall r, c :: InRange(r, c) ==>
            && FixedCells[r, c] == (Grid[r, c] != 0)
            && CorrectlySolvedCells[r, c] == (Grid[r, c] != 0)
            && !HintCells[r, c] && Notes[r, c] == {})
    }

    /** A fresh puzzle that also keeps at least `clues` clues (80 when `clues` is 81 or more). */
    ghost predicate IsGeneratedPuzzle(clues: int)
      reads this, Grid, Solution, FixedCells, Notes, HintCells, CorrectlySolvedCells
    {
      IsFreshPuzzle() && ClueCount(Snapshot(Grid)) >= (if clues < 81 then clues else 80)
    }

    /** The cell is on the board and neither a fixed clue nor already correctly solved. */
    function CanEditCell(row: int, col: int): (editable: bool)
      requires Valid()
      reads this, FixedCells, CorrectlySolvedCells
      ensures editable <==> InRange(row, col) && !FixedCells[row, col] && !CorrectlySolvedCells[row, col]
    {
      if !InRange(row, col) then false
      else !FixedCells[row, col] && !CorrectlySolvedCells[row, col]
    }

    /** The cell is on the board and `value` is its solution digit. */
    function IsCorrectMove(row: int, col: int, value: int): (correct: bool)
      requires Valid()
      reads this, Solution
      ensures correct <==> InRange(row, col) && Solution[row, col] == value
    {
      if !InRange(row, col) then false
      else Solution[row, col] == value
    }

    /** On a consistent board, a cell the player may not edit already holds its solution
        digit: locking never freezes a wrong value. */
    lemma LockedCellIsSolved(row: int, col: int)
      requires Valid() && Consistent() && InRange(row, col) && !CanEditCell(row, col)
      ensures Grid[row, col] == Solution[row, col] && 1 <= Grid[row, col] <= 9
    {
    }

    /** On a fresh puzzle, a move is correct exactly when it agrees with the puzzle's
        completions, of which there is one. */
    lemma CorrectMoveAgreesWithCompletion(row: int, col: int, value: int)
      requires IsFreshPuzzle() && InRange(row, col)
      ensures IsCorrectMove(row, col, value) <==>
        forall h :: h in Solutions(Snapshot(Grid)) ==> Cell(h, row, col) == value
    {
      var s := Snapshot(Solution);
      assert s in Solutions(Snapshot(Grid));
      assert Cell(s, row, col) == Solution[row, col];
    }

    /** A digit 1..9 that occurs in no other cell of the row, the column or the box;
        the target cell itself is not looked at.  Reads the board only. */
    method IsValidMove(row: int, col: int, value: int) returns (valid: bool)
      requires Valid() && (1 <= value <= 9 ==> InRange(row, col))
      ensures valid <==> 1 <= value <= 9 && PeersFree(Snapshot(Grid), row, col, value)
    {
      if value < 1 || value > 9 {
        return false;
      }
      ghost var g := Snapshot(Grid);
      for i := 0 to 9
        invariant forall j :: 0 <= j < i ==>
          (j != col ==> Cell(g, row, j) != value) && (j != row ==> Cell(g, j, col) != value)
      {
        if i != col && Grid[row, i] == value {
          return false;
        }
        if i != row && Grid[i, col] == value {
          return false;
        }
      }
      var startRow := (row / 3) * 3;
      var startCol := (col / 3) * 3;
      for r := 0 to 3
        invariant forall i, j :: startRow <= i < startRow + r && startCol <= j < startCol + 3 && (i != row || j != col) ==>
          Cell(g, i, j) != value
      {
        for c := 0 to 3
          invariant forall i, j :: startRow <= i < startRow + r && startCol <= j < startCol + 3 && (i != row || j != col) ==>
            Cell(g, i, j) != value
          invariant forall i, j :: i == startRow + r && startCol <= j < startCol + c && (i != row || j != col) ==>
            Cell(g, i, j) != value
        {
          var checkRow := startRow + r;
          var checkCol := startCol + c;
          if (checkRow != row || checkCol != col) && Grid[checkRow, checkCol] == value {
            return false;
          }
        }
      }
      return true;
    }

    /** No cell of the grid is empty. */
    method IsComplete() returns (complete: bool)
      requires Valid()
      ensures complete <==> forall r, c :: InRange(r, c) ==> Grid[r, c] != 0
      ensures complete <==> ClueCount(Snapshot(Grid)) == 81
    {
      ghost var g := Snapshot(Grid);
      for r := 0 to 9
        invariant forall i, j :: InRange(i, j) && i < r ==> Cell(g, i, j) != 0
      {
        for c := 0 to 9
          invariant forall i, j :: InRange(i, j) && (i < r || (i == r && j < c)) ==> Cell(g, i, j) != 0
        {
          if Grid[r, c] == 0 {
            NoZeroWhenNoneCounted(g);
            assert g[9 * r + c] == 0;
            return false;
          }
        }
      }
      NoFirstZero(g);
      return true;
    }

    /** When every cell is marked correctly solved, the grid is the solution. */
    lemma AllCorrectIsSolution()
      requires Valid() && Consistent()
      requires forall r, c :: InRange(r, c) ==> CorrectlySolvedCells[r, c]
      ensures Snapshot(Grid) == Snapshot(Solution)
    {
      SameCells(Snapshot(Grid), Snapshot(Solution));
    }

    /** Sets a cell the player may edit.  0 erases it: its notes and its correct mark are
        cleared.  Any other value is written, the cell's notes are cleared, the cell is marked
        correctly solved iff the value is its solution digit, and a digit 1..9 is struck from
        the notes of every other cell of its row, column and box.  A cell that may not be
        edited is left alone. */
    method SetCell(row: int, col: int, value: int)
      requires Valid()
      modifies Grid, CorrectlySolvedCells, Notes
      ensures !old(CanEditCell(row, col)) ==> unchanged(Grid, CorrectlySolvedCells, Notes)
      ensures old(CanEditCell(row, col)) ==>
        && Snapshot(Grid) == Place(old(Snapshot(Grid)), row, col, value)
        && CorrectlySolvedCells[row, col] == (value != 0 && IsCorrectMove(row, col, value))
        && Notes[row, col] == {}
      ensures forall r, c :: InRange(r, c) && (r != row || c != col) ==>
        && CorrectlySolvedCells[r, c] == old(CorrectlySolvedCells[r, c])
        && Notes[r, c] == if old(CanEditCell(row, col)) && 1 <= value <= 9 && SameUnit(row, col, r, c)
                          then old(Notes[r, c]) - {value} else old(Notes[r, c])
      ensures old(Consistent()) ==> Consistent()
    {
      if !CanEditCell(row, col) {
        return;
      }
      if value == 0 {
        WriteCell(Grid, row, col, value);
        CorrectlySolvedCells[row, col] := false;
        Notes[row, col] := {};
        return;
      }
      WriteCell(Grid, row, col, value);
      Notes[row, col] := {};
      if IsCorrectMove(row, col, value) {
        CorrectlySolvedCells[row, col] := true;
      } else {
        CorrectlySolvedCells[row, col] := false;
      }
      if 1 <= value <= 9 {
        StrikeFromPeerNotes(row, col, value);
      }
    }

    /** Removes `value` from the notes of every other cell sharing a row, a column or a box
        with (row, col). */
    method StrikeFromPeerNotes(row: int, col: int, value: int)
      requires Valid() && InRange(row, col)
      modifies Notes
      ensures forall r, c :: InRange(r, c) ==>
        Notes[r, c] == if Peers(row, col, r, c) then old(Notes[r, c]) - {value} else old(Notes[r, c])
    {
      for i := 0 to 9
        invariant forall r, c :: InRange(r, c) ==>
          Notes[r, c] == if (r != row || c != col) && ((r == row && c < i) || (c == col && r < i))
                         then old(Notes[r, c]) - {value} else old(Notes[r, c])
      {
        if i != col {
          Notes[row, i] := Notes[row, i] - {value};
        }
        if i != row {
          Notes[i, col] := Notes[i, col] - {value};
        }
      }
      var startRow := (row / 3) * 3;
      var startCol := (col / 3) * 3;
      for r := 0 to 3
        invariant forall i, j :: InRange(i, j) ==>
          Notes[i, j] == if (i != row || j != col) &&
                            (i == row || j == col || (startRow <= i < startRow + r && startCol <= j < startCol + 3))
                         then old(Notes[i, j]) - {value} else old(Notes[i, j])
      {
        for c := 0 to 3
          invariant forall i, j :: InRange(i, j) ==>
            Notes[i, j] == if (i != row || j != col) &&
                              (i == row || j == col || (startRow <= i < startRow + r && startCol <= j < startCol + 3) ||
                               (i == startRow + r && startCol <= j < startCol + c))
                           then old(Notes[i, j]) - {value} else old(Notes[i, j])
        {
          var checkRow := startRow + r;
          var checkCol := startCol + c;
          if checkRow != row || checkCol != col {
            Notes[checkRow, checkCol] := Notes[checkRow, checkCol] - {value};
          }
        }
      }
    }

    /** A hint on a cell that is not fixed writes `value` and makes the cell fixed, a hint
        and correctly solved, clearing its notes; a fixed cell is left alone. */
    method AddHint(row: int, col: int, value: int)
      requires Valid() && InRange(row, col)
      modifies Grid, FixedCells, HintCells, CorrectlySolvedCells, Notes
      ensures old(FixedCells[row, col]) ==> unchanged(Grid, FixedCells, HintCells, CorrectlySolvedCells, Notes)
      ensures !old(FixedCells[row, col]) ==>
        && Snapshot(Grid) == Place(old(Snapshot(Grid)), row, col, value)
        && FixedCells[row, col] && HintCells[row, col] && CorrectlySolvedCells[row, col] && Notes[row, col] == {}
      ensures forall r, c :: InRange(r, c) && (r != row || c != col) ==>
        && FixedCells[r, c] == old(FixedCells[r, c]) && HintCells[r, c] == old(HintCells[r, c])
        && CorrectlySolvedCells[r, c] == old(CorrectlySolvedCells[r, c]) && Notes[r, c] == old(Notes[r, c])
      ensures old(Consistent()) && value == Solution[row, col] ==> Consistent()
    {
      if !FixedCells[row, col] {
        WriteCell(Grid, row, col, value);
        FixedCells[row, col] := true;
        HintCells[row, col] := true;
        CorrectlySolvedCells[row, col] := true;
        Notes[row, col] := {};
      }
    }

    /** Adds a pencil note 1..9 to a cell the player may edit; otherwise nothing changes. */
    method AddNote(row: int, col: int, value: int)
      requires Valid()
      modifies Notes
      ensures forall r, c :: InRange(r, c) ==>
        Notes[r, c] == if r == row && c == col && CanEditCell(row, col) && 1 <= value <= 9
                       then old(Notes[r, c]) + {value} else old(Notes[r, c])
    {
      if CanEditCell(row, col) && 1 <= value <= 9 && InRange(row, col) {
        Notes[row, col] := Notes[row, col] + {value};
      }
    }

    /** Removes a pencil note 1..9 from a cell the player may edit; otherwise nothing changes. */
    method RemoveNote(row: int, col: int, value: int)
      requires Valid()
      modifies Notes
      ensures forall r, c :: InRange(r, c) ==>
        Notes[r, c] == if r == row && c == col && CanEditCell(row, col) && 1 <= value <= 9
                       then old(Notes[r, c]) - {value} else old(Notes[r, c])
    {
      if CanEditCell(row, col) && 1 <= value <= 9 && InRange(row, col) {
        Notes[row, col] := Notes[row, col] - {value};
      }
    }

    /** Toggles a pencil note 1..9 of a cell the player may edit; otherwise nothing changes. */
    method ToggleNote(row: int, col: int, value: int)
      requires Valid()
      modifies Notes
      ensures forall r, c :: InRange(r, c) ==>
        Notes[r, c] == if r == row && c == col && CanEditCell(row, col) && 1 <= value <= 9
                       then Toggled(old(Notes[r, c]), value) else old(Notes[r, c])
    {
      if CanEditCell(row, col) && 1 <= value <= 9 && InRange(row, col) {
        if value in Notes[row, col] {
          Notes[row, col] := Notes[row, col] - {value};
        } else {
          Notes[row, col] := Notes[row, col] + {value};
        }
      }
    }

    /** Empties the notes of a cell the player may edit; otherwise nothing changes. */
    method ClearNotes(row: int, col: int)
      requires Valid()
      modifies Notes
      ensures forall r, c :: InRange(r, c) ==>
        Notes[r, c] == if r == row && c == col && CanEditCell(row, col) then {} else old(Notes[r, c])
    {
      if CanEditCell(row, col) && InRange(row, col) {
        Notes[row, col] := {};
      }
    }

    /** Copies every array and every note set of this board into `other`. */
    method CopyTo(other: SudokuBoard)
      requires Valid() && other.Valid() && Separate(other)
      modifies other.Grid, other.Solution, other.FixedCells, other.Notes, other.HintCells, other.CorrectlySolvedCells
      ensures Snapshot(other.Grid) == Snapshot(Grid) && Snapshot(other.Solution) == Snapshot(Solution)
      ensures forall r, c :: InRange(r, c) ==> other.FixedCells[r, c] == FixedCells[r, c]
      ensures forall r, c :: InRange(r, c) ==> other.Notes[r, c] == Notes[r, c]
      ensures forall r, c :: InRange(r, c) ==> other.HintCells[r, c] == HintCells[r, c]
      ensures forall r, c :: InRange(r, c) ==> other.CorrectlySolvedCells[r, c] == CorrectlySolvedCells[r, c]
    {
      other.InitializeNotes();
      CopyCells(Grid, other.Grid);
      SameCells(Snapshot(other.Grid), Snapshot(Grid));
      CopyCells(Solution, other.Solution);
      SameCells(Snapshot(other.Solution), Snapshot(Solution));
      CopyCells(FixedCells, other.FixedCells);
      CopyCells(Notes, other.Notes);
      CopyCells(HintCells, other.HintCells);
      CopyCells(CorrectlySolvedCells, other.CorrectlySolvedCells);
    }

    /** Every cell gets a new, empty note set. */
    method InitializeNotes()
      requires Valid()
      modifies Notes
      ensures forall r, c :: InRange(r, c) ==> Notes[r, c] == {}
    {
      for r := 0 to 9
        invariant forall i, j :: InRange(i, j) && i < r ==> Notes[i, j] == {}
      {
        for c := 0 to 9
          invariant forall i, j :: InRange(i, j) && (i < r || (i == r && j < c)) ==> Notes[i, j] == {}
        {
          Notes[r, c] := {};
        }
      }
    }

    /** Fills a fresh grid, keeps a copy of it as the solution, removes clues from another
        copy, and loads that puzzle into the board with its clues fixed and correctly solved,
        no hints and no notes. */
    method GenerateNewPuzzle(clues: int, shuffles: nat -> seq<int>, order: seq<int>)
      requires Valid() && IsShuffleStream(shuffles)
      requires forall i :: 0 <= i < |order| ==> 0 <= order[i] < 81
      modifies this, Grid, FixedCells, Notes, HintCells, CorrectlySolvedCells
      ensures IsGeneratedPuzzle(clues) && Consistent()
      ensures fresh(Solution) && Snapshot(Solution) == Backtrack(EmptyGrid(), shuffles, 0).grid
      ensures Grid == old(Grid) && FixedCells == old(FixedCells) && Notes == old(Notes)
      ensures HintCells == old(HintCells) && CorrectlySolvedCells == old(CorrectlySolvedCells)
    {
      var solution, puzzle := MakePuzzle(clues, shuffles, order);
      Solution := solution;
      InitializeNotes();
      LoadPuzzle(puzzle);
      FreshPuzzleIsConsistent();
    }

    /** A freshly generated board's bookkeeping is consistent with its solution. */
    lemma FreshPuzzleIsConsistent()
      requires IsFreshPuzzle()
      ensures Consistent()
    {
      forall r, c | InRange(r, c)
        ensures 1 <= Solution[r, c] <= 9
        ensures CorrectlySolvedCells[r, c] ==> Grid[r, c] == Solution[r, c]
      {
        assert Cell(Snapshot(Solution), r, c) == Solution[r, c];
        assert Cell(Snapshot(Grid), r, c) == Grid[r, c];
      }
    }

    /** The population loop of `GenerateNewPuzzle`: copies the puzzle into the grid, marks
        exactly its clues fixed and correctly solved, clears hints and notes. */
    method LoadPuzzle(puzzle: array2<int>)
      requires Valid() && IsGridArray(puzzle) && puzzle != Grid
      modifies Grid, FixedCells, Notes, HintCells, CorrectlySolvedCells
      ensures Snapshot(Grid) == old(Snapshot(puzzle))
      ensures forall r, c :: InRange(r, c) ==>
        && FixedCells[r, c] == (Grid[r, c] != 0)
        && CorrectlySolvedCells[r, c] == (Grid[r, c] != 0)
        && !HintCells[r, c] && Notes[r, c] == {}
    {
      for r := 0 to 9
        invariant forall i, j :: InRange(i, j) && i < r ==>
          && Grid[i, j] == puzzle[i, j] && FixedCells[i, j] == (puzzle[i, j] != 0)
          && CorrectlySolvedCells[i, j] == (puzzle[i, j] != 0) && !HintCells[i, j] && Notes[i, j] == {}
      {
        for c := 0 to 9
          invariant forall i, j :: InRange(i, j) && (i < r || (i == r && j < c)) ==>
            && Grid[i, j] == puzzle[i, j] && FixedCells[i, j] == (puzzle[i, j] != 0)
            && CorrectlySolvedCells[i, j] == (puzzle[i, j] != 0) && !HintCells[i, j] && Notes[i, j] == {}
        {
          Grid[r, c] := puzzle[r, c];
          FixedCells[r, c] := puzzle[r, c] != 0;
          HintCells[r, c] := false;
          CorrectlySolvedCells[r, c] := puzzle[r, c] != 0;
          Notes[r, c] := {};
        }
      }
      SameCells(Snapshot(Grid), Snapshot(puzzle));
    }
  }

  /** The first half of `GenerateNewPuzzle`: a filled grid kept as the solution and a
      copy of it with clues removed. */
  method MakePuzzle(clues: int, shuffles: nat -> seq<int>, order: seq<int>)
    returns (solution: array2<int>, puzzle: array2<int>)
    requires IsShuffleStream(shuffles)
    requires forall i :: 0 <= i < |order| ==> 0 <= order[i] < 81
    ensures fresh(solution) && fresh(puzzle) && solution != puzzle
    ensures IsGridArray(solution) && IsGridArray(puzzle)
    ensures Snapshot(solution) == Backtrack(EmptyGrid(), shuffles, 0).grid
    ensures IsSolvedGrid(Snapshot(solution))
    ensures IsPuzzleOf(Snapshot(puzzle), Snapshot(solution))
    ensures Solutions(Snapshot(puzzle)) == {Snapshot(solution)}
    ensures ClueCount(Snapshot(puzzle)) >= (if clues < 81 then clues else 80)
  {
    var full := new int[9, 9]((_, _) => 0);
    SameCells(Snapshot(full), EmptyGrid());
    var filled, draws := FillGrid(full, shuffles, 0);
    FillOfEmptySucceeds(shuffles, 0);
    ghost var s := Snapshot(full);
    solution := CloneGrid(full);
    puzzle := CloneGrid(full);
    RemoveNumbers(puzzle, clues, order);
    ghost var p := Snapshot(puzzle);
    ZerosOfSolved(s);
    if p == s {
      FullGridHasOneSolution(s);
    } else {
      UniquePuzzleSolution(p, s);
    }
  }

  /** The cell-by-cell copy `CopyTo` performs for each of the six arrays. */
  method CopyCells<T>(source: array2<T>, destination: array2<T>)
    requires IsGridArray(source) && IsGridArray(destination) && source != destination
    modifies destination
    ensures forall r, c :: InRange(r, c) ==> destination[r, c] == source[r, c]
  {
    for r := 0 to 9
      invariant forall i, j :: InRange(i, j) && i < r ==> destination[i, j] == source[i, j]
    {
      for c := 0 to 9
        invariant forall i, j :: InRange(i, j) && (i < r || (i == r && j < c)) ==> destination[i, j] == source[i, j]
      {
        destination[r, c] := source[r, c];
      }
    }
  }

  /** A full grid has no empty cell. */
  lemma ZerosOfSolved(s: Grid)
    requires IsSolvedGrid(s)
    ensures Zeros(s) == 0
  {
    NoFirstZero(s);
  }
}
