/** The solver: a safety check for one placement, a backtracking solve in place and an
    exhaustive count of completions, all on a 9x9 `int` grid where 0 is an empty cell.
    The source's `SudokuSolver` class has no fields, so its methods are module-level here. */
module Solver {
  import opened Grids
  import opened Rules
  import opened Search

  /** `num` may go at (row, col): it is nowhere in the row, the column or the 3x3 box,
      the target cell itself included. Reads the grid only. */
  method IsSafe(grid: array2<int>, row: int, col: int, num: int) returns (safe: bool)
    requires IsGridArray(grid) && InRange(row, col)
    ensures safe <==> forall r, c :: InRange(r, c) && SameUnit(row, col, r, c) ==> grid[r, c] != num
    ensures safe == Safe(Snapshot(grid), row, col, num)
  {
    for i := 0 to 9
      invariant forall j :: 0 <= j < i ==> grid[row, j] != num && grid[j, col] != num
    {
      if grid[row, i] == num || grid[i, col] == num {
        return false;
      }
    }
    var boxRow := row - row % 3;
    var boxCol := col - col % 3;
    for i := 0 to 3
      invariant forall r, c :: boxRow <= r < boxRow + i && boxCol <= c < boxCol + 3 ==> grid[r, c] != num
    {
      for j := 0 to 3
        invariant forall r, c :: boxRow <= r < boxRow + i && boxCol <= c < boxCol + 3 ==> grid[r, c] != num
        invariant forall r, c :: r == boxRow + i && boxCol <= c < boxCol + j ==> grid[r, c] != num
      {
        if grid[boxRow + i, boxCol + j] == num {
          return false;
        }
      }
    }
    return true;
  }

  /** Completes the grid in place by backtracking with candidates 1..9 in increasing
      order at the first empty cell; on failure every tentative placement has been undone. */
  method Solve(grid: array2<int>) returns (solved: bool)
    requires IsGridArray(grid)
    modifies grid
    ensures solved == Backtrack(old(Snapshot(grid)), Ascending, 0).ok
    ensures Snapshot(grid) == Backtrack(old(Snapshot(grid)), Ascending, 0).grid
    ensures solved <==> Solutions(old(Snapshot(grid))) != {}
    ensures solved ==> Snapshot(grid) in Solutions(old(Snapshot(grid)))
    ensures !solved ==> Snapshot(grid) == old(Snapshot(grid))
    decreases Zeros(Snapshot(grid)), 1
  {
    ghost var g := Snapshot(grid);
    AscendingIsShuffleStream();
    BacktrackCorrect(g, Ascending, 0);
    var found, row, col := FindEmptyCell(grid);
    if !found {
      return true;
    }
    BacktrackAtFirstEmpty(g, row, col, Ascending, 0);
    TryEachIgnoresDraws(g, row, col, Ascending(0), 0, 0, 1);
    for num := 1 to 10
      invariant Snapshot(grid) == g
      invariant TryEach(g, row, col, Ascending(0), num - 1, Ascending, 0).ok == Backtrack(g, Ascending, 0).ok
      invariant TryEach(g, row, col, Ascending(0), num - 1, Ascending, 0).grid == Backtrack(g, Ascending, 0).grid
    {
      var safe := IsSafe(grid, row, col, num);
      if safe {
        solved := PlaceAndSolve(grid, row, col, num);
        if solved {
          return;
        }
        TryEachIgnoresDraws(g, row, col, Ascending(0), num, Backtrack(Place(g, row, col, num), Ascending, 0).draws, 0);
      }
    }
    return false;
  }

  /** One step of `Solve`: writes `num` into the empty cell, solves the rest, and empties
      the cell again when that fails. */
  method PlaceAndSolve(grid: array2<int>, row: int, col: int, num: int) returns (solved: bool)
    requires IsGridArray(grid) && InRange(row, col) && grid[row, col] == 0
    requires Safe(Snapshot(grid), row, col, num)
    modifies grid
    ensures solved == Backtrack(Place(old(Snapshot(grid)), row, col, num), Ascending, 0).ok
    ensures solved ==> Snapshot(grid) == Backtrack(Place(old(Snapshot(grid)), row, col, num), Ascending, 0).grid
    ensures !solved ==> Snapshot(grid) == old(Snapshot(grid))
    decreases Zeros(Snapshot(grid)), 0
  {
    ghost var g := Snapshot(grid);
    WriteCell(grid, row, col, num);
    ZerosAfterWrite(g, 9 * row + col, num);
    solved := Solve(grid);
    if !solved {
      WriteCell(grid, row, col, 0);
      assert Place(Place(g, row, col, num), row, col, 0) == g;
    }
  }

  /** The number of completions of the grid; the grid is left exactly as it was passed. */
  method CountSolutions(grid: array2<int>) returns (count: nat)
    requires IsGridArray(grid)
    modifies grid
    ensures count == |Solutions(old(Snapshot(grid)))|
    ensures Snapshot(grid) == old(Snapshot(grid))
  {
    count := CountSolutionsHelper(grid, 0);
  }

  /** Adds to `count` (the source's `ref` counter) one for every completion reached. */
  method CountSolutionsHelper(grid: array2<int>, count: nat) returns (total: nat)
    requires IsGridArray(grid)
    modifies grid
    ensures total == count + |Solutions(old(Snapshot(grid)))|
    ensures Snapshot(grid) == old(Snapshot(grid))
    decreases Zeros(Snapshot(grid)), 2
  {
    ghost var g := Snapshot(grid);
    var found, row, col := FindEmptyCell(grid);
    if !found {
      FullGridHasOneSolution(g);
      return count + 1;
    }
    SolutionsAtFirstEmpty(g, row, col);
    total := CountAt(grid, row, col, count);
  }

  /** The candidate loop of `CountSolutionsHelper` at an empty cell: every safe digit is
      tried, with no early exit. */
  method CountAt(grid: array2<int>, row: int, col: int, count: nat) returns (total: nat)
    requires IsGridArray(grid) && InRange(row, col) && grid[row, col] == 0
    modifies grid
    ensures total == count + |SolutionsFrom(old(Snapshot(grid)), row, col, 1)|
    ensures Snapshot(grid) == old(Snapshot(grid))
    decreases Zeros(Snapshot(grid)), 1
  {
    ghost var g := Snapshot(grid);
    total := count;
    ghost var target := count + |SolutionsFrom(g, row, col, 1)|;
    for num := 1 to 10
      invariant Snapshot(grid) == g
      invariant total + |SolutionsFrom(g, row, col, num)| == target
    {
      var safe := IsSafe(grid, row, col, num);
      SolutionsFromSplit(g, row, col, num);
      if safe {
        total := PlaceAndCount(grid, row, col, num, total);
      } else {
        assert !Safe(g, row, col, num);
        assert SolutionsFrom(g, row, col, num) == SolutionsFrom(g, row, col, num + 1);
      }
    }
  }

  /** One step of `CountSolutionsHelper`: writes `num` into the empty cell, counts the
      completions from there, and empties the cell again. */
  method PlaceAndCount(grid: array2<int>, row: int, col: int, num: int, count: nat) returns (total: nat)
    requires IsGridArray(grid) && InRange(row, col) && grid[row, col] == 0
    requires Safe(Snapshot(grid), row, col, num)
    modifies grid
    ensures total == count + |Solutions(Place(old(Snapshot(grid)), row, col, num))|
    ensures Snapshot(grid) == old(Snapshot(grid))
    decreases Zeros(Snapshot(grid)), 0
  {
    ghost var g := Snapshot(grid);
    WriteCell(grid, row, col, num);
    ZerosAfterWrite(g, 9 * row + col, num);
    total := CountSolutionsHelper(grid, count);
    WriteCell(grid, row, col, 0);
    assert Place(Place(g, row, col, num), row, col, 0) == g;
  }

  /** The row-major scan both recursive methods open with: the first empty cell, if any. */
  method FindEmptyCell(grid: array2<int>) returns (found: bool, row: int, col: int)
    requires IsGridArray(grid)
    ensures found ==> InRange(row, col) && grid[row, col] == 0 && FirstZero(Snapshot(grid)) == 9 * row + col
    ensures !found ==> FirstZero(Snapshot(grid)) == 81 && Zeros(Snapshot(grid)) == 0
  {
    ghost var g := Snapshot(grid);
    for r := 0 to 9
      invariant forall i, j :: InRange(i, j) && i < r ==> Cell(g, i, j) != 0
    {
      for c := 0 to 9
        invariant forall i, j :: InRange(i, j) && (i < r || (i == r && j < c)) ==> Cell(g, i, j) != 0
      {
        if grid[r, c] == 0 {
          FirstZeroAt(g, r, c);
          return true, r, c;
        }
      }
    }
    NoFirstZero(g);
    return false, 0, 0;
  }
}
