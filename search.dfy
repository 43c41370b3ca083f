/** The backtracking search shared by the solver and by both grid fillers: scan for the
    first empty cell in row-major order, try candidate digits in the order the caller's
    random source gives (ascending for the solver), recurse, and undo on failure. */
module Search {
  import opened Grids
  import opened Rules

  /** One shuffle of the digits 1..9, as `Enumerable.Range(1, 9).OrderBy(_ => rng.Next())`
      yields it: nine entries, covering exactly the digits 1..9. */
  ghost predicate IsDigitShuffle(s: seq<int>) {
    |s| == 9 && forall d :: d in s <==> 1 <= d <= 9
  }

  /** Every shuffle a random stream can yield is a shuffle of the digits. */
  ghost predicate IsShuffleStream(shuffles: nat -> seq<int>) {
    forall t :: IsDigitShuffle(shuffles(t))
  }

  /** The solver's fixed candidate order: 1, 2, ..., 9 at every cell. */
  function Ascending(t: nat): (s: seq<int>)
    ensures |s| == 9 && forall i :: 0 <= i < 9 ==> s[i] == i + 1
  {
    [1, 2, 3, 4, 5, 6, 7, 8, 9]
  }

  lemma AscendingIsShuffleStream()
    ensures IsShuffleStream(Ascending)
  {
    forall t: nat, d | 1 <= d <= 9
      ensures d in Ascending(t)
    {
      assert Ascending(t)[d - 1] == d;
    }
  }

  /** Result of a search: whether it succeeded, the grid it leaves, and how many
      shuffles it has drawn from the random stream so far. */
  datatype Outcome = Outcome(ok: bool, grid: Grid, draws: nat)

  /** The search as a function.  `shuffles(t)` is the t-th candidate order drawn from the
      random stream; one is drawn at each visit of an empty cell. */
  ghost function Backtrack(g: Grid, shuffles: nat -> seq<int>, t: nat): Outcome
    decreases Zeros(g), 1, 0
  {
    var k := FirstZero(g);
    if k == 81 then Outcome(true, g, t)
    else TryEach(g, k / 9, k % 9, shuffles(t), 0, shuffles, t + 1)
  }

  /** Trying candidates nums[j..] at the empty cell (row, col); a failed candidate leaves
      the grid as it was and the next one is tried. */
  ghost function TryEach(g: Grid, row: int, col: int, nums: seq<int>, j: nat,
                         shuffles: nat -> seq<int>, t: nat): Outcome
    requires InRange(row, col) && Cell(g, row, col) == 0 && j <= |nums|
    decreases Zeros(g), 0, |nums| - j
  {
    if j == |nums| then Outcome(false, g, t)
    else if Safe(g, row, col, nums[j]) then
      ZerosAfterWrite(g, 9 * row + col, nums[j]);
      var sub := Backtrack(Place(g, row, col, nums[j]), shuffles, t);
      if sub.ok then sub else TryEach(g, row, col, nums, j + 1, shuffles, sub.draws)
    else TryEach(g, row, col, nums, j + 1, shuffles, t)
  }

  /** At the first empty cell the search draws one shuffle and tries it from the start. */
  lemma BacktrackAtFirstEmpty(g: Grid, row: int, col: int, shuffles: nat -> seq<int>, t: nat)
    requires InRange(row, col) && FirstZero(g) == 9 * row + col
    ensures Cell(g, row, col) == 0
    ensures Backtrack(g, shuffles, t) == TryEach(g, row, col, shuffles(t), 0, shuffles, t + 1)
  {
    assert (9 * row + col) / 9 == row && (9 * row + col) % 9 == col;
  }

  /** With the solver's fixed order the draw counter plays no part in the result. */
  lemma {:induction false} AscendingIgnoresDraws(g: Grid, t1: nat, t2: nat)
    ensures Backtrack(g, Ascending, t1).ok == Backtrack(g, Ascending, t2).ok
    ensures Backtrack(g, Ascending, t1).grid == Backtrack(g, Ascending, t2).grid
    decreases Zeros(g), 1, 0
  {
    var k := FirstZero(g);
    if k < 81 {
      assert Cell(g, k / 9, k % 9) == 0;
      TryEachIgnoresDraws(g, k / 9, k % 9, Ascending(0), 0, t1 + 1, t2 + 1);
    }
  }

  lemma {:induction false} TryEachIgnoresDraws(g: Grid, row: int, col: int, nums: seq<int>, j: nat,
                                               t1: nat, t2: nat)
    requires InRange(row, col) && Cell(g, row, col) == 0 && j <= |nums|
    ensures TryEach(g, row, col, nums, j, Ascending, t1).ok == TryEach(g, row, col, nums, j, Ascending, t2).ok
    ensures TryEach(g, row, col, nums, j, Ascending, t1).grid == TryEach(g, row, col, nums, j, Ascending, t2).grid
    decreases Zeros(g), 0, |nums| - j
  {
    if j < |nums| {
      if Safe(g, row, col, nums[j]) {
        ZerosAfterWrite(g, 9 * row + col, nums[j]);
        var g' := Place(g, row, col, nums[j]);
        AscendingIgnoresDraws(g', t1, t2);
        if !Backtrack(g', Ascending, t1).ok {
          TryEachIgnoresDraws(g, row, col, nums, j + 1,
                              Backtrack(g', Ascending, t1).draws, Backtrack(g', Ascending, t2).draws);
        }
      } else {
        TryEachIgnoresDraws(g, row, col, nums, j + 1, t1, t2);
      }
    }
  }

  /** A successful search ends in a completion of its grid; a failed one leaves the grid
      unchanged and happens only when the grid has no completion at all. */
  lemma {:induction false} BacktrackCorrect(g: Grid, shuffles: nat -> seq<int>, t: nat)
    requires IsShuffleStream(shuffles)
    ensures var o := Backtrack(g, shuffles, t);
      && (o.ok ==> o.grid in Solutions(g))
      && (!o.ok ==> o.grid == g && Solutions(g) == {})
    decreases Zeros(g), 1, 0
  {
    var k := FirstZero(g);
    if k < 81 {
      var row, col := k / 9, k % 9;
      var nums := shuffles(t);
      assert Cell(g, row, col) == 0;
      assert forall d :: d in nums <==> 1 <= d <= 9;
      var n := TryEachCorrect(g, row, col, nums, 0, shuffles, t + 1);
      var o := TryEach(g, row, col, nums, 0, shuffles, t + 1);
      if o.ok {
        InBranch(g, row, col, 1, n, o.grid);
      } else {
        forall m | 1 <= m <= 9 && Safe(g, row, col, m)
          ensures Solutions(Place(g, row, col, m)) == {}
        {
          assert m in nums;
          var i :| 0 <= i < |nums| && nums[i] == m;
          TryEachExhausts(g, row, col, nums, 0, shuffles, t + 1, i);
        }
        forall h
          ensures h !in Solutions(g)
        {
          if h in Solutions(g) {
            var m := BranchOf(g, row, col, 1, h);
          }
        }
      }
    }
  }

  /** Trying candidates nums[j..]: success is reached under some safe digit `n`, and
      failure leaves the grid as it was. */
  lemma {:induction false} TryEachCorrect(g: Grid, row: int, col: int, nums: seq<int>, j: nat,
                                          shuffles: nat -> seq<int>, t: nat) returns (n: int)
    requires InRange(row, col) && Cell(g, row, col) == 0 && j <= |nums|
    requires forall d :: d in nums ==> 1 <= d <= 9
    requires IsShuffleStream(shuffles)
    ensures var o := TryEach(g, row, col, nums, j, shuffles, t);
      && (o.ok ==> 1 <= n <= 9 && Safe(g, row, col, n) && o.grid in Solutions(Place(g, row, col, n)))
      && (!o.ok ==> o.grid == g)
    decreases Zeros(g), 0, |nums| - j
  {
    n := 1;
    if j < |nums| {
      var d := nums[j];
      assert d in nums;
      if Safe(g, row, col, d) {
        ZerosAfterWrite(g, 9 * row + col, d);
        BacktrackCorrect(Place(g, row, col, d), shuffles, t);
        var sub := Backtrack(Place(g, row, col, d), shuffles, t);
        if sub.ok {
          n := d;
        } else {
          n := TryEachCorrect(g, row, col, nums, j + 1, shuffles, sub.draws);
        }
      } else {
        n := TryEachCorrect(g, row, col, nums, j + 1, shuffles, t);
      }
    }
  }

  /** When trying nums[j..] fails, no safe candidate among them has a completion. */
  lemma {:induction false} TryEachExhausts(g: Grid, row: int, col: int, nums: seq<int>, j: nat,
                                           shuffles: nat -> seq<int>, t: nat, i: nat)
    requires InRange(row, col) && Cell(g, row, col) == 0 && j <= i < |nums|
    requires IsShuffleStream(shuffles)
    requires !TryEach(g, row, col, nums, j, shuffles, t).ok
    requires Safe(g, row, col, nums[i])
    ensures Solutions(Place(g, row, col, nums[i])) == {}
    decreases Zeros(g), 0, |nums| - j
  {
    var d := nums[j];
    if Safe(g, row, col, d) {
      ZerosAfterWrite(g, 9 * row + col, d);
      var sub := Backtrack(Place(g, row, col, d), shuffles, t);
      if i == j {
        BacktrackCorrect(Place(g, row, col, d), shuffles, t);
      } else {
        TryEachExhausts(g, row, col, nums, j + 1, shuffles, sub.draws, i);
      }
    } else {
      TryEachExhausts(g, row, col, nums, j + 1, shuffles, t, i);
    }
  }

  /** The offset of row r in the pattern grid: rows of one band start 3 apart, and the
      bands start at 0, 1 and 2. */
  function Shift(r: int): int
    requires 0 <= r < 9
  {
    [0, 3, 6, 1, 4, 7, 2, 5, 8][r]
  }

  /** The value the pattern grid puts at (r, c). */
  function PatternCell(r: int, c: int): int
    requires InRange(r, c)
  {
    (Shift(r) + c) % 9 + 1
  }

  /** The pattern grid, a full valid Sudoku. */
  function PatternGrid(): Grid {
    seq(81, k requires 0 <= k < 81 => PatternCell(k / 9, k % 9))
  }

  lemma PatternGridCells()
    ensures forall r, c :: InRange(r, c) ==> Cell(PatternGrid(), r, c) == PatternCell(r, c)
  {
    forall r, c | InRange(r, c)
      ensures Cell(PatternGrid(), r, c) == PatternCell(r, c)
    {
      var k := 9 * r + c;
      assert k / 9 == r && k % 9 == c;
    }
  }

  lemma ModNine(x: int, y: int)
    requires 0 <= x && 0 <= y && x != y && -9 < x - y < 9
    ensures x % 9 != y % 9
  {
  }

  /** Two different rows of one band are shifted by 3 or 6 against each other. */
  lemma BandShifts(r1: int, r2: int)
    requires 0 <= r1 < 9 && 0 <= r2 < 9 && r1 != r2 && r1 / 3 == r2 / 3
    ensures Shift(r1) - Shift(r2) in {3, 6, -3, -6}
  {
  }

  lemma PatternDistinct(r1: int, c1: int, r2: int, c2: int)
    requires InRange(r1, c1) && InRange(r2, c2) && Peers(r1, c1, r2, c2)
    ensures PatternCell(r1, c1) != PatternCell(r2, c2)
  {
    var x, y := Shift(r1) + c1, Shift(r2) + c2;
    if r1 == r2 {
      ModNine(x, y);
    } else if c1 == c2 {
      ModNine(x, y);
    } else {
      BandShifts(r1, r2);
      assert -2 <= c1 - c2 <= 2;
      ModNine(x, y);
    }
  }

  lemma PatternGridIsSolved()
    ensures IsSolvedGrid(PatternGrid())
  {
    PatternGridCells();
    forall r1, c1, r2, c2 | InRange(r1, c1) && InRange(r2, c2) && Peers(r1, c1, r2, c2)
      ensures PatternCell(r1, c1) != PatternCell(r2, c2)
    {
      PatternDistinct(r1, c1, r2, c2);
    }
  }

  /** A full valid Sudoku exists, so filling the empty grid never fails. */
  lemma FillOfEmptySucceeds(shuffles: nat -> seq<int>, t: nat)
    requires IsShuffleStream(shuffles)
    ensures Backtrack(EmptyGrid(), shuffles, t).ok
    ensures IsSolvedGrid(Backtrack(EmptyGrid(), shuffles, t).grid)
  {
    PatternGridIsSolved();
    CompletionsOfEmptyAreSolvedGrids(PatternGrid());
    BacktrackCorrect(EmptyGrid(), shuffles, t);
    CompletionsOfEmptyAreSolvedGrids(Backtrack(EmptyGrid(), shuffles, t).grid);
  }
}
