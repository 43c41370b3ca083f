/** The Sudoku constraints and the set of completions the solver's backtracking
    traversal reaches, with an independent characterisation of that set. */
module Rules {
  import opened Grids

  /** (r, c) lies in the row, the column or the 3x3 box of (row, col);
      every cell lies in its own units. */
  predicate SameUnit(row: int, col: int, r: int, c: int) {
    r == row || c == col || (r / 3 == row / 3 && c / 3 == col / 3)
  }

  /** Two different cells that share a row, a column or a box. */
  predicate Peers(r1: int, c1: int, r2: int, c2: int) {
    (r1 != r2 || c1 != c2) && SameUnit(r1, c1, r2, c2)
  }

  /** `num` occurs nowhere in the row, the column or the box of (row, col),
      the cell (row, col) itself included. */
  ghost predicate Safe(g: Grid, row: int, col: int, num: int)
    requires InRange(row, col)
  {
    forall r, c :: InRange(r, c) && SameUnit(row, col, r, c) ==> Cell(g, r, c) != num
  }

  /** `num` occurs in no other cell of the row, the column or the box of (row, col);
      the cell itself is not looked at. */
  ghost predicate PeersFree(g: Grid, row: int, col: int, num: int) {
    forall r, c :: InRange(r, c) && Peers(row, col, r, c) ==> Cell(g, r, c) != num
  }

  /** The two checks differ exactly in the target cell. */
  lemma SafeIsPeersFreeAndNotHere(g: Grid, row: int, col: int, num: int)
    requires InRange(row, col)
    ensures Safe(g, row, col, num) <==> PeersFree(g, row, col, num) && Cell(g, row, col) != num
  {
    if PeersFree(g, row, col, num) && Cell(g, row, col) != num {
      forall r, c | InRange(r, c) && SameUnit(row, col, r, c)
        ensures Cell(g, r, c) != num
      {
        if r != row || c != col {
          assert Peers(row, col, r, c);
        }
      }
    }
  }

  /** A full, valid Sudoku: every cell holds a digit 1..9 and no two peers are equal. */
  ghost predicate IsSolvedGrid(h: Grid) {
    && (forall r, c :: InRange(r, c) ==> 1 <= Cell(h, r, c) <= 9)
    && (forall r1, c1, r2, c2 ::
          InRange(r1, c1) && InRange(r2, c2) && Peers(r1, c1, r2, c2) ==> Cell(h, r1, c1) != Cell(h, r2, c2))
  }

  /** In a full valid Sudoku every cell's digit is free in all of that cell's units. */
  lemma SolvedCellsArePeersFree(h: Grid, row: int, col: int)
    requires IsSolvedGrid(h) && InRange(row, col)
    ensures 1 <= Cell(h, row, col) <= 9 && PeersFree(h, row, col, Cell(h, row, col))
  {
  }

  /** `p` is obtained from `s` by emptying some cells. */
  ghost predicate IsPuzzleOf(p: Grid, s: Grid) {
    forall r, c :: InRange(r, c) ==> Cell(p, r, c) == 0 || Cell(p, r, c) == Cell(s, r, c)
  }

  /** `h` completes `g`: it keeps every filled cell of `g`, puts a digit 1..9 into every
      empty one, and differs from each peer of a cell that was empty.  Two filled cells of
      `g` are never compared with each other, exactly as the safety check never does. */
  ghost predicate IsCompletion(g: Grid, h: Grid) {
    && (forall r, c :: InRange(r, c) ==>
          if Cell(g, r, c) == 0 then 1 <= Cell(h, r, c) <= 9 else Cell(h, r, c) == Cell(g, r, c))
    && (forall r1, c1, r2, c2 ::
          (InRange(r1, c1) && InRange(r2, c2) && Peers(r1, c1, r2, c2) &&
           (Cell(g, r1, c1) == 0 || Cell(g, r2, c2) == 0)) ==>
          Cell(h, r1, c1) != Cell(h, r2, c2))
  }

  /** The completions reached by filling the first empty cell (row-major) with each safe
      digit in turn and recursing, as the solver's traversal does. */
  ghost function Solutions(g: Grid): set<Grid>
    decreases Zeros(g), 10
  {
    var k := FirstZero(g);
    if k == 81 then {g} else SolutionsFrom(g, k / 9, k % 9, 1)
  }

  /** The completions reached from the empty cell (row, col) with digits num..9. */
  ghost function SolutionsFrom(g: Grid, row: int, col: int, num: int): set<Grid>
    requires InRange(row, col) && Cell(g, row, col) == 0 && 1 <= num <= 10
    decreases Zeros(g), 10 - num
  {
    if num == 10 then {}
    else
      var here := if Safe(g, row, col, num) then
                    ZerosAfterWrite(g, 9 * row + col, num);
                    Solutions(Place(g, row, col, num))
                  else {};
      here + SolutionsFrom(g, row, col, num + 1)
  }

  /** Filling one empty cell with a safe digit turns completions of the new grid into
      completions of the old one. */
  lemma CompletionOfPlaced(g: Grid, row: int, col: int, n: int, h: Grid)
    requires InRange(row, col) && Cell(g, row, col) == 0 && 1 <= n <= 9
    requires Safe(g, row, col, n) && IsCompletion(Place(g, row, col, n), h)
    ensures IsCompletion(g, h)
  {
    var g' := Place(g, row, col, n);
    assert Cell(h, row, col) == n;
    forall r1, c1, r2, c2 |
      InRange(r1, c1) && InRange(r2, c2) && Peers(r1, c1, r2, c2) &&
      (Cell(g, r1, c1) == 0 || Cell(g, r2, c2) == 0)
      ensures Cell(h, r1, c1) != Cell(h, r2, c2)
    {
      if r1 == row && c1 == col && Cell(g, r2, c2) != 0 {
        assert SameUnit(row, col, r2, c2);
      } else if r2 == row && c2 == col && Cell(g, r1, c1) != 0 {
        assert SameUnit(row, col, r1, c1);
      } else {
        assert Cell(g', r1, c1) == 0 || Cell(g', r2, c2) == 0;
      }
    }
  }

  /** A completion of `g` fills the empty cell (row, col) with a safe digit and
      completes the grid with that digit placed. */
  lemma PlacedOfCompletion(g: Grid, row: int, col: int, h: Grid)
    requires InRange(row, col) && Cell(g, row, col) == 0 && IsCompletion(g, h)
    ensures 1 <= Cell(h, row, col) <= 9
    ensures Safe(g, row, col, Cell(h, row, col))
    ensures IsCompletion(Place(g, row, col, Cell(h, row, col)), h)
  {
    var n := Cell(h, row, col);
    forall r, c | InRange(r, c) && SameUnit(row, col, r, c)
      ensures Cell(g, r, c) != n
    {
      if (r != row || c != col) && Cell(g, r, c) != 0 {
        assert Peers(row, col, r, c);
      }
    }
  }

  /** The digit under which a completion in SolutionsFrom was reached. */
  lemma {:induction false} BranchOf(g: Grid, row: int, col: int, num: int, h: Grid) returns (n: int)
    requires InRange(row, col) && Cell(g, row, col) == 0 && 1 <= num <= 10
    requires h in SolutionsFrom(g, row, col, num)
    ensures num <= n <= 9 && Safe(g, row, col, n) && h in Solutions(Place(g, row, col, n))
    decreases 10 - num
  {
    if Safe(g, row, col, num) && h in Solutions(Place(g, row, col, num)) {
      n := num;
    } else {
      n := BranchOf(g, row, col, num + 1, h);
    }
  }

  /** A completion reached under digit n lies in SolutionsFrom for every start up to n. */
  lemma {:induction false} InBranch(g: Grid, row: int, col: int, num: int, n: int, h: Grid)
    requires InRange(row, col) && Cell(g, row, col) == 0 && 1 <= num <= n <= 9
    requires Safe(g, row, col, n) && h in Solutions(Place(g, row, col, n))
    ensures h in SolutionsFrom(g, row, col, num)
    decreases n - num
  {
    if num < n {
      InBranch(g, row, col, num + 1, n, h);
    }
  }

  /** The traversal reaches exactly the completions of the grid. */
  lemma {:induction false} SolutionsAreCompletions(g: Grid, h: Grid)
    ensures h in Solutions(g) <==> IsCompletion(g, h)
    decreases Zeros(g)
  {
    var k := FirstZero(g);
    if k == 81 {
      assert forall r, c :: InRange(r, c) ==> Cell(g, r, c) == g[9 * r + c] != 0;
      if IsCompletion(g, h) {
        SameCells(g, h);
      }
    } else {
      var row, col := k / 9, k % 9;
      assert Cell(g, row, col) == 0;
      if IsCompletion(g, h) {
        PlacedOfCompletion(g, row, col, h);
        var n := Cell(h, row, col);
        ZerosAfterWrite(g, k, n);
        SolutionsAreCompletions(Place(g, row, col, n), h);
        InBranch(g, row, col, 1, n, h);
      }
      if h in Solutions(g) {
        var n := BranchOf(g, row, col, 1, h);
        ZerosAfterWrite(g, k, n);
        SolutionsAreCompletions(Place(g, row, col, n), h);
        CompletionOfPlaced(g, row, col, n, h);
      }
    }
  }

  /** At the first empty cell the traversal tries the digits 1..9. */
  lemma SolutionsAtFirstEmpty(g: Grid, row: int, col: int)
    requires InRange(row, col) && FirstZero(g) == 9 * row + col
    ensures Cell(g, row, col) == 0
    ensures Solutions(g) == SolutionsFrom(g, row, col, 1)
    ensures |SolutionsFrom(g, row, col, 10)| == 0
  {
    assert (9 * row + col) / 9 == row && (9 * row + col) % 9 == col;
  }

  /** Choosing a different digit for the cell being filled gives disjoint completions,
      so the count splits into a sum. */
  lemma SolutionsFromSplit(g: Grid, row: int, col: int, num: int)
    requires InRange(row, col) && Cell(g, row, col) == 0 && 1 <= num <= 9
    ensures Safe(g, row, col, num) ==>
      |SolutionsFrom(g, row, col, num)| == |Solutions(Place(g, row, col, num))| + |SolutionsFrom(g, row, col, num + 1)|
    ensures !Safe(g, row, col, num) ==> SolutionsFrom(g, row, col, num) == SolutionsFrom(g, row, col, num + 1)
  {
    var here := if Safe(g, row, col, num) then Solutions(Place(g, row, col, num)) else {};
    var rest := SolutionsFrom(g, row, col, num + 1);
    forall h | h in here && h in rest
      ensures false
    {
      SolutionsAreCompletions(Place(g, row, col, num), h);
      var n := BranchOf(g, row, col, num + 1, h);
      SolutionsAreCompletions(Place(g, row, col, n), h);
    }
    assert here * rest == {};
  }

  /** A full grid has exactly itself as completion. */
  lemma FullGridHasOneSolution(g: Grid)
    requires Zeros(g) == 0
    ensures Solutions(g) == {g} && |Solutions(g)| == 1
  {
    NoZeroWhenNoneCounted(g);
  }

  /** The completions of the empty grid are exactly the full valid Sudokus. */
  lemma CompletionsOfEmptyAreSolvedGrids(h: Grid)
    ensures h in Solutions(EmptyGrid()) <==> IsSolvedGrid(h)
  {
    SolutionsAreCompletions(EmptyGrid(), h);
  }

  /** Emptying cells of a full valid Sudoku keeps it among the completions. */
  lemma SolvedGridCompletesItsPuzzles(p: Grid, s: Grid)
    requires IsSolvedGrid(s) && IsPuzzleOf(p, s)
    ensures s in Solutions(p)
  {
    SolutionsAreCompletions(p, s);
  }

  /** A puzzle of `s` with exactly one completion has `s` as that completion. */
  lemma UniquePuzzleSolution(p: Grid, s: Grid)
    requires IsSolvedGrid(s) && IsPuzzleOf(p, s) && |Solutions(p)| == 1
    ensures Solutions(p) == {s}
  {
    SolvedGridCompletesItsPuzzles(p, s);
    var S := Solutions(p);
    assert S == (S - {s}) + {s};
    assert |S - {s}| == 0;
    assert S - {s} == {};
  }
}
