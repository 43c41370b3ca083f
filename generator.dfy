/** The puzzle generator service: resolves the clue target from the options, fills a grid
    (from a stream fixed by the seed when one is given, otherwise from the service's own
    random source), removes clues in symmetric pairs while the puzzle keeps exactly one
    completion, and returns a board holding the result.  The removal order always comes
    from the service's own random source, so a seed fixes the solution but not the puzzle. */
module Generator {
  import opened Grids
  import opened Rules
  import opened Search
  import opened Solver
  import opened Options
  import opened Board

  /** The clue target of each difficulty (Custom as Medium). */
  function DifficultyClues(d: DifficultyLevel): (clues: int)
    ensures 20 <= clues <= 40
  {
    match d
    case Easy => 40
    case Medium => 30
    case Hard => 25
    case Expert => 20
    case Custom => 30
  }

  /** Harder levels leave fewer clues. */
  lemma DifficultyCluesDecrease()
    ensures DifficultyClues(Easy) > DifficultyClues(Medium) > DifficultyClues(Hard) > DifficultyClues(Expert)
    ensures DifficultyClues(Custom) == DifficultyClues(Medium)
  {
  }

  /** The number of clues to aim for: the explicit count when one is given, otherwise the
      difficulty's target. */
  function ClueTarget(options: PuzzleOptions): (clues: int)
    ensures options.ClueCount.Some? ==> clues == options.ClueCount.value
    ensures options.ClueCount.None? ==> clues == DifficultyClues(options.Difficulty) && 20 <= clues <= 40
  {
    match options.ClueCount
    case Some(n) => n
    case None => DifficultyClues(options.Difficulty)
  }

  /** The cell emptied together with (row, col): the point reflection through the centre
      for Rotational and Both, the reflection in the main diagonal for Diagonal, and the
      cell itself otherwise. */
  function SymmetricPartner(symmetry: SymmetryStyle, row: int, col: int): (p: (int, int))
    ensures InRange(row, col) ==> InRange(p.0, p.1)
    ensures p == (row, col) <==> match symmetry
      case NoSymmetry => true
      case Diagonal => row == col
      case _ => row == 4 && col == 4
  {
    match symmetry
    case Rotational => (8 - row, 8 - col)
    case Diagonal => (col, row)
    case Both => (8 - row, 8 - col)
    case NoSymmetry => (row, col)
  }

  /** Options left at their defaults aim at the same 30 clues as the board's own generator,
      and remove clues one cell at a time. */
  lemma DefaultOptionsMatchBoardDefault()
    ensures ClueTarget(DefaultOptions()) == DefaultClues
    ensures forall r, c :: SymmetricPartner(DefaultOptions().Symmetry, r, c) == (r, c)
  {
  }

  /** Taking the partner twice gives back the cell. */
  lemma PartnerIsInvolution(symmetry: SymmetryStyle, row: int, col: int)
    ensures var p := SymmetricPartner(symmetry, row, col);
      SymmetricPartner(symmetry, p.0, p.1) == (row, col)
  {
  }

  /** The puzzle's empty cells are symmetric: a cell is empty exactly when its partner is. */
  ghost predicate SymmetricZeros(g: Grid, symmetry: SymmetryStyle) {
    forall r, c {:trigger SymmetricPartner(symmetry, r, c)} :: InRange(r, c) ==>
      (Cell(g, r, c) == 0 <==> Cell(g, SymmetricPartner(symmetry, r, c).0, SymmetricPartner(symmetry, r, c).1) == 0)
  }

  /** Emptying a cell together with its partner keeps the empty cells symmetric. */
  lemma RemovingPairKeepsSymmetry(g: Grid, symmetry: SymmetryStyle, row: int, col: int)
    requires InRange(row, col) && SymmetricZeros(g, symmetry)
    ensures var p := SymmetricPartner(symmetry, row, col);
      SymmetricZeros(Place(Place(g, row, col, 0), p.0, p.1, 0), symmetry)
  {
    var p := SymmetricPartner(symmetry, row, col);
    var h := Place(Place(g, row, col, 0), p.0, p.1, 0);
    forall r, c | InRange(r, c)
      ensures Cell(h, r, c) == 0 <==> Cell(h, SymmetricPartner(symmetry, r, c).0, SymmetricPartner(symmetry, r, c).1) == 0
    {
      PartnerIsInvolution(symmetry, row, col);
      PartnerIsInvolution(symmetry, r, c);
    }
  }

  /** The shuffle stream the fill draws from: a fresh generator for the seed when one is
      given, otherwise the service's own. */
  function FillStream(seed: Option<int>, seeded: int -> (nat -> seq<int>), shared: nat -> seq<int>): nat -> seq<int> {
    match seed
    case Some(s) => seeded(s)
    case None => shared
  }

  /** Fills the grid by the same randomized backtracking as the board's fill, drawing from
      the stream the seed selects. */
  method FillGrid(grid: array2<int>, seed: Option<int>, seeded: int -> (nat -> seq<int>), shared: nat -> seq<int>)
    requires IsGridArray(grid)
    modifies grid
    ensures Snapshot(grid) == Backtrack(old(Snapshot(grid)), FillStream(seed, seeded, shared), 0).grid
  {
    var rng := if seed.Some? then seeded(seed.value) else shared;
    var filled, draws := Board.FillGrid(grid, rng, 0);
  }

  /** Greedy symmetric clue removal: the cells are tried in the given order; a filled cell
      is emptied together with its partner, both are put back unless the puzzle then has
      exactly one completion, and otherwise `removed` grows by 1 for a cell that is its own
      partner and by 2 for a pair, even when the partner was already empty.  The loop stops
      as soon as `81 - removed <= clues`, so a pair can take the clue count one below the
      target. */
  method RemoveNumbersWithSymmetry(grid: array2<int>, clues: int, symmetry: SymmetryStyle, order: seq<int>)
    requires IsGridArray(grid)
    requires forall i :: 0 <= i < |order| ==> 0 <= order[i] < 81
    modifies grid
    ensures IsPuzzleOf(Snapshot(grid), old(Snapshot(grid)))
    ensures Snapshot(grid) == old(Snapshot(grid)) || |Solutions(Snapshot(grid))| == 1
    ensures ClueCount(Snapshot(grid)) >= ClueCount(old(Snapshot(grid))) - (if clues < 81 then 82 - clues else 2)
    ensures SymmetricZeros(old(Snapshot(grid)), symmetry) ==> SymmetricZeros(Snapshot(grid), symmetry)
  {
    ghost var g0 := Snapshot(grid);
    var removed := 0;
    for i := 0 to |order|
      invariant IsPuzzleOf(Snapshot(grid), g0)
      invariant Snapshot(grid) == g0 || |Solutions(Snapshot(grid))| == 1
      invariant ClueCount(Snapshot(grid)) + removed >= ClueCount(g0)
      invariant 0 <= removed && (removed == 0 || 81 - removed > clues)
      invariant SymmetricZeros(g0, symmetry) ==> SymmetricZeros(Snapshot(grid), symmetry)
    {
      var row := order[i] / 9;
      var col := order[i] % 9;
      if grid[row, col] == 0 {
        continue;
      }
      var (symRow, symCol) := SymmetricPartner(symmetry, row, col);
      ghost var before := Snapshot(grid);
      var kept := TryRemovePair(grid, row, col, symRow, symCol);
      if kept {
        if SymmetricZeros(g0, symmetry) {
          RemovingPairKeepsSymmetry(before, symmetry, row, col);
        }
        removed := removed + if row == symRow && col == symCol then 1 else 2;
        if 81 - removed <= clues {
          break;
        }
      }
    }
  }

  /** One step of `RemoveNumbersWithSymmetry` at a filled cell: empties it and its partner,
      counts the completions on a copy, and restores both backed-up digits unless there is
      exactly one. */
  method TryRemovePair(grid: array2<int>, row: int, col: int, symRow: int, symCol: int) returns (kept: bool)
    requires IsGridArray(grid) && InRange(row, col) && InRange(symRow, symCol) && grid[row, col] != 0
    modifies grid
    ensures kept ==> Snapshot(grid) == Place(Place(old(Snapshot(grid)), row, col, 0), symRow, symCol, 0)
    ensures kept ==> |Solutions(Snapshot(grid))| == 1
    ensures kept ==> ClueCount(Snapshot(grid)) + (if row == symRow && col == symCol then 1 else 2) >= ClueCount(old(Snapshot(grid)))
    ensures !kept ==> Snapshot(grid) == old(Snapshot(grid))
  {
    ghost var cur := Snapshot(grid);
    var backup := grid[row, col];
    var backup2 := grid[symRow, symCol];
    WriteCell(grid, row, col, 0);
    ZerosAfterWrite(cur, 9 * row + col, 0);
    ghost var mid := Snapshot(grid);
    WriteCell(grid, symRow, symCol, 0);
    ZerosAfterWrite(mid, 9 * symRow + symCol, 0);
    var copy := CloneGrid(grid);
    var count := CountSolutions(copy);
    if count != 1 {
      WriteCell(grid, row, col, backup);
      WriteCell(grid, symRow, symCol, backup2);
      SameCells(Snapshot(grid), cur);
      return false;
    }
    return true;
  }

  /** Builds a board for the options: clue target, fill, symmetric removal, then the
      population loop.  The board's solution is fixed by the fill stream alone, and the
      clue count can fall one below the target. */
  method GeneratePuzzle(options: PuzzleOptions, seeded: int -> (nat -> seq<int>), shared: nat -> seq<int>,
                        order: seq<int>) returns (board: SudokuBoard)
    requires IsShuffleStream(FillStream(options.Seed, seeded, shared))
    requires forall i :: 0 <= i < |order| ==> 0 <= order[i] < 81
    ensures fresh(board) && fresh(board.Repr()) && board.IsFreshPuzzle() && board.Consistent()
    ensures Snapshot(board.Solution) == Backtrack(EmptyGrid(), FillStream(options.Seed, seeded, shared), 0).grid
    ensures var clues := ClueTarget(options);
      ClueCount(Snapshot(board.Grid)) >= if clues < 81 then clues - 1 else 79
    ensures SymmetricZeros(Snapshot(board.Grid), options.Symmetry)
  {
    var clues := ClueTarget(options);
    board := new SudokuBoard(true, shared, order);
    var solution, puzzle := MakeSymmetricPuzzle(clues, options.Symmetry, options.Seed, seeded, shared, order);
    ghost var p := Snapshot(puzzle);
    PopulateBoard(board, solution, puzzle);
    assert Snapshot(board.Grid) == p;
  }

  /** Puts the solution and the puzzle on a board whose notes are empty, then runs the
      population loop. */
  method PopulateBoard(board: SudokuBoard, solution: array2<int>, puzzle: array2<int>)
    requires board.Valid() && IsGridArray(solution) && IsGridArray(puzzle) && solution != puzzle
    requires forall r, c :: InRange(r, c) ==> board.Notes[r, c] == {}
    requires IsSolvedGrid(Snapshot(solution)) && IsPuzzleOf(Snapshot(puzzle), Snapshot(solution))
    requires Solutions(Snapshot(puzzle)) == {Snapshot(solution)}
    modifies board, board.FixedCells, board.HintCells, board.CorrectlySolvedCells
    ensures board.Grid == puzzle && board.Solution == solution
    ensures board.FixedCells == old(board.FixedCells) && board.HintCells == old(board.HintCells)
    ensures board.CorrectlySolvedCells == old(board.CorrectlySolvedCells) && board.Notes == old(board.Notes)
    ensures board.IsFreshPuzzle() && board.Consistent()
  {
    board.Solution := solution;
    board.Grid := puzzle;
    MarkClues(board);
    board.FreshPuzzleIsConsistent();
  }

  /** The grids `GeneratePuzzle` puts on the board: a filled solution and a copy of it with
      clues removed in symmetric pairs. */
  method MakeSymmetricPuzzle(clues: int, symmetry: SymmetryStyle, seed: Option<int>,
                             seeded: int -> (nat -> seq<int>), shared: nat -> seq<int>, order: seq<int>)
    returns (solution: array2<int>, puzzle: array2<int>)
    requires IsShuffleStream(FillStream(seed, seeded, shared))
    requires forall i :: 0 <= i < |order| ==> 0 <= order[i] < 81
    ensures fresh(solution) && fresh(puzzle) && solution != puzzle
    ensures IsGridArray(solution) && IsGridArray(puzzle)
    ensures Snapshot(solution) == Backtrack(EmptyGrid(), FillStream(seed, seeded, shared), 0).grid
    ensures IsSolvedGrid(Snapshot(solution))
    ensures IsPuzzleOf(Snapshot(puzzle), Snapshot(solution))
    ensures Solutions(Snapshot(puzzle)) == {Snapshot(solution)}
    ensures ClueCount(Snapshot(puzzle)) >= if clues < 81 then clues - 1 else 79
    ensures SymmetricZeros(Snapshot(puzzle), symmetry)
  {
    var full := new int[9, 9]((_, _) => 0);
    SameCells(Snapshot(full), EmptyGrid());
    FillGrid(full, seed, seeded, shared);
    FillOfEmptySucceeds(FillStream(seed, seeded, shared), 0);
    ghost var s := Snapshot(full);
    solution := CloneGrid(full);
    puzzle := CloneGrid(full);
    assert SymmetricZeros(Snapshot(puzzle), symmetry);
    RemoveNumbersWithSymmetry(puzzle, clues, symmetry, order);
    ghost var p := Snapshot(puzzle);
    ZerosOfSolved(s);
    if p == s {
      FullGridHasOneSolution(s);
    } else {
      UniquePuzzleSolution(p, s);
    }
  }

  /** The population loop: exactly the clues of the grid become fixed and correctly
      solved, and no cell is a hint. */
  method MarkClues(board: SudokuBoard)
    requires board.Valid()
    modifies board.FixedCells, board.HintCells, board.CorrectlySolvedCells
    ensures forall r, c :: InRange(r, c) ==>
      && board.FixedCells[r, c] == (board.Grid[r, c] != 0)
      && board.CorrectlySolvedCells[r, c] == (board.Grid[r, c] != 0)
      && !board.HintCells[r, c]
  {
    for r := 0 to 9
      invariant forall i, j :: InRange(i, j) && i < r ==>
        && board.FixedCells[i, j] == (board.Grid[i, j] != 0)
        && board.CorrectlySolvedCells[i, j] == (board.Grid[i, j] != 0) && !board.HintCells[i, j]
    {
      for c := 0 to 9
        invariant forall i, j :: InRange(i, j) && (i < r || (i == r && j < c)) ==>
          && board.FixedCells[i, j] == (board.Grid[i, j] != 0)
          && board.CorrectlySolvedCells[i, j] == (board.Grid[i, j] != 0) && !board.HintCells[i, j]
      {
        board.FixedCells[r, c] := board.Grid[r, c] != 0;
        board.HintCells[r, c] := false;
        board.CorrectlySolvedCells[r, c] := board.Grid[r, c] != 0;
      }
    }
  }
}
