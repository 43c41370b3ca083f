/** The game engine: the rules of play on top of a board.  A move on the selected cell
    either toggles a pencil note or is a guess; a right guess fills the cell and scores,
    a wrong one is counted and costs points, four wrong guesses end the game and a board
    whose every cell is correctly solved wins it.  Hints fill the first empty cell with
    its solution digit at a cost.  Saving, timing and messages are not modelled. */
module Engine {
  import opened Grids
  import opened Rules
  import opened Search
  import opened Solver
  import opened Options
  import opened Board
  import opened Generator

  /** The number of wrong guesses that ends a game. */
  const MaxWrongGuesses := 4

  /** Every cell of a 9x9 flag array is set (the win test). */
  predicate AllSet(a: array2<bool>)
    requires IsGridArray(a)
    reads a
  {
    forall r, c :: 0 <= r < 9 && 0 <= c < 9 ==> a[r, c]
  }

  class GameEngine {
    var board: SudokuBoard?
    var wrongCells: array2<bool>
    var IsGamePaused: bool
    var IsGameOver: bool
    var IsGameWon: bool
    var PencilMode: bool
    var WrongGuessCount: int
    var HintCount: int
    var CurrentScore: int
    var SelectedCell: Option<(int, int)>

    /** The wrong-guess flags are a 9x9 array of their own, the board (when there is one)
        is well formed, and the counters and the score are never negative. */
    ghost predicate Valid()
      reads this, board
    {
      && IsGridArray(wrongCells)
      && (board != null ==>
            && board.Valid()
            && wrongCells != board.FixedCells && wrongCells != board.HintCells
            && wrongCells != board.CorrectlySolvedCells)
      && WrongGuessCount >= 0 && HintCount >= 0 && CurrentScore >= 0
    }

    /** The arrays a move may write. */
    ghost function MoveFrame(): set<object>
      reads this, board
    {
      {wrongCells as object} +
      if board == null then {} else {board.Grid as object, board.CorrectlySolvedCells as object, board.Notes as object}
    }

    /** A board is loaded, a cell is selected and the game is not paused. */
    predicate Playing()
      reads this
    {
      board != null && SelectedCell.Some? && !IsGamePaused
    }

    /** When a move would act, the selected cell is on the board. */
    predicate SelectionOnBoard()
      reads this
    {
      Playing() ==> InRange(SelectedCell.value.0, SelectedCell.value.1)
    }

    /** A new engine: no board, an empty wrong-guess array, all flags off, counters zero. */
    constructor ()
      ensures Valid() && fresh(wrongCells)
      ensures board == null && SelectedCell.None?
      ensures !IsGamePaused && !IsGameOver && !IsGameWon && !PencilMode
      ensures WrongGuessCount == 0 && HintCount == 0 && CurrentScore == 0
      ensures forall r, c :: InRange(r, c) ==> !wrongCells[r, c]
    {
      board := null;
      wrongCells := new bool[9, 9]((_, _) => false);
      IsGamePaused, IsGameOver, IsGameWon, PencilMode := false, false, false, false;
      WrongGuessCount, HintCount, CurrentScore := 0, 0, 0;
      SelectedCell := None;
    }

    /** Points for a right guess: 20, less 2 per hint taken, but never below 5. */
    function GetPointsForMove(): (points: int)
      reads this
      ensures 5 <= points
      ensures HintCount >= 0 ==> points <= 20
      ensures HintCount <= 7 ==> points == 20 - 2 * HintCount
      ensures HintCount >= 8 ==> points == 5
    {
      if 20 - HintCount * 2 > 5 then 20 - HintCount * 2 else 5
    }

    /** Starts a new game on a freshly generated board: no wrong guesses, hints or points,
        paused, nothing selected, pencil mode off. */
    method InitializeNewGame(options: PuzzleOptions, seeded: int -> (nat -> seq<int>), shared: nat -> seq<int>,
                             order: seq<int>)
      requires IsShuffleStream(FillStream(options.Seed, seeded, shared))
      requires forall i :: 0 <= i < |order| ==> 0 <= order[i] < 81
      modifies this
      ensures Valid() && board != null && fresh(board) && fresh(wrongCells)
      ensures board.IsFreshPuzzle()
      ensures Snapshot(board.Solution) == Backtrack(EmptyGrid(), FillStream(options.Seed, seeded, shared), 0).grid
      ensures forall r, c :: InRange(r, c) ==> !wrongCells[r, c]
      ensures WrongGuessCount == 0 && HintCount == 0 && CurrentScore == 0
      ensures !IsGameOver && !IsGameWon && IsGamePaused && SelectedCell.None? && !PencilMode
    {
      var b := GeneratePuzzle(options, seeded, shared, order);
      StartGame(b);
    }

    /** The resets that follow generation. */
    method StartGame(b: SudokuBoard)
      requires b.Valid()
      modifies this
      ensures Valid() && board == b && fresh(wrongCells)
      ensures forall r, c :: InRange(r, c) ==> !wrongCells[r, c]
      ensures WrongGuessCount == 0 && HintCount == 0 && CurrentScore == 0
      ensures !IsGameOver && !IsGameWon && IsGamePaused && SelectedCell.None? && !PencilMode
    {
      var wrong := new bool[9, 9]((_, _) => false);
      board, wrongCells, WrongGuessCount, HintCount, CurrentScore, IsGameOver, IsGameWon, IsGamePaused, SelectedCell, PencilMode :=
        b, wrong, 0, 0, 0, false, false, true, None, false;
    }

    /** Pauses a running game; does nothing without a board or when already paused. */
    method PauseGame()
      modifies this`IsGamePaused
      ensures IsGamePaused == (old(IsGamePaused) || board != null)
    {
      if board == null || IsGamePaused {
        return;
      }
      IsGamePaused := true;
    }

    /** Resumes a paused game; does nothing without a board or when not paused. */
    method ResumeGame()
      modifies this`IsGamePaused
      ensures IsGamePaused == (old(IsGamePaused) && board == null)
    {
      if board == null || !IsGamePaused {
        return;
      }
      IsGamePaused := false;
    }

    /** Selects a cell, unless there is no board or the game is paused. */
    method SelectCell(row: int, col: int)
      modifies this`SelectedCell
      ensures SelectedCell == if board == null || IsGamePaused then old(SelectedCell) else Some((row, col))
    {
      if board == null || IsGamePaused {
        return;
      }
      SelectedCell := Some((row, col));
    }

    method DeselectCell()
      modifies this`SelectedCell
      ensures SelectedCell.None?
    {
      SelectedCell := None;
    }

    method TogglePencilMode()
      modifies this`PencilMode
      ensures PencilMode == !old(PencilMode)
    {
      PencilMode := !PencilMode;
    }

    /** A move with `number` on the selected cell.  Nothing happens without a board or a
        selection, while paused, or on a fixed or correctly solved cell.  In pencil mode the
        note `number` is toggled.  Otherwise the number is a guess: when it is the solution
        digit the cell is filled, marked correctly solved and no longer wrong, and the score
        gains `GetPointsForMove()`; otherwise the cell is flagged wrong, one more wrong guess
        is counted and the score drops by 5 but not below 0.  After a guess the game is over
        at `MaxWrongGuesses` wrong guesses, and won when every cell is correctly solved. */
    method PlaceNumber(number: int)
      requires Valid() && SelectionOnBoard()
      modifies this`WrongGuessCount, this`CurrentScore, this`IsGameOver, this`IsGameWon, MoveFrame()
      ensures Valid()
      ensures !old(Playing() && board.CanEditCell(SelectedCell.value.0, SelectedCell.value.1)) ==>
        && unchanged(this) && unchanged(wrongCells)
        && (board != null ==> unchanged(board.Grid, board.CorrectlySolvedCells, board.Notes))
      ensures old(Playing() && board.CanEditCell(SelectedCell.value.0, SelectedCell.value.1)) ==>
        var (r, c) := SelectedCell.value;
        && (PencilMode ==>
              && board.Notes[r, c] == Toggled(old(board.Notes[r, c]), number)
              && (forall i, j :: InRange(i, j) && (i != r || j != c) ==> board.Notes[i, j] == old(board.Notes[i, j]))
              && unchanged(this) && unchanged(wrongCells) && unchanged(board.Grid, board.CorrectlySolvedCells))
        && (!PencilMode ==>
              && Guessed(r, c, number, old(Snapshot(board.Grid)), old(board.CorrectlySolvedCells[r, c]),
                         old(wrongCells[r, c]), old(WrongGuessCount), old(CurrentScore), old(GetPointsForMove()))
              && (forall i, j :: InRange(i, j) && (i != r || j != c) ==>
                    board.CorrectlySolvedCells[i, j] == old(board.CorrectlySolvedCells[i, j]) &&
                    wrongCells[i, j] == old(wrongCells[i, j]))
              && unchanged(board.Notes)
              && IsGameOver == (old(IsGameOver) || WrongGuessCount >= MaxWrongGuesses)
              && IsGameWon == (old(IsGameWon) || (WrongGuessCount < MaxWrongGuesses && AllSet(board.CorrectlySolvedCells))))
      ensures board != null && old(board.Consistent()) ==> board.Consistent()
    {
      if board == null || SelectedCell.None? || IsGamePaused {
        return;
      }
      var (r, c) := SelectedCell.value;
      if board.FixedCells[r, c] || board.CorrectlySolvedCells[r, c] {
        return;
      }
      if PencilMode {
        if number in board.Notes[r, c] {
          board.Notes[r, c] := board.Notes[r, c] - {number};
        } else {
          board.Notes[r, c] := board.Notes[r, c] + {number};
        }
        return;
      }
      Guess(r, c, number);
      CheckGameEnd();
    }

    /** The effect of a guess on the guessed cell and on the counters. */
    ghost predicate Guessed(r: int, c: int, number: int, grid0: Grid, correct0: bool, wrong0: bool,
                            wrongCount0: int, score0: int, points: int)
      requires Valid() && board != null && InRange(r, c)
      reads this, board, board.Grid, board.Solution, board.CorrectlySolvedCells, wrongCells
    {
      if number == board.Solution[r, c] then
        && Snapshot(board.Grid) == Place(grid0, r, c, number)
        && board.CorrectlySolvedCells[r, c] && !wrongCells[r, c]
        && WrongGuessCount == wrongCount0 && CurrentScore == score0 + points
      else
        && Snapshot(board.Grid) == grid0
        && board.CorrectlySolvedCells[r, c] == correct0 && wrongCells[r, c]
        && WrongGuessCount == wrongCount0 + 1 && CurrentScore == (if score0 - 5 > 0 then score0 - 5 else 0)
    }

    /** The guess part of `PlaceNumber`. */
    method Guess(r: int, c: int, number: int)
      requires Valid() && board != null && InRange(r, c)
      modifies this`WrongGuessCount, this`CurrentScore, board.Grid, board.CorrectlySolvedCells, wrongCells
      ensures Valid()
      ensures Guessed(r, c, number, old(Snapshot(board.Grid)), old(board.CorrectlySolvedCells[r, c]),
                      old(wrongCells[r, c]), old(WrongGuessCount), old(CurrentScore), old(GetPointsForMove()))
      ensures forall i, j :: InRange(i, j) && (i != r || j != c) ==>
        board.CorrectlySolvedCells[i, j] == old(board.CorrectlySolvedCells[i, j]) &&
        wrongCells[i, j] == old(wrongCells[i, j])
      ensures old(board.Consistent()) ==> board.Consistent()
    {
      if number == board.Solution[r, c] {
        WriteCell(board.Grid, r, c, number);
        board.CorrectlySolvedCells[r, c] := true;
        wrongCells[r, c] := false;
        CurrentScore := CurrentScore + GetPointsForMove();
      } else {
        wrongCells[r, c] := true;
        WrongGuessCount := WrongGuessCount + 1;
        CurrentScore := if CurrentScore - 5 > 0 then CurrentScore - 5 else 0;
      }
    }

    /** The end-of-move check: game over at `MaxWrongGuesses` wrong guesses, otherwise a
        win once every cell is correctly solved. */
    method CheckGameEnd()
      requires Valid() && board != null
      modifies this`IsGameOver, this`IsGameWon
      ensures IsGameOver == (old(IsGameOver) || WrongGuessCount >= MaxWrongGuesses)
      ensures IsGameWon == (old(IsGameWon) || (WrongGuessCount < MaxWrongGuesses && AllSet(board.CorrectlySolvedCells)))
    {
      if WrongGuessCount >= MaxWrongGuesses {
        IsGameOver := true;
      } else if AllSet(board.CorrectlySolvedCells) {
        IsGameWon := true;
      }
    }

    /** A game won on a consistent board ends with the grid equal to the solution. */
    lemma WonGridIsSolution()
      requires Valid() && board != null && board.Consistent() && AllSet(board.CorrectlySolvedCells)
      ensures Snapshot(board.Grid) == Snapshot(board.Solution)
    {
      board.AllCorrectIsSolution();
    }

    /** Empties the selected cell unless it is fixed: its digit, its correct mark, its wrong
        flag and its notes are all cleared, even when it was correctly solved.  Nothing
        happens without a board or a selection, or while paused. */
    method Erase()
      requires Valid() && SelectionOnBoard()
      modifies MoveFrame()
      ensures Valid()
      ensures !old(Playing() && !board.FixedCells[SelectedCell.value.0, SelectedCell.value.1]) ==>
        && unchanged(wrongCells) && (board != null ==> unchanged(board.Grid, board.CorrectlySolvedCells, board.Notes))
      ensures old(Playing() && !board.FixedCells[SelectedCell.value.0, SelectedCell.value.1]) ==>
        var (r, c) := SelectedCell.value;
        && Snapshot(board.Grid) == Place(old(Snapshot(board.Grid)), r, c, 0)
        && !board.CorrectlySolvedCells[r, c] && !wrongCells[r, c] && board.Notes[r, c] == {}
        && (forall i, j :: InRange(i, j) && (i != r || j != c) ==>
              && board.CorrectlySolvedCells[i, j] == old(board.CorrectlySolvedCells[i, j])
              && wrongCells[i, j] == old(wrongCells[i, j]) && board.Notes[i, j] == old(board.Notes[i, j]))
      ensures board != null && old(board.Consistent()) ==> board.Consistent()
    {
      if board == null || SelectedCell.None? || IsGamePaused {
        return;
      }
      var (r, c) := SelectedCell.value;
      if board.FixedCells[r, c] {
        return;
      }
      WriteCell(board.Grid, r, c, 0);
      board.CorrectlySolvedCells[r, c] := false;
      wrongCells[r, c] := false;
      board.Notes[r, c] := {};
    }

    /** Fills the first empty cell (row-major) with its solution digit and marks it
        correctly solved; one more hint is counted and the score drops by 10 but not below
        0.  Nothing happens without a board, while paused, or when no cell is empty. */
    method GiveHint()
      requires Valid()
      modifies this`HintCount, this`CurrentScore, MoveFrame()
      ensures Valid()
      ensures unchanged(wrongCells) && (board != null ==> unchanged(board.Notes))
      ensures board == null || IsGamePaused || FirstZero(old(Snapshot(board.Grid))) == 81 ==>
        && HintCount == old(HintCount) && CurrentScore == old(CurrentScore)
        && (board != null ==> unchanged(board.Grid, board.CorrectlySolvedCells))
      ensures board != null && !IsGamePaused && FirstZero(old(Snapshot(board.Grid))) < 81 ==>
        var k := FirstZero(old(Snapshot(board.Grid)));
        && Snapshot(board.Grid) == Place(old(Snapshot(board.Grid)), k / 9, k % 9, board.Solution[k / 9, k % 9])
        && board.CorrectlySolvedCells[k / 9, k % 9]
        && (forall i, j :: InRange(i, j) && (i != k / 9 || j != k % 9) ==>
              board.CorrectlySolvedCells[i, j] == old(board.CorrectlySolvedCells[i, j]))
        && HintCount == old(HintCount) + 1
        && CurrentScore == if old(CurrentScore) - 10 > 0 then old(CurrentScore) - 10 else 0
      ensures board != null && old(board.Consistent()) ==> board.Consistent()
    {
      if board == null || IsGamePaused {
        return;
      }
      var found, r, c := FindEmptyCell(board.Grid);
      if found {
        assert (9 * r + c) / 9 == r && (9 * r + c) % 9 == c;
        WriteCell(board.Grid, r, c, board.Solution[r, c]);
        board.CorrectlySolvedCells[r, c] := true;
        HintCount := HintCount + 1;
        CurrentScore := if CurrentScore - 10 > 0 then CurrentScore - 10 else 0;
      }
    }

    /** The `WrongCells` property: a fresh copy of the wrong-guess flags. */
    method WrongCells() returns (copy: array2<bool>)
      requires Valid()
      ensures fresh(copy) && IsGridArray(copy)
      ensures forall r, c :: InRange(r, c) ==> copy[r, c] == wrongCells[r, c]
    {
      copy := new bool[9, 9];
      CopyCells(wrongCells, copy);
    }
  }
}
