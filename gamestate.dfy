/** The saved form of a game: the board's 9x9 arrays stored as arrays of nine rows, the
    counters and flags of the engine, and the notes keyed by cell.  The two copy helpers
    move the 9x9 region between a two-dimensional array and its row form. */
module SavedState {
  import opened Options

  /** A two-dimensional array whose first nine rows and columns exist. */
  predicate Covers9<T>(a: array2<T>) {
    a.Length0 >= 9 && a.Length1 >= 9
  }

  /** An array of at least nine rows, the first nine of which are distinct arrays of at
      least nine cells.  (No row is the outer array itself: a row of a `T[][]` is a `T[]`,
      which the verifier does not know to be a different type for a type parameter `T`.) */
  predicate IsRows9<T>(d: array<array<T>>)
    reads d
  {
    && d.Length >= 9
    && (forall i :: 0 <= i < 9 ==> d[i].Length >= 9 && d[i] as object != d)
    && (forall i, j :: 0 <= i < j < 9 ==> d[i] != d[j])
  }

  /** The first nine rows of a row array. */
  ghost function Rows9<T>(d: array<array<T>>): set<object>
    requires d.Length >= 9
    reads d
  {
    set i | 0 <= i < 9 :: d[i] as object
  }

  /** Nine fresh rows of nine cells, each holding `v`. */
  method NewRows<T>(v: T) returns (d: array<array<T>>)
    ensures fresh(d) && d.Length == 9 && IsRows9(d)
    ensures forall i :: 0 <= i < 9 ==> fresh(d[i]) && d[i].Length == 9
    ensures forall r, c :: 0 <= r < 9 && 0 <= c < 9 ==> d[r][c] == v
  {
    var rows: seq<array<T>> := [];
    for i := 0 to 9
      invariant |rows| == i
      invariant forall k :: 0 <= k < i ==> fresh(rows[k]) && rows[k].Length == 9
      invariant forall k, c :: 0 <= k < i && 0 <= c < 9 ==> rows[k][c] == v
      invariant forall k, l :: 0 <= k < l < i ==> rows[k] != rows[l]
    {
      var row := new T[9](_ => v);
      rows := rows + [row];
    }
    d := new array<T>[9](i requires 0 <= i < 9 reads {} => rows[i]);
  }

  /** `CopyFromMultiArray`: the 9x9 region of `source` is written into the first nine
      rows of `destination`; the cells past the ninth column keep their values. */
  method CopyFromMultiArray<T>(source: array2<T>, destination: array<array<T>>)
    requires Covers9(source) && IsRows9(destination)
    modifies Rows9(destination)
    ensures forall r, c :: 0 <= r < 9 && 0 <= c < 9 ==> destination[r][c] == source[r, c]
    ensures forall r, c :: 0 <= r < 9 && 9 <= c < destination[r].Length ==> destination[r][c] == old(destination[r][c])
  {
    for r := 0 to 9
      invariant forall i, c :: 0 <= i < r && 0 <= c < 9 ==> destination[i][c] == source[i, c]
      invariant forall i, c :: 0 <= i < 9 && 9 <= c < destination[i].Length ==> destination[i][c] == old(destination[i][c])
    {
      for c := 0 to 9
        invariant forall i, k :: 0 <= i < r && 0 <= k < 9 ==> destination[i][k] == source[i, k]
        invariant forall k :: 0 <= k < c ==> destination[r][k] == source[r, k]
        invariant forall i, k :: 0 <= i < 9 && 9 <= k < destination[i].Length ==> destination[i][k] == old(destination[i][k])
      {
        destination[r][c] := source[r, c];
      }
    }
  }

  /** `CopyToMultiArray`: the first nine rows of `source` are written into the 9x9 region
      of `destination`; the cells outside that region keep their values. */
  method CopyToMultiArray<T>(source: array<array<T>>, destination: array2<T>)
    requires Covers9(destination)
    requires source.Length >= 9 && forall i :: 0 <= i < 9 ==> source[i].Length >= 9
    modifies destination
    ensures forall r, c :: 0 <= r < 9 && 0 <= c < 9 ==> destination[r, c] == source[r][c]
    ensures forall r, c :: 0 <= r < destination.Length0 && 0 <= c < destination.Length1 && (r >= 9 || c >= 9) ==>
      destination[r, c] == old(destination[r, c])
  {
    for r := 0 to 9
      invariant forall i, c :: 0 <= i < r && 0 <= c < 9 ==> destination[i, c] == source[i][c]
      invariant forall i, c :: 0 <= i < destination.Length0 && 0 <= c < destination.Length1 && (i >= 9 || c >= 9) ==>
        destination[i, c] == old(destination[i, c])
    {
      for c := 0 to 9
        invariant forall i, k :: 0 <= i < r && 0 <= k < 9 ==> destination[i, k] == source[i][k]
        invariant forall k :: 0 <= k < c ==> destination[r, k] == source[r][k]
        invariant forall i, k :: 0 <= i < destination.Length0 && 0 <= k < destination.Length1 && (i >= 9 || k >= 9) ==>
          destination[i, k] == old(destination[i, k])
      {
        destination[r, c] := source[r][c];
      }
    }
  }

  /** Saving a 9x9 region into rows and loading it back leaves the region as it was. */
  method SaveAndLoad<T>(m: array2<T>, d: array<array<T>>)
    requires Covers9(m) && IsRows9(d)
    modifies m, Rows9(d)
    ensures forall r, c :: 0 <= r < m.Length0 && 0 <= c < m.Length1 ==> m[r, c] == old(m[r, c])
    ensures forall r, c :: 0 <= r < 9 && 0 <= c < 9 ==> d[r][c] == old(m[r, c])
  {
    CopyFromMultiArray(m, d);
    CopyToMultiArray(d, m);
  }

  class GameState {
    var Grid: array<array<int>>
    var Solution: array<array<int>>
    var FixedCells: array<array<bool>>
    var HintCells: array<array<bool>>
    var CorrectlySolvedCells: array<array<bool>>
    var WrongCells: array<array<bool>>
    var SelectedDifficulty: string
    var WrongGuessCount: int
    var HintCount: int
    var CurrentScore: int
    var IsGameOver: bool
    var IsGameWon: bool
    var PencilMode: bool
    var IsPaused: bool
    var SelectedRow: Option<int>
    var SelectedCol: Option<int>
    var Notes: map<string, seq<int>>

    /** Each of the six grids is nine rows of nine cells. */
    ghost predicate Valid()
      reads this, Grid, Solution, FixedCells, HintCells, CorrectlySolvedCells, WrongCells
    {
      && IsRows9(Grid) && IsRows9(Solution) && IsRows9(FixedCells)
      && IsRows9(HintCells) && IsRows9(CorrectlySolvedCells) && IsRows9(WrongCells)
    }

    /** A new saved state: six grids of nine fresh rows, all cells 0 or false, difficulty
        "Medium", no counters, flags, selection or notes. */
    constructor ()
      ensures Valid() && fresh(Grid) && fresh(Solution) && fresh(FixedCells)
      ensures fresh(HintCells) && fresh(CorrectlySolvedCells) && fresh(WrongCells)
      ensures forall r, c :: 0 <= r < 9 && 0 <= c < 9 ==>
        && Grid[r][c] == 0 && Solution[r][c] == 0 && !FixedCells[r][c]
        && !HintCells[r][c] && !CorrectlySolvedCells[r][c] && !WrongCells[r][c]
      ensures SelectedDifficulty == "Medium" && WrongGuessCount == 0 && HintCount == 0 && CurrentScore == 0
      ensures !IsGameOver && !IsGameWon && !PencilMode && !IsPaused
      ensures SelectedRow.None? && SelectedCol.None? && Notes == map[]
    {
      var grid := NewRows(0);
      var solution := NewRows(0);
      var fixedCells := NewRows(false);
      var hintCells := NewRows(false);
      var correct := NewRows(false);
      var wrong := NewRows(false);
      Grid, Solution, FixedCells, HintCells, CorrectlySolvedCells, WrongCells :=
        grid, solution, fixedCells, hintCells, correct, wrong;
      SelectedDifficulty := "Medium";
      WrongGuessCount, HintCount, CurrentScore := 0, 0, 0;
      IsGameOver, IsGameWon, PencilMode, IsPaused := false, false, false, false;
      SelectedRow, SelectedCol := None, None;
      Notes := map[];
    }
  }
}
