/** The options a puzzle is generated with. */
module Options {

  datatype Option<T> = None | Some(value: T)

  /** Declared board shapes; only the standard 9x9 board is ever generated. */
  datatype PuzzleVariant = Standard9x9 | Mini6x6 | Mega16x16 | Irregular

  /** Which cell is emptied together with each removed clue. */
  datatype SymmetryStyle = NoSymmetry | Rotational | Diagonal | Both

  datatype DifficultyLevel = Custom | Easy | Medium | Hard | Expert

  /** An explicit `ClueCount` overrides the difficulty's clue target; a `Seed` makes the
      filled solution grid reproducible. */
  datatype PuzzleOptions = PuzzleOptions(
    Difficulty: DifficultyLevel,
    Symmetry: SymmetryStyle,
    Variant: PuzzleVariant,
    Seed: Option<int>,
    ClueCount: Option<int>)

  /** The options a `new PuzzleOptions()` starts with. */
  function DefaultOptions(): PuzzleOptions {
    PuzzleOptions(Medium, NoSymmetry, Standard9x9, None, None)
  }
}
