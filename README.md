# SudokuWASM core in Dafny

This project models the core of SudokuWASM, a browser Sudoku game written in C#:

- **The solver.** It has a safety check for one placement, a backtracking solve that works in place, and an exhaustive count of completions. All three work on a 9x9 `int` grid where 0 is an empty cell.
- **The two puzzle generators.**
  - The board's own generator does a randomized fill, then greedily removes clues one at a time.
  - The generator service does a seeded fill, then removes clues in symmetric pairs.
  - In both, a removal is kept only while the puzzle has exactly one completion.
- **The board.** It holds the grid, the solution, the fixed, hint and correctly-solved flags, and the pencil notes, together with the operations the game applies to them.
- **The game engine.** It decides placing a number, pencil notes, wrong-guess counting, the score clamped at 0, game over at four wrong guesses, the win, hints, erasing and pausing.
- **The saved-game form.** It moves the board's arrays between two-dimensional and jagged form.
- **The integer part of the scoring service.**
- **The statistics and recent-games update** the local-storage service performs when a game ends, its test for a saved game worth resuming (`GameStore.HasSavedGame`: a game is stored and it is neither won nor over), and the save, delete and clear calls that change what is stored.

Randomness is an input:

- The board fill draws candidate orders from a *shuffle stream* `shuffles: nat -> seq<int>`. Its `t`-th entry is the `t`-th `Enumerable.Range(1, 9).OrderBy(_ => rng.Next())` the fill asks for.
- Removal takes the order in which the 81 cells are tried as a sequence `order`.

Module layout, following the source:

| module | file | source |
|---|---|---|
| `Grids` | grids.dfy | the `int[,]` grid. A grid's value is its 81 cells in row-major order (`Snapshot`). |
| `Rules` | rules.dfy | the Sudoku constraints. `Solutions(g)` is the ghost set of completions the solver's traversal reaches, and `IsCompletion` characterises it independently. |
| `Search` | search.dfy | the backtracking shared by `Solve`, `SudokuBoard.FillGrid` and the generator's `Fill`, written as the ghost function `Backtrack`. |
| `Solver` | solver.dfy | `SudokuSolver`. |
| `Board` | board.dfy | `SudokuBoard`. |
| `Options` | options.dfy | `PuzzleOptions` and its enums. |
| `Generator` | generator.dfy | `PuzzleGeneratorService`. |
| `Engine` | engine.dfy | `GameEngine`. |
| `SavedState` | gamestate.dfy | `GameState`. |
| `Scoring` | scoring.dfy | `GameScoringService`. |
| `Persistence` | persistence.dfy | the statistics and recent-games part of `LocalStorageGamePersistenceService`, and `GameStatistics` / `DifficultyStats` / `CompletedGame`. |

## Model

| member | source | states |
|---|---|---|
| Grids.CloneGrid | SudokuWASM/SudokuBoard.cs:89 | `(int[,])grid.Clone()` gives a fresh 9x9 array holding the same 81 cells |
| Rules.SafeIsPeersFreeAndNotHere | SudokuWASM/SudokuSolver.cs:52-64 | the solver's check (target cell included) holds iff the board's check (target cell skipped) holds and the target cell does not already hold the digit |
| Rules.SolutionsAreCompletions | SudokuWASM/SudokuSolver.cs:34-50 | the completions the row-major, ascending-digit traversal reaches are exactly the grids that keep every clue, put 1..9 into every empty cell, and differ from every peer of a formerly empty cell |
| Rules.SolutionsAtFirstEmpty | SudokuWASM/SudokuSolver.cs:36-40 | the traversal branches at the first empty cell in row-major order and tries digits from 1 |
| Rules.SolutionsFromSplit | SudokuWASM/SudokuSolver.cs:40-46 | each safe digit contributes its own disjoint set of completions, so the count is the sum over the digits; an unsafe digit contributes nothing |
| Rules.FullGridHasOneSolution | SudokuWASM/SudokuSolver.cs:49 | a grid without empty cells is counted once, as its own only completion |
| Rules.CompletionsOfEmptyAreSolvedGrids | SudokuWASM/SudokuBoard.cs:35-36 | the completions of the empty grid are exactly the full valid Sudokus (each row, column and box holds 1..9 once) |
| Rules.SolvedGridCompletesItsPuzzles | SudokuWASM/SudokuBoard.cs:79-100 | emptying cells of a full valid Sudoku keeps that Sudoku among the puzzle's completions |
| Rules.UniquePuzzleSolution | SudokuWASM/SudokuBoard.cs:90 | a puzzle cut from a full valid Sudoku whose completion count is 1 has that Sudoku as its only completion |
| Search.AscendingIsShuffleStream | SudokuWASM/SudokuSolver.cs:14 | the solver's fixed order 1..9 is a valid candidate order at every cell |
| Search.BacktrackAtFirstEmpty | SudokuWASM/SudokuBoard.cs:57-62 | at the first empty cell the fill draws one shuffle and tries it from its first entry |
| Search.AscendingIgnoresDraws | SudokuWASM/SudokuSolver.cs:8-25 | with the fixed order the result of the search does not depend on how many orders were drawn before |
| Search.BacktrackCorrect | SudokuWASM/SudokuBoard.cs:55-77 | for every shuffle stream, a successful search ends in a completion of its grid, and a failed one leaves the grid as it was and happens only when there is no completion |
| Search.TryEachCorrect | SudokuWASM/SudokuBoard.cs:63-72 | trying candidates in order succeeds only under a safe digit, with a completion of the grid with that digit placed; failure leaves the grid unchanged |
| Search.TryEachExhausts | SudokuWASM/SudokuBoard.cs:63-73 | when every candidate has failed, no safe candidate has a completion |
| Search.FillOfEmptySucceeds | SudokuWASM/SudokuBoard.cs:35-36 | filling the empty grid never fails, whatever the random orders, and yields a full valid Sudoku |
| Search.PatternGridIsSolved | SudokuWASM/SudokuBoard.cs:55-77 | a full valid Sudoku exists (the witness behind the previous row) |
| Solver.IsSafe | SudokuWASM/SudokuSolver.cs:52-64 | true iff `num` occurs nowhere in the row, the column or the 3x3 box at `(row - row%3, col - col%3)`, the target cell included; reads the grid only |
| Solver.Solve | SudokuWASM/SudokuSolver.cs:8-25 | returns true iff the grid has a completion; on success the grid is that completion (the first in traversal order), and on failure the grid is restored exactly |
| Solver.PlaceAndSolve | SudokuWASM/SudokuSolver.cs:17-20 | place, recurse, and on failure empty the cell again, so the grid is as it was |
| Solver.CountSolutions | SudokuWASM/SudokuSolver.cs:27-32 | the result is the number of completions of the grid, and the grid is left exactly as passed in |
| Solver.CountSolutionsHelper | SudokuWASM/SudokuSolver.cs:34-50 | adds the number of completions to the `ref` counter and restores the grid; there is no early exit |
| Solver.CountAt | SudokuWASM/SudokuSolver.cs:40-47 | the candidate loop at an empty cell adds the completions under every safe digit 1..9 |
| Solver.PlaceAndCount | SudokuWASM/SudokuSolver.cs:43-45 | place, count, and reset the cell, so the grid is unchanged |
| Solver.FindEmptyCell | SudokuWASM/SudokuSolver.cs:36-38 | the row-major scan finds the first empty cell, or reports that the grid has none |
| Board.Toggled | SudokuWASM/SudokuBoard.cs:247-250 | the toggled note set holds `v` iff the old one did not, and agrees with it on every other digit |
| Board.ToggledTwice | SudokuWASM/SudokuBoard.cs:243-252 | toggling the same note twice restores the note set |
| Board.FillGrid | SudokuWASM/SudokuBoard.cs:55-77 | the in-place fill computes exactly `Backtrack` over the shuffle stream: the same success, the same grid and the same number of draws; on failure the grid is unchanged |
| Board.PlaceAndFill | SudokuWASM/SudokuBoard.cs:67-70 | place, fill recursively, and on failure empty the cell again |
| Board.RemoveNumbers | SudokuWASM/SudokuBoard.cs:79-100 | the result only empties cells; it has exactly one completion unless nothing was removed; and it keeps at least `clues` clues for `clues < 81`, since each kept removal empties exactly one cell |
| Board.TryRemove | SudokuWASM/SudokuBoard.cs:86-98 | a removal is kept only when the count on the copy is 1 (the grid then has one clue less), otherwise the backed-up digit is restored |
| Board.MakePuzzle | SudokuWASM/SudokuBoard.cs:35-42 | the solution is the fill of the empty grid, a full valid Sudoku; the puzzle is cut from it, its only completion is the solution, and it keeps at least the target number of clues |
| Board.SudokuBoard.constructor | SudokuWASM/SudokuBoard.cs:17-24 | a board of six fresh 9x9 arrays with empty note sets; unless generation is skipped, it holds a freshly generated puzzle with the default 30 clues |
| Board.SudokuBoard.LockedCellIsSolved | SudokuWASM/SudokuBoard.cs:131-135 | on a consistent board, a cell `CanEditCell` refuses already holds its solution digit (1..9), so locking never freezes a wrong value |
| Board.SudokuBoard.CorrectMoveAgreesWithCompletion | SudokuWASM/SudokuBoard.cs:124-128 | on a fresh puzzle, `IsCorrectMove` holds iff `value` is the digit every completion of the grid puts in the cell (there is exactly one completion) |
| Board.SudokuBoard.IsValidMove | SudokuWASM/SudokuBoard.cs:102-121 | false outside 1..9; otherwise true iff the value occurs in no other cell of the row, the column or the box (the target cell is skipped) |
| Board.SudokuBoard.IsComplete | SudokuWASM/SudokuBoard.cs:156-162 | true iff no cell is empty, i.e. the grid has 81 clues |
| Board.SudokuBoard.AllCorrectIsSolution | SudokuWASM/SudokuBoard.cs:15 | on a consistent board where every cell is marked correctly solved, the grid equals the solution |
| Board.SudokuBoard.SetCell | SudokuWASM/SudokuBoard.cs:164-217 | a non-editable cell changes nothing; otherwise the value is written and the cell's notes are cleared; the cell is marked correct iff the value is nonzero and its solution digit; a digit 1..9 is struck from the notes of every other cell in the row, column and box; nothing else changes, and board consistency is kept |
| Board.SudokuBoard.StrikeFromPeerNotes | SudokuWASM/SudokuBoard.cs:194-216 | removes the digit from the notes of exactly the peers of the cell, not the cell itself |
| Board.SudokuBoard.AddHint | SudokuWASM/SudokuBoard.cs:219-229 | a fixed cell is left alone; otherwise the value is written, the cell becomes fixed, hint and correctly solved with no notes, and other cells are untouched; a hint with the solution digit keeps the board consistent |
| Board.SudokuBoard.AddNote | SudokuWASM/SudokuBoard.cs:231-235 | adds the note only on an editable cell and for a digit 1..9; every other note set is unchanged |
| Board.SudokuBoard.RemoveNote | SudokuWASM/SudokuBoard.cs:237-241 | removes the note only on an editable cell and for a digit 1..9; every other note set is unchanged |
| Board.SudokuBoard.ToggleNote | SudokuWASM/SudokuBoard.cs:243-252 | toggles the note only on an editable cell and for a digit 1..9; otherwise nothing changes |
| Board.SudokuBoard.ClearNotes | SudokuWASM/SudokuBoard.cs:254-258 | empties the notes of an editable cell only |
| Board.SudokuBoard.CopyTo | SudokuWASM/SudokuBoard.cs:266-279 | afterwards every array and every note set of the target equals this board's |
| Board.SudokuBoard.InitializeNotes | SudokuWASM/SudokuBoard.cs:26-31 | every cell's note set is empty |
| Board.SudokuBoard.GenerateNewPuzzle | SudokuWASM/SudokuBoard.cs:33-53 | the new solution is the fill of the empty grid. The grid is a puzzle of it with that solution as its only completion and at least `clues` clues. Exactly the clues are fixed and correctly solved, and there are no hints or notes. The board is consistent |
| Board.SudokuBoard.FreshPuzzleIsConsistent | SudokuWASM/SudokuBoard.cs:44-52 | a freshly populated board satisfies the bookkeeping invariant (correct cells hold their solution digit, fixed cells are correct, hint cells are fixed) |
| Board.SudokuBoard.LoadPuzzle | SudokuWASM/SudokuBoard.cs:44-52 | the grid becomes the puzzle, `FixedCells` and `CorrectlySolvedCells` are exactly the nonzero cells, and hints and notes are cleared |
| Board.CopyCells | SudokuWASM/SudokuBoard.cs:269-278 | every cell of the destination equals the source's |
| Board.ZerosOfSolved | SudokuWASM/SudokuBoard.cs:36 | a full valid Sudoku has no empty cell |
| Generator.DifficultyClues | SudokuWASM/Services/PuzzleGeneratorService.cs:23-30 | the per-difficulty clue target lies in 20..40 |
| Generator.DifficultyCluesDecrease | SudokuWASM/Services/PuzzleGeneratorService.cs:25-29 | Easy > Medium > Hard > Expert in clues, and Custom is treated as Medium |
| Generator.ClueTarget | SudokuWASM/Services/PuzzleGeneratorService.cs:23-30 | an explicit `ClueCount` wins; otherwise the result is the difficulty's target `DifficultyClues(options.Difficulty)`, which lies in 20..40 |
| Generator.SymmetricPartner | SudokuWASM/Services/PuzzleGeneratorService.cs:101-107 | the partner of an on-board cell is on the board, and it is the cell itself exactly for no symmetry, the diagonal under Diagonal, and the centre under Rotational/Both |
| Generator.DefaultOptionsMatchBoardDefault | SudokuWASM/Models/PuzzleOptions.cs:31-38 | options left at their defaults (Medium, no symmetry, no seed, no clue count) aim at the same 30 clues as the board's own generator and pair every cell with itself |
| Generator.PartnerIsInvolution | SudokuWASM/Services/PuzzleGeneratorService.cs:101-107 | the partner of the partner is the cell |
| Generator.RemovingPairKeepsSymmetry | SudokuWASM/Services/PuzzleGeneratorService.cs:108-118 | emptying a cell together with its partner keeps the empty cells symmetric: each cell is empty exactly when its partner is |
| Generator.FillGrid | SudokuWASM/Services/PuzzleGeneratorService.cs:59-87 | the grid becomes `Backtrack` over a stream chosen by the seed alone |
| Generator.RemoveNumbersWithSymmetry | SudokuWASM/Services/PuzzleGeneratorService.cs:89-125 | the result only empties cells and has exactly one completion unless nothing was removed. Starting from a grid whose empty cells are symmetric, the result's empty cells are symmetric too: each cell is empty exactly when its partner is. The clue count can fall one below `clues`: a kept pair empties two cells at once, so from `81 - removed == clues + 1` it ends at `clues - 1`. Counting 2 for a partner that was already empty only overcounts `removed`, which stops the loop earlier with more clues. With symmetric empty cells, the partner of a filled cell is filled, so this cannot happen when removal starts from a full grid |
| Generator.TryRemovePair | SudokuWASM/Services/PuzzleGeneratorService.cs:100-123 | a kept removal empties the cell and its partner and leaves one completion; a rejected one restores both backed-up digits exactly |
| Generator.GeneratePuzzle | SudokuWASM/Services/PuzzleGeneratorService.cs:18-57 | returns a fresh, consistent board. Its solution is fixed by the fill stream alone. Its grid is a uniquely solvable puzzle of the solution, with exactly the clues fixed and correctly solved and no hints or notes. Its empty cells are symmetric under `options.Symmetry`. It has at least `ClueTarget - 1` clues |
| Generator.PopulateBoard | SudokuWASM/Services/PuzzleGeneratorService.cs:40-54 | the board takes the solution and puzzle arrays themselves and becomes a fresh, consistent puzzle |
| Generator.MakeSymmetricPuzzle | SudokuWASM/Services/PuzzleGeneratorService.cs:36-44 | the solution is a full valid Sudoku from the seed's stream; the puzzle has it as only completion and at least `clues - 1` clues; each of its cells is empty exactly when the cell's partner is |
| Generator.MarkClues | SudokuWASM/Services/PuzzleGeneratorService.cs:48-54 | exactly the nonzero cells become fixed and correctly solved, and no cell is a hint |
| Engine.GameEngine.constructor | SudokuWASM/Services/GameEngine.cs:16-31 | no board, all wrong-guess flags clear, every flag off, counters zero, nothing selected |
| Engine.GameEngine.GetPointsForMove | SudokuWASM/Services/GameEngine.cs:330-336 | `max(5, 20 - 2 * HintCount)`: `20 - 2 * HintCount` for up to 7 hints, exactly 5 from 8 hints on, and never outside 5..20 for a non-negative hint count |
| Engine.GameEngine.InitializeNewGame | SudokuWASM/Services/GameEngine.cs:63-86 | a freshly generated board whose solution comes from the seed's stream. Wrong flags and all counters are reset, the game is paused, nothing is selected, and pencil mode is off |
| Engine.GameEngine.StartGame | SudokuWASM/Services/GameEngine.cs:71-79 | the resets after generation |
| Engine.GameEngine.PauseGame | SudokuWASM/Services/GameEngine.cs:111-118 | pauses only when there is a board; an already paused game stays paused |
| Engine.GameEngine.ResumeGame | SudokuWASM/Services/GameEngine.cs:120-127 | resumes only a paused game with a board |
| Engine.GameEngine.SelectCell | SudokuWASM/Services/GameEngine.cs:129-135 | selects the cell unless there is no board or the game is paused |
| Engine.GameEngine.DeselectCell | SudokuWASM/Services/GameEngine.cs:137-141 | nothing is selected |
| Engine.GameEngine.TogglePencilMode | SudokuWASM/Services/GameEngine.cs:216-221 | pencil mode flips |
| Engine.GameEngine.PlaceNumber | SudokuWASM/Services/GameEngine.cs:143-196 | no board, no selection, paused, or a fixed or correctly solved cell: nothing changes. Pencil mode toggles that note only. A correct guess fills the cell, marks it correct, clears its wrong flag and adds the move points. A wrong guess flags it, counts it and lowers the score by 5 but not below 0. Afterwards the game is over at 4 wrong guesses, otherwise won when every cell is correct. The score stays non-negative and the board stays consistent |
| Engine.GameEngine.Guess | SudokuWASM/Services/GameEngine.cs:163-180 | the correct and wrong guess branches on the guessed cell; no other cell changes |
| Engine.GameEngine.CheckGameEnd | SudokuWASM/Services/GameEngine.cs:183-192 | game over takes precedence at 4 wrong guesses; otherwise the game is won iff all cells are correctly solved |
| Engine.GameEngine.WonGridIsSolution | SudokuWASM/Services/GameEngine.cs:188-190 | when the win test holds on a consistent board, the grid is the solution |
| Engine.GameEngine.Erase | SudokuWASM/Services/GameEngine.cs:198-209 | a non-fixed selected cell is emptied and loses its correct mark, its wrong flag and its notes, even when it was correctly solved; nothing else changes |
| Engine.GameEngine.GiveHint | SudokuWASM/Services/GameEngine.cs:223-245 | fills exactly the first empty cell in row-major order with its solution digit, marks it correct, counts the hint and lowers the score by 10 but not below 0; with no board, while paused, or with no empty cell nothing changes |
| Engine.GameEngine.WrongCells | SudokuWASM/Services/GameEngine.cs:343-351 | a fresh 9x9 copy of the wrong-guess flags |
| SavedState.NewRows | SudokuWASM/Models/GameState.cs:46-54 | nine fresh, distinct rows of nine cells holding the default value |
| SavedState.CopyFromMultiArray | SudokuWASM/Models/GameState.cs:58-67 | `destination[r][c] == source[r, c]` on the 9x9 region, and the cells past column 9 keep their values |
| SavedState.CopyToMultiArray | SudokuWASM/Models/GameState.cs:69-78 | `destination[r, c] == source[r][c]` on the 9x9 region, and every cell outside it keeps its value |
| SavedState.SaveAndLoad | SudokuWASM/Models/GameState.cs:58-78 | copying a 9x9 region out to rows and back leaves the array exactly as it was, and the rows hold its cells |
| SavedState.GameState.constructor | SudokuWASM/Models/GameState.cs:10-55 | six fresh grids of nine 9-cell rows, all 0 or false; difficulty "Medium"; counters zero, flags off, no selection and no notes |
| Scoring.Rank | SudokuWASM/Services/GameScoringService.cs:55-80 | helper with no counterpart in the source: the position 0..3 of a difficulty on the order Easy < Medium < Hard < Expert that the three tables follow, unknown names ranking as Medium |
| Scoring.GetBasePointsPerMove | SudokuWASM/Services/GameScoringService.cs:55-62 | points per move lie in 10..75 |
| Scoring.GetDifficultyMultiplier | SudokuWASM/Services/GameScoringService.cs:64-71 | the completion base lies in 100..3000 |
| Scoring.GetCluesCount | SudokuWASM/Services/GameScoringService.cs:73-80 | the scoring clue count lies in 17..40 |
| Scoring.UnknownDifficultyIsMedium | SudokuWASM/Services/GameScoringService.cs:61 | the rank and the three integer tables (points per move, difficulty multiplier, clue count) score an unknown difficulty name as "Medium"; the floating-point time-window table does not (see "## Left out") |
| Scoring.HarderScoresMore | SudokuWASM/Services/GameScoringService.cs:55-80 | a harder difficulty earns strictly more per move and a strictly larger completion base, and has strictly fewer clues |
| Scoring.CalculateCurrentDisplayScore | SudokuWASM/Services/GameScoringService.cs:49-53 | the score is `max(0, base - 2 * wrong * points per move)`: never negative, never below the unclamped value, and equal to it unless clamped to 0 |
| Scoring.DisplayScoreNonIncreasing | SudokuWASM/Services/GameScoringService.cs:49-53 | more wrong guesses never raise the displayed score |
| Scoring.CalculateCompletionBonus | SudokuWASM/Services/GameScoringService.cs:39-43 | the bonus is `max(0, base + time bonus - 5 * wrong * points - 3 * hints * points)`, never negative |
| Scoring.CompletionBonusBounds | SudokuWASM/Services/GameScoringService.cs:39-43 | a perfect game with a non-negative time bonus earns at least the difficulty's base, and more wrong guesses or hints never raise the bonus |
| Persistence.CountGame | SudokuWASM/Services/LocalStorageGamePersistenceService.cs:141-159 | one more game played; a won game (score > 0) adds a win, a perfect game if perfect, and improves the best score and best time; a lost game changes nothing else |
| Persistence.CountGameKeepsTallies | SudokuWASM/Services/LocalStorageGamePersistenceService.cs:145-159 | perfect <= won <= played is kept, the best score never drops and the best time never rises |
| Persistence.Take | SudokuWASM/Services/LocalStorageGamePersistenceService.cs:189 | LINQ `Take`: a prefix of length `min(count, length)`, empty for a non-positive count |
| Persistence.TakeTake | SudokuWASM/Services/LocalStorageGamePersistenceService.cs:164-169 | taking twice is taking the smaller count (used by `WrittenListIsPrefixOfIntended`) |
| Persistence.GameStatistics.constructor | SudokuWASM/Models/GameState.cs:81-94 | nothing played, best time `TimeSpan.MaxValue`, no per-difficulty entries |
| Persistence.GameStatistics.RecordGame | SudokuWASM/Services/LocalStorageGamePersistenceService.cs:119-159 | the totals count the game as `CountGame` does. The game's difficulty gets an entry if missing, and that entry counts the game. Every other difficulty is unchanged, and the tallies stay ordered |
| Persistence.GameStatistics.RecordTotals | SudokuWASM/Services/LocalStorageGamePersistenceService.cs:120-138 | the global totals count the game |
| Persistence.GameStatistics.RecordDifficulty | SudokuWASM/Services/LocalStorageGamePersistenceService.cs:141-159 | the difficulty's entry, created if absent, counts the game |
| Persistence.GameStore.constructor | SudokuWASM/Services/LocalStorageGamePersistenceService.cs:84-99 | empty storage reads back fresh statistics, no recent games and no saved game |
| Persistence.GameStore.HasSavedGame | SudokuWASM/Services/LocalStorageGamePersistenceService.cs:78-82 | true iff a game is stored and it is neither won nor over; `SaveGameState` and `DeleteGameState` are its partners |
| Persistence.GameStore.SaveGameState | SudokuWASM/Services/LocalStorageGamePersistenceService.cs:28-41 | the state becomes the stored game, and a saved game is then offered iff that state is neither won nor over |
| Persistence.GameStore.DeleteGameState | SudokuWASM/Services/LocalStorageGamePersistenceService.cs:66-76 | the stored game is removed, and no saved game is offered afterwards |
| Persistence.GameStore.ClearAllData | SudokuWASM/Services/LocalStorageGamePersistenceService.cs:198-210 | all stored items are removed: the store reads back fresh statistics, no recent games and no saved game |
| Persistence.GameStore.GetRecentGames | SudokuWASM/Services/LocalStorageGamePersistenceService.cs:180-196 | a prefix of the stored list, no longer than `count` |
| Persistence.GameStore.RecordCompletedGame | SudokuWASM/Services/LocalStorageGamePersistenceService.cs:114-178 | the statistics count the game exactly as `RecordGame` does: the totals, the best score and best time, the game's difficulty entry (created if absent) updated by `CountGame`, and every other difficulty unchanged. The new game is first in the recent list, followed by the first 10 stored games, so the list never exceeds 11 entries |
| Persistence.GameStore.RecentListKeepsEleven | SudokuWASM/Services/LocalStorageGamePersistenceService.cs:164-169 | with 11 games stored, recording drops the oldest one although the cap of 50 is far off |
| Persistence.GameStore.WrittenListIsPrefixOfIntended | SudokuWASM/Services/LocalStorageGamePersistenceService.cs:164-169 | for every stored list, the list as written is the first 11 games of the list that keeps the latest 50 |
| Persistence.GameStore.RecordCompletedGameKeepingFifty | SudokuWASM/Services/LocalStorageGamePersistenceService.cs:164-169 | the intended recording: the same statistics update as `RecordCompletedGame`, and the new game followed by the stored list, keeping the latest 50 |

## Left out

- I/O and platform:
  - JSON serialisation and the browser's `localStorage` calls are not modelled. In `GameStore` the stored statistics, list and saved game are plain fields.
  - `GameStore.SaveGameState` stores the state object itself, where the source stores a JSON snapshot. Later changes to that object therefore show through the stored game, which the source's copy would not. The `SavedAt` clock stamp is not modelled.
  - The statistics and the recent list are written only by `RecordCompletedGame` and cleared only by `ClearAllData`. The source's standalone statistics save and its error-logging fallbacks have no operation of their own.
  - Logging, the `Message` strings and `OnStateChanged` notifications are not modelled.
  - `async`/`Task.Run` and the generation `CancellationToken` are not modelled; the token is only observed before generation starts.
  - `DateTime.Now` stamps and GUIDs (`Id`, `CompletedAt`, `SavedAt`, `FirstPlayed`, `LastPlayed`) are not modelled.
- Randomness: `System.Random` is replaced by inputs. The fill gets a shuffle stream (a seed selects the stream through `seeded`), and removal gets a cell order. Only the fill depends on the seed; the removal order always comes from the service's shared source.
- Floating point:
  - `CalculatePointsForMove` is left out, because its time bonus is floating point.
  - The time multiplier of `CalculateCompletionBonus` is left out. `Scoring.CalculateCompletionBonus` takes the truncated integer time bonus as a parameter.
  - That left-out time-window table gives an unknown difficulty name a window of its own, (10, 30) minutes at 30%, not Medium's (1, 10) minutes (`GameScoringService.cs:26-33`). So the "unknown is Medium" rule covers only the integer tables.
  - `DifficultyStats.WinRate` is left out.
- Timing: `GameTimingService` and elapsed time are not modelled.
- Operations not modelled:
  - `SudokuBoard.Reset` (it builds a new randomly generated board) and `GetSolutionString` (debug text).
  - `GameEngine.Undo` (an empty placeholder), `SaveGameStateAsync`, `LoadFromState`, `ShowStatistics` and `Dispose`.
  - `GameStatePersistenceService` and the Razor page. The page's move rules duplicate the engine, and its difficulty table is not part of this model.
- Integer width:
  - C# `int` arithmetic is 32-bit; the model uses unbounded integers. Scores, counters and penalties do not model wrap-around, which is unreachable in play.
  - `TimeSpan` values are modelled as tick counts; `MaxTime` is `TimeSpan.MaxValue`.
- References and aliasing:
  - A note set (`HashSet<int>`) is a value here, a `set<int>` in a `Notes` array cell. `CopyTo`'s fresh `HashSet` copies are therefore plain assignments.
  - `DifficultyStats` entries are values in a map, updated by reassigning the entry.
- Board.SudokuBoard.CopyTo: requires the two boards to share no array (`Separate`); the source does not guard against aliasing.
- Board.SudokuBoard.IsValidMove: requires the cell to be on the board for a value 1..9. For an off-board cell the source throws, unless an on-board cell it checks first already holds the value; then it returns false. For example, row 10, column 0 and the value at (0, 0) returns false. The model does not cover those inputs.
- Board.SudokuBoard.AddHint: requires the cell to be on the board; the source reads `FixedCells[row, col]` first and throws for an off-board cell.
- Engine.GameEngine.PlaceNumber, Engine.GameEngine.Erase: require the selected cell to be on the board (`SelectionOnBoard`), where the source would throw on an out-of-range selection.
- SavedState.CopyFromMultiArray, SavedState.SaveAndLoad: require the first nine rows to be distinct arrays; with shared rows the later row writes would overwrite the earlier ones.
- Persistence.GameStore.constructor: the fallback of `GetStatisticsAsync` when stored data cannot be read is modelled only as the empty-storage case.
- `PuzzleVariant` values other than `Standard9x9` are declared in `Options` but never used by any algorithm.
- Engine.GameEngine.GiveHint: uses the solver's row-major scan `FindEmptyCell` for its nested loops, which visit the cells in the same order.

Differences the model follows as the code has them:

- The solver's `IsSafe` looks at the target cell too, whereas `IsValidMove` skips it (`Rules.SafeIsPeersFreeAndNotHere` relates the two).
- Symmetric removal stops only once `81 - removed <= clues`. A kept pair empties two cells at once, so the generator service can finish one clue below its target. `removed` also grows by 2 when the partner cell was already empty; that overcount can only stop the loop with more clues, never fewer. Inside `GeneratePuzzle` it never happens: removal starts from a full grid and keeps the empty cells symmetric, so a filled cell's partner is always filled.
- The clue tables differ: the generator service uses 40/30/25/20 and the scoring service 40/30/22/17.
- The enum value `SymmetryStyle.None` is called `NoSymmetry`, to keep it apart from `Option.None`.

## Findings

| source | as written | input that shows it | evidently intended | confidence | as-written member | corrected member |
|---|---|---|---|---|---|---|
| SudokuWASM/Services/LocalStorageGamePersistenceService.cs:164-169 | the recent list is read back through `GetRecentGamesAsync()` with its default `count = 10`, then the new game is inserted and the list is cut to 50, so at most 11 games are ever stored | a store holding 11 games: recording a 12th keeps 11 and drops the oldest | keep the latest 50 games, as the cut to 50 and its comment say | medium, not executed | Persistence.GameStore.RecentListKeepsEleven | Persistence.GameStore.RecordCompletedGameKeepingFifty |
