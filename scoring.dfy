/** The integer part of the scoring service: per-difficulty tables keyed by the
    difficulty's name, the display score after wrong-guess penalties, and the final clamp
    of the completion bonus.  The four integer tables score an unknown name as "Medium". */
module Scoring {

  /** The difficulty names the tables know. */
  predicate IsKnownDifficulty(difficulty: string) {
    difficulty == "Easy" || difficulty == "Medium" || difficulty == "Hard" || difficulty == "Expert"
  }

  /** Position of a difficulty on the scale Easy < Medium < Hard < Expert; unknown names
      rank as Medium. */
  function Rank(difficulty: string): (rank: int)
    ensures 0 <= rank <= 3
  {
    if difficulty == "Easy" then 0
    else if difficulty == "Hard" then 2
    else if difficulty == "Expert" then 3
    else 1
  }

  /** Points per move for a difficulty. */
  function GetBasePointsPerMove(difficulty: string): (points: int)
    ensures 10 <= points <= 75
  {
    if difficulty == "Easy" then 10
    else if difficulty == "Medium" then 25
    else if difficulty == "Hard" then 50
    else if difficulty == "Expert" then 75
    else 25
  }

  /** Base of the completion bonus for a difficulty. */
  function GetDifficultyMultiplier(difficulty: string): (multiplier: int)
    ensures 100 <= multiplier <= 3000
  {
    if difficulty == "Easy" then 100
    else if difficulty == "Medium" then 500
    else if difficulty == "Hard" then 1500
    else if difficulty == "Expert" then 3000
    else 500
  }

  /** Clue count the scoring tables associate with a difficulty. */
  function GetCluesCount(difficulty: string): (clues: int)
    ensures 17 <= clues <= 40
  {
    if difficulty == "Easy" then 40
    else if difficulty == "Medium" then 30
    else if difficulty == "Hard" then 22
    else if difficulty == "Expert" then 17
    else 30
  }

  /** The rank and the three integer tables treat a name they do not know as "Medium". */
  lemma UnknownDifficultyIsMedium(difficulty: string)
    requires !IsKnownDifficulty(difficulty)
    ensures Rank(difficulty) == Rank("Medium")
    ensures GetBasePointsPerMove(difficulty) == GetBasePointsPerMove("Medium")
    ensures GetDifficultyMultiplier(difficulty) == GetDifficultyMultiplier("Medium")
    ensures GetCluesCount(difficulty) == GetCluesCount("Medium")
  {
  }

  /** A harder difficulty earns strictly more per move and a strictly larger completion
      base, and has strictly fewer clues. */
  lemma HarderScoresMore(easier: string, harder: string)
    requires Rank(easier) < Rank(harder)
    ensures GetBasePointsPerMove(easier) < GetBasePointsPerMove(harder)
    ensures GetDifficultyMultiplier(easier) < GetDifficultyMultiplier(harder)
    ensures GetCluesCount(easier) > GetCluesCount(harder)
  {
  }

  /** The wrong-guess penalty shown while playing: twice the move points per wrong guess. */
  function DisplayPenalty(wrongGuessCount: int, difficulty: string): int {
    wrongGuessCount * GetBasePointsPerMove(difficulty) * 2
  }

  /** `CalculateCurrentDisplayScore`: the base score less the penalty, but never below 0. */
  function CalculateCurrentDisplayScore(baseScore: int, wrongGuessCount: int, difficulty: string): (score: int)
    ensures score >= 0 && score >= baseScore - DisplayPenalty(wrongGuessCount, difficulty)
    ensures score == 0 || score == baseScore - DisplayPenalty(wrongGuessCount, difficulty)
    ensures wrongGuessCount == 0 && baseScore >= 0 ==> score == baseScore
  {
    var penalty := wrongGuessCount * GetBasePointsPerMove(difficulty) * 2;
    if baseScore - penalty > 0 then baseScore - penalty else 0
  }

  /** More wrong guesses never raise the displayed score. */
  lemma DisplayScoreNonIncreasing(baseScore: int, fewer: int, more: int, difficulty: string)
    requires 0 <= fewer <= more
    ensures CalculateCurrentDisplayScore(baseScore, more, difficulty) <= CalculateCurrentDisplayScore(baseScore, fewer, difficulty)
  {
    var p := GetBasePointsPerMove(difficulty);
    assert fewer * p <= more * p by {
      assert (more - fewer) * p >= 0;
    }
  }

  /** The penalties of the completion bonus: five times the move points per wrong guess
      and three times per hint. */
  function CompletionPenalty(difficulty: string, wrongGuessCount: int, hintCount: int): int {
    wrongGuessCount * GetBasePointsPerMove(difficulty) * 5 + hintCount * GetBasePointsPerMove(difficulty) * 3
  }

  /** The integer end of `CalculateCompletionBonus`: the difficulty's base plus the time
      bonus (computed in floating point by the source and taken here as given) less the
      penalties, clamped at 0. */
  function CalculateCompletionBonus(difficulty: string, timeBonus: int, wrongGuessCount: int, hintCount: int): (bonus: int)
    ensures bonus >= 0
    ensures bonus >= GetDifficultyMultiplier(difficulty) + timeBonus - CompletionPenalty(difficulty, wrongGuessCount, hintCount)
    ensures bonus == 0 ||
            bonus == GetDifficultyMultiplier(difficulty) + timeBonus - CompletionPenalty(difficulty, wrongGuessCount, hintCount)
  {
    var baseBonus := GetDifficultyMultiplier(difficulty);
    var wrongMovePenalty := wrongGuessCount * GetBasePointsPerMove(difficulty) * 5;
    var hintPenalty := hintCount * GetBasePointsPerMove(difficulty) * 3;
    if baseBonus + timeBonus - wrongMovePenalty - hintPenalty > 0 then baseBonus + timeBonus - wrongMovePenalty - hintPenalty
    else 0
  }

  /** A perfect game (no wrong guesses, no hints) with a non-negative time bonus earns at
      least the difficulty's base, and every mistake or hint can only lower the bonus. */
  lemma CompletionBonusBounds(difficulty: string, timeBonus: int, wrong1: int, hints1: int, wrong2: int, hints2: int)
    requires 0 <= wrong1 <= wrong2 && 0 <= hints1 <= hints2
    ensures timeBonus >= 0 ==> CalculateCompletionBonus(difficulty, timeBonus, 0, 0) >= GetDifficultyMultiplier(difficulty)
    ensures CalculateCompletionBonus(difficulty, timeBonus, wrong2, hints2) <= CalculateCompletionBonus(difficulty, timeBonus, wrong1, hints1)
  {
    var p := GetBasePointsPerMove(difficulty);
    assert wrong1 * p <= wrong2 * p by {
      assert (wrong2 - wrong1) * p >= 0;
    }
    assert hints1 * p <= hints2 * p by {
      assert (hints2 - hints1) * p >= 0;
    }
  }
}
