/** The in-memory part of the local-storage persistence service: the statistics record a
    finished game updates, the list of recent games it is added to, and the question
    whether an unfinished game is saved.  Storage itself (serialisation and the browser's
    key-value store) is a pair of fields here. */
module Persistence {
  import opened SavedState

  /** `TimeSpan.MaxValue`, in ticks: the best time before any game has been won. */
  const MaxTime: int := 0x7FFF_FFFF_FFFF_FFFF

  /** The cap the recording step applies to the recent-games list. */
  const MaxRecentGames := 50

  /** The default `count` of `GetRecentGamesAsync`. */
  const DefaultRecentCount := 10

  /** A finished game; times are in ticks. */
  datatype CompletedGame = CompletedGame(
    Difficulty: string,
    Score: int,
    CompletionTime: int,
    HintsUsed: int,
    WrongMoves: int,
    IsPerfect: bool)

  /** The statistics kept for one difficulty. */
  datatype DifficultyStats = DifficultyStats(Played: int, Won: int, Perfect: int, BestScore: int, BestTime: int)

  function NewDifficultyStats(): DifficultyStats {
    DifficultyStats(0, 0, 0, 0, MaxTime)
  }

  function Max(a: int, b: int): int { if a < b then b else a }

  function Min(a: int, b: int): int { if a < b then a else b }

  /** Only games that end with a positive score count as won. */
  predicate IsWon(game: CompletedGame) {
    game.Score > 0
  }

  /** Perfect games are among won games, which are among played games. */
  predicate Tallied(played: int, won: int, perfect: int) {
    0 <= perfect <= won <= played
  }

  /** One finished game added to a difficulty's statistics: one more game played; when it
      was won, one more win, one more perfect game if it was perfect, and the best score
      and best time improved by it. */
  function CountGame(s: DifficultyStats, game: CompletedGame): (t: DifficultyStats)
    ensures t.Played == s.Played + 1
    ensures t.Won == s.Won + (if IsWon(game) then 1 else 0)
    ensures t.Perfect == s.Perfect + (if IsWon(game) && game.IsPerfect then 1 else 0)
    ensures t.BestScore == if IsWon(game) then Max(s.BestScore, game.Score) else s.BestScore
    ensures t.BestTime == if IsWon(game) then Min(s.BestTime, game.CompletionTime) else s.BestTime
  {
    if game.Score > 0 then
      DifficultyStats(s.Played + 1, s.Won + 1, s.Perfect + (if game.IsPerfect then 1 else 0),
                      if game.Score > s.BestScore then game.Score else s.BestScore,
                      if game.CompletionTime < s.BestTime then game.CompletionTime else s.BestTime)
    else
      s.(Played := s.Played + 1)
  }

  /** Counting a game keeps the tallies ordered, never lowers the best score or raises the
      best time, and a won game's score and time are then within the bests. */
  lemma CountGameKeepsTallies(s: DifficultyStats, game: CompletedGame)
    requires Tallied(s.Played, s.Won, s.Perfect)
    ensures var t := CountGame(s, game);
      && Tallied(t.Played, t.Won, t.Perfect)
      && t.BestScore >= s.BestScore && t.BestTime <= s.BestTime
      && (IsWon(game) ==> t.BestScore >= game.Score && t.BestTime <= game.CompletionTime)
  {
  }

  /** `Take` of LINQ: the first `count` elements, all of them when there are fewer, none
      when `count` is not positive. */
  function Take<T>(s: seq<T>, count: int): (t: seq<T>)
    ensures |t| == if count <= 0 then 0 else if count < |s| then count else |s|
    ensures t == s[..|t|]
  {
    if count <= 0 then [] else if count < |s| then s[..count] else s
  }

  /** Taking twice is taking the smaller count. */
  lemma TakeTake<T>(s: seq<T>, m: int, n: int)
    ensures Take(Take(s, m), n) == Take(s, if m < n then m else n)
  {
  }

  /** `GameStatistics`: the totals over all games and the per-difficulty statistics. */
  class GameStatistics {
    var GamesPlayed: int
    var GamesWon: int
    var PerfectGames: int
    var BestScore: int
    var BestTime: int
    var PerDifficulty: map<string, DifficultyStats>

    /** The totals and every difficulty's statistics are ordered tallies. */
    ghost predicate Valid()
      reads this
    {
      && Tallied(GamesPlayed, GamesWon, PerfectGames)
      && forall d :: d in PerDifficulty ==> Tallied(PerDifficulty[d].Played, PerDifficulty[d].Won, PerDifficulty[d].Perfect)
    }

    /** Fresh statistics: nothing played, best time `MaxTime`, no difficulties. */
    constructor ()
      ensures Valid()
      ensures GamesPlayed == 0 && GamesWon == 0 && PerfectGames == 0 && BestScore == 0 && BestTime == MaxTime
      ensures PerDifficulty == map[]
    {
      GamesPlayed, GamesWon, PerfectGames, BestScore := 0, 0, 0, 0;
      BestTime := MaxTime;
      PerDifficulty := map[];
    }

    /** The statistics part of `RecordCompletedGameAsync`: the totals count the game as
        `CountGame` does, the game's difficulty gets an entry if it had none, that entry
        counts the game, and every other difficulty is left alone. */
    method RecordGame(game: CompletedGame)
      modifies this
      ensures GamesPlayed == old(GamesPlayed) + 1
      ensures GamesWon == old(GamesWon) + (if IsWon(game) then 1 else 0)
      ensures PerfectGames == old(PerfectGames) + (if IsWon(game) && game.IsPerfect then 1 else 0)
      ensures BestScore == if IsWon(game) then Max(old(BestScore), game.Score) else old(BestScore)
      ensures BestTime == if IsWon(game) then Min(old(BestTime), game.CompletionTime) else old(BestTime)
      ensures PerDifficulty.Keys == old(PerDifficulty.Keys) + {game.Difficulty}
      ensures PerDifficulty[game.Difficulty] ==
        CountGame(if game.Difficulty in old(PerDifficulty) then old(PerDifficulty[game.Difficulty]) else NewDifficultyStats(), game)
      ensures forall d :: d in old(PerDifficulty) && d != game.Difficulty ==> PerDifficulty[d] == old(PerDifficulty[d])
      ensures old(Valid()) ==> Valid()
    {
      RecordTotals(game);
      RecordDifficulty(game);
      if old(Valid()) {
        var s := if game.Difficulty in old(PerDifficulty) then old(PerDifficulty[game.Difficulty]) else NewDifficultyStats();
        CountGameKeepsTallies(s, game);
      }
    }

    /** The totals part of `RecordGame`. */
    method RecordTotals(game: CompletedGame)
      modifies this`GamesPlayed, this`GamesWon, this`PerfectGames, this`BestScore, this`BestTime
      ensures GamesPlayed == old(GamesPlayed) + 1
      ensures GamesWon == old(GamesWon) + (if IsWon(game) then 1 else 0)
      ensures PerfectGames == old(PerfectGames) + (if IsWon(game) && game.IsPerfect then 1 else 0)
      ensures BestScore == if IsWon(game) then Max(old(BestScore), game.Score) else old(BestScore)
      ensures BestTime == if IsWon(game) then Min(old(BestTime), game.CompletionTime) else old(BestTime)
    {
      GamesPlayed := GamesPlayed + 1;
      if game.Score > 0 {
        GamesWon := GamesWon + 1;
        if game.IsPerfect {
          PerfectGames := PerfectGames + 1;
        }
        if game.Score > BestScore {
          BestScore := game.Score;
        }
        if game.CompletionTime < BestTime {
          BestTime := game.CompletionTime;
        }
      }
    }

    /** The per-difficulty part of `RecordGame`: the entry is created when missing, then
        updated field by field. */
    method RecordDifficulty(game: CompletedGame)
      modifies this`PerDifficulty
      ensures PerDifficulty.Keys == old(PerDifficulty.Keys) + {game.Difficulty}
      ensures PerDifficulty[game.Difficulty] ==
        CountGame(if game.Difficulty in old(PerDifficulty) then old(PerDifficulty[game.Difficulty]) else NewDifficultyStats(), game)
      ensures forall d :: d in old(PerDifficulty) && d != game.Difficulty ==> PerDifficulty[d] == old(PerDifficulty[d])
    {
      if game.Difficulty !in PerDifficulty {
        PerDifficulty := PerDifficulty[game.Difficulty := NewDifficultyStats()];
      }
      var diffStats := PerDifficulty[game.Difficulty];
      diffStats := diffStats.(Played := diffStats.Played + 1);
      if game.Score > 0 {
        diffStats := diffStats.(Won := diffStats.Won + 1);
        if game.IsPerfect {
          diffStats := diffStats.(Perfect := diffStats.Perfect + 1);
        }
        if game.Score > diffStats.BestScore {
          diffStats := diffStats.(BestScore := game.Score);
        }
        if game.CompletionTime < diffStats.BestTime {
          diffStats := diffStats.(BestTime := game.CompletionTime);
        }
      }
      PerDifficulty := PerDifficulty[game.Difficulty := diffStats];
    }
  }

  /** The stored data: the statistics, the recent-games list and the current saved game. */
  class GameStore {
    var statistics: GameStatistics
    var recentGames: seq<CompletedGame>
    var currentGame: GameState?

    /** Empty storage: the statistics read back are fresh ones, and there are no recent
        games and no saved game. */
    constructor ()
      ensures fresh(statistics) && statistics.Valid() && statistics.GamesPlayed == 0
      ensures recentGames == [] && currentGame == null
    {
      statistics := new GameStatistics();
      recentGames := [];
      currentGame := null;
    }

    /** `ClearAllDataAsync`: all three stored items are removed, so the store reads back as
        empty storage does: fresh statistics, no recent games and no saved game. */
    method ClearAllData()
      modifies this`statistics, this`recentGames, this`currentGame
      ensures fresh(statistics) && statistics.Valid() && statistics.GamesPlayed == 0
      ensures recentGames == [] && currentGame == null && !HasSavedGame()
    {
      statistics := new GameStatistics();
      recentGames := [];
      currentGame := null;
    }

    /** `GetRecentGamesAsync(count)`: the first `count` stored games. */
    function GetRecentGames(count: int): (games: seq<CompletedGame>)
      reads this
      ensures |games| <= |recentGames| && (count >= 0 ==> |games| <= count)
      ensures games == recentGames[..|games|]
      ensures 0 <= count <= |recentGames| ==> |games| == count
    {
      Take(recentGames, count)
    }

    /** `HasSavedGameAsync`: a game is saved and it is neither won nor over. */
    predicate HasSavedGame()
      reads this, currentGame
    {
      currentGame != null && !currentGame.IsGameWon && !currentGame.IsGameOver
    }

    /** `SaveGameStateAsync`: the state becomes the stored game, so a saved game is offered
        exactly when that state is neither won nor over. */
    method SaveGameState(state: GameState)
      modifies this`currentGame
      ensures currentGame == state
      ensures HasSavedGame() <==> !state.IsGameWon && !state.IsGameOver
    {
      currentGame := state;
    }

    /** `DeleteGameStateAsync`: the stored game is removed, so none is offered. */
    method DeleteGameState()
      modifies this`currentGame
      ensures currentGame == null && !HasSavedGame()
    {
      currentGame := null;
    }

    /** `RecordCompletedGameAsync`: the statistics count the game, and the recent-games
        list becomes the game followed by the first `DefaultRecentCount` stored games (the
        list is read back through `GetRecentGames` with its default count), cut to
        `MaxRecentGames`. */
    method RecordCompletedGame(game: CompletedGame)
      requires statistics.Valid()
      modifies this`recentGames, statistics
      ensures statistics.Valid()
      ensures statistics.GamesPlayed == old(statistics.GamesPlayed) + 1
      ensures statistics.GamesWon == old(statistics.GamesWon) + (if IsWon(game) then 1 else 0)
      ensures statistics.PerfectGames == old(statistics.PerfectGames) + (if IsWon(game) && game.IsPerfect then 1 else 0)
      ensures statistics.BestScore == if IsWon(game) then Max(old(statistics.BestScore), game.Score) else old(statistics.BestScore)
      ensures statistics.BestTime == if IsWon(game) then Min(old(statistics.BestTime), game.CompletionTime) else old(statistics.BestTime)
      ensures statistics.PerDifficulty.Keys == old(statistics.PerDifficulty.Keys) + {game.Difficulty}
      ensures statistics.PerDifficulty[game.Difficulty] ==
        CountGame(if game.Difficulty in old(statistics.PerDifficulty) then old(statistics.PerDifficulty[game.Difficulty])
                  else NewDifficultyStats(), game)
      ensures forall d :: d in old(statistics.PerDifficulty) && d != game.Difficulty ==>
        statistics.PerDifficulty[d] == old(statistics.PerDifficulty[d])
      ensures recentGames == Take([game] + Take(old(recentGames), DefaultRecentCount), MaxRecentGames)
      ensures recentGames[0] == game && recentGames[1..] == Take(old(recentGames), DefaultRecentCount)
      ensures |recentGames| <= DefaultRecentCount + 1
    {
      statistics.RecordGame(game);
      var recent := GetRecentGames(DefaultRecentCount);
      recent := [game] + recent;
      if |recent| > MaxRecentGames {
        recent := Take(recent, MaxRecentGames);
      }
      recentGames := recent;
    }

    /** Recording keeps at most `DefaultRecentCount + 1` games, so the cut to
        `MaxRecentGames` never applies: a store holding eleven games drops its oldest one on
        the next recording, where keeping the latest fifty would have kept all twelve. */
    lemma RecentListKeepsEleven(game: CompletedGame, stored: seq<CompletedGame>)
      requires |stored| == DefaultRecentCount + 1
      ensures var recorded := Take([game] + Take(stored, DefaultRecentCount), MaxRecentGames);
        && |recorded| == |stored| < MaxRecentGames
        && recorded == [game] + stored[..DefaultRecentCount]
        && recorded != Take([game] + stored, MaxRecentGames)
    {
      var all := Take([game] + stored, MaxRecentGames);
      assert |all| == |stored| + 1;
    }

    /** The list as written is the first `DefaultRecentCount + 1` games of the list the cut
        to `MaxRecentGames` intends. */
    lemma {:induction false} WrittenListIsPrefixOfIntended(game: CompletedGame, stored: seq<CompletedGame>)
      ensures Take([game] + Take(stored, DefaultRecentCount), MaxRecentGames)
        == Take(Take([game] + stored, MaxRecentGames), DefaultRecentCount + 1)
    {
      TakeTake([game] + stored, MaxRecentGames, DefaultRecentCount + 1);
      var t := Take(stored, DefaultRecentCount);
      assert [game] + t == Take([game] + stored, DefaultRecentCount + 1);
    }

    /** Recording as the cut to `MaxRecentGames` intends: the whole stored list is read
        back, so the list keeps the latest `MaxRecentGames` games. */
    method RecordCompletedGameKeepingFifty(game: CompletedGame)
      requires statistics.Valid()
      modifies this`recentGames, statistics
      ensures statistics.Valid()
      ensures statistics.GamesPlayed == old(statistics.GamesPlayed) + 1
      ensures statistics.GamesWon == old(statistics.GamesWon) + (if IsWon(game) then 1 else 0)
      ensures statistics.PerfectGames == old(statistics.PerfectGames) + (if IsWon(game) && game.IsPerfect then 1 else 0)
      ensures statistics.BestScore == if IsWon(game) then Max(old(statistics.BestScore), game.Score) else old(statistics.BestScore)
      ensures statistics.BestTime == if IsWon(game) then Min(old(statistics.BestTime), game.CompletionTime) else old(statistics.BestTime)
      ensures statistics.PerDifficulty.Keys == old(statistics.PerDifficulty.Keys) + {game.Difficulty}
      ensures statistics.PerDifficulty[game.Difficulty] ==
        CountGame(if game.Difficulty in old(statistics.PerDifficulty) then old(statistics.PerDifficulty[game.Difficulty])
                  else NewDifficultyStats(), game)
      ensures forall d :: d in old(statistics.PerDifficulty) && d != game.Difficulty ==>
        statistics.PerDifficulty[d] == old(statistics.PerDifficulty[d])
      ensures recentGames == Take([game] + old(recentGames), MaxRecentGames)
      ensures |old(recentGames)| < MaxRecentGames ==> recentGames == [game] + old(recentGames)
      ensures |recentGames| <= MaxRecentGames
    {
      statistics.RecordGame(game);
      var recent := GetRecentGames(|recentGames|);
      recent := [game] + recent;
      if |recent| > MaxRecentGames {
        recent := Take(recent, MaxRecentGames);
      }
      recentGames := recent;
    }
  }
}
