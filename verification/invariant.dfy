/**
 The invariant every state the frame can reach satisfies, and its
 preservation by each click handler. While any tile is clickable the score is
 below the winning score and only the chosen difficulty button is enabled, so
 the winning score cannot change mid-game; between games every difficulty
 button is enabled.
 */
module GameInvariant {
  import opened Tiles
  import opened Difficulty
  import opened Game

  /** What holds while a game is in progress (some tile enabled). */
  ghost predicate PlayingInv(s: GameState) {
    && (forall i :: 0 <= i < |s.tiles| ==> (s.tiles[i].enabled <==> s.tiles[i].colour == Red))
    && 0 <= s.score < s.winningScore
    && s.status == ""
    && (forall l :: Enabled(s.buttons, l) <==> Target(l) == s.winningScore)
  }

  /** The reachable-state invariant. The score is the number of yellow
      tiles; the bomb tile is never yellow; only the bomb tile is ever black,
      and exactly when the loss message shows; the chosen difficulty's button
      is always enabled. */
  ghost predicate Inv(s: GameState) {
    && |s.tiles| == TileCount
    && 0 <= s.bombLocation < TileCount
    && IsPreset(s.winningScore)
    && Enabled(s.buttons, LevelOf(s.winningScore))
    && s.score == Count(s.tiles, Yellow)
    && s.tiles[s.bombLocation].colour != Yellow
    && (forall i :: 0 <= i < |s.tiles| && s.tiles[i].colour == Black ==> i == s.bombLocation)
    && (s.status == LostText <==> s.tiles[s.bombLocation].colour == Black)
    && (s.status == "" || s.status == WonText || s.status == LostText)
    && (if AnyEnabled(s.tiles) then PlayingInv(s) else forall l :: Enabled(s.buttons, l))
  }

  /** The constructor's state satisfies the invariant. */
  lemma InitSatisfiesInv()
    ensures Inv(Init())
  {
  }

  /** During a game the bomb tile is red and clickable, the score is below a
      winning score of at most 9, so fewer than all ten tiles are needed. */
  lemma PlayingFacts(s: GameState)
    requires Inv(s) && PhaseOf(s) == Playing
    ensures 0 <= s.score < s.winningScore <= HardScore < TileCount
    ensures s.tiles[s.bombLocation] == Tile(true, Red)
    ensures s.status == ""
    ensures forall j :: 0 <= j < |s.tiles| ==> s.tiles[j].colour != Black
  {
  }

  /** In every reachable state the score stays between 0 and 9: the bomb
      tile is never yellow. This is why a 32-bit score cannot overflow. */
  lemma ScoreBounded(s: GameState)
    requires Inv(s)
    ensures 0 <= s.score <= TileCount - 1
  {
    CountMissingOne(s.tiles, Yellow, s.bombLocation, 0);
  }

  /** A difficulty click keeps the invariant. */
  lemma ChooseDifficultyPreservesInv(s: GameState, l: Level)
    requires Inv(s) && Enabled(s.buttons, l)
    ensures Inv(ChooseDifficulty(s, l))
  {
  }

  /** While a game is in progress the only enabled difficulty button is the
      one already chosen, so clicking it changes nothing. */
  lemma DifficultyLockedWhilePlaying(s: GameState, l: Level)
    requires Inv(s) && PhaseOf(s) == Playing && Enabled(s.buttons, l)
    ensures l == LevelOf(s.winningScore)
    ensures ChooseDifficulty(s, l) == s
  {
    TargetInjective(l, LevelOf(s.winningScore));
  }

  /** Starting a game keeps the invariant and enters the playing phase with
      only the chosen difficulty button left enabled. */
  lemma StartGamePreservesInv(s: GameState, bomb: int)
    requires Inv(s) && 0 <= bomb < TileCount
    ensures Inv(StartGame(s, bomb))
    ensures PhaseOf(StartGame(s, bomb)) == Playing
    ensures forall l :: Enabled(StartGame(s, bomb).buttons, l) <==> l == LevelOf(s.winningScore)
  {
    var r := StartGame(s, bomb);
    assert r.tiles[0].enabled;
    CountAbsent(r.tiles, Yellow, 0);
    forall l
      ensures Enabled(r.buttons, l) <==> l == LevelOf(s.winningScore)
    {
      TargetInjective(l, LevelOf(s.winningScore));
    }
  }

  /** Clicking an enabled tile keeps the invariant; the phase becomes lost on
      the bomb, won when the point reaches the winning score, and otherwise
      stays playing. The score never passes the winning score. */
  lemma TileClickedPreservesInv(s: GameState, i: int)
    requires Inv(s) && 0 <= i < |s.tiles| && s.tiles[i].enabled
    ensures Inv(TileClicked(s, i))
    ensures PhaseOf(TileClicked(s, i)) ==
              if i == s.bombLocation then Lost
              else if s.score + 1 == s.winningScore then Won
              else Playing
    ensures TileClicked(s, i).score <= TileClicked(s, i).winningScore
  {
    var r := TileClicked(s, i);
    assert AnyEnabled(s.tiles);
    PlayingFacts(s);
    assert s.tiles[i].colour == Red;
    if i == s.bombLocation {
      var marked := s.tiles[i := s.tiles[i].(colour := Black)];
      CountUpdate(s.tiles, i, marked[i], Yellow, 0);
      SameColoursSameCount(r.tiles, marked, Yellow, 0);
      assert !AnyEnabled(r.tiles);
    } else {
      var marked := s.tiles[i := Tile(false, Yellow)];
      CountUpdate(s.tiles, i, marked[i], Yellow, 0);
      SameColoursSameCount(r.tiles, marked, Yellow, 0);
      assert r.tiles[s.bombLocation].colour == Red;
      if s.score + 1 == s.winningScore {
        assert !AnyEnabled(r.tiles);
      } else {
        assert r.tiles[s.bombLocation].enabled;
        assert AnyEnabled(r.tiles);
      }
    }
  }

  /** The Exit button keeps the invariant and returns to the idle phase. */
  lemma ResetGamePreservesInv(s: GameState)
    requires Inv(s)
    ensures Inv(ResetGame(s))
  {
    var r := ResetGame(s);
    CountAbsent(r.tiles, Yellow, 0);
  }
}
