/**
 Whole games as sequences of user events. A click on a disabled button does
 nothing, as in Swing; the Play event carries the bomb position the random
 draw would have produced. Every state reachable from the constructor's
 satisfies the invariant, a win is always reachable while a game is on, and
 the easy-win and hard-loss scenarios end as expected.
 */
module Play {
  import opened Tiles
  import opened Difficulty
  import opened Game
  import opened GameInvariant

  datatype Event =
    | PickLevel(level: Level)
    | PressPlay(bomb: int)
    | PressExit
    | PressTile(index: int)

  /** The Play event's bomb lies on the board, as nextInt(ROWS*COLS) ensures. */
  predicate ValidEvent(e: Event) {
    e.PressPlay? ==> 0 <= e.bomb < TileCount
  }

  /** One user event; clicks on disabled (or absent) buttons are ignored. */
  function Step(s: GameState, e: Event): (r: GameState)
    requires ValidEvent(e)
    ensures e.PressTile? && !(0 <= e.index < |s.tiles| && s.tiles[e.index].enabled) ==> r == s
    ensures e.PickLevel? && !Enabled(s.buttons, e.level) ==> r == s
  {
    match e
    case PickLevel(l) => if Enabled(s.buttons, l) then ChooseDifficulty(s, l) else s
    case PressPlay(b) => StartGame(s, b)
    case PressExit => ResetGame(s)
    case PressTile(i) => if 0 <= i < |s.tiles| && s.tiles[i].enabled then TileClicked(s, i) else s
  }

  /** The state after the events, in order. */
  function Replay(s: GameState, events: seq<Event>): GameState
    requires forall k :: 0 <= k < |events| ==> ValidEvent(events[k])
    decreases |events|
  {
    if |events| == 0 then s else Replay(Step(s, events[0]), events[1..])
  }

  /** Each event keeps the invariant. */
  lemma StepPreservesInv(s: GameState, e: Event)
    requires Inv(s) && ValidEvent(e)
    ensures Inv(Step(s, e))
  {
    match e
    case PickLevel(l) =>
      if Enabled(s.buttons, l) { ChooseDifficultyPreservesInv(s, l); }
    case PressPlay(b) => StartGamePreservesInv(s, b);
    case PressExit => ResetGamePreservesInv(s);
    case PressTile(i) =>
      if 0 <= i < |s.tiles| && s.tiles[i].enabled { TileClickedPreservesInv(s, i); }
  }

  /** Any sequence of events keeps the invariant. */
  lemma {:induction false} ReplayPreservesInv(s: GameState, events: seq<Event>)
    requires Inv(s)
    requires forall k :: 0 <= k < |events| ==> ValidEvent(events[k])
    ensures Inv(Replay(s, events))
    decreases |events|
  {
    if |events| > 0 {
      StepPreservesInv(s, events[0]);
      ReplayPreservesInv(Step(s, events[0]), events[1..]);
    }
  }

  /** Whatever the user does after the frame opens: while a game is on the
      score is below the winning score and no other difficulty can be picked;
      the score never leaves [0, 9]. */
  lemma ReachableStatesAreSafe(events: seq<Event>, l: Level)
    requires forall k :: 0 <= k < |events| ==> ValidEvent(events[k])
    ensures Inv(Replay(Init(), events))
    ensures var s := Replay(Init(), events);
            0 <= s.score < TileCount &&
            (PhaseOf(s) == Playing ==>
               s.score < s.winningScore &&
               (Enabled(s.buttons, l) <==> Target(l) == s.winningScore))
  {
    InitSatisfiesInv();
    ReplayPreservesInv(Init(), events);
    ScoreBounded(Replay(Init(), events));
  }

  /** The first enabled tile at or after `lo` that is not the bomb, or the
      board size when there is none. */
  function FirstSafe(tiles: seq<Tile>, bomb: int, lo: nat): (r: nat)
    requires lo <= |tiles|
    ensures lo <= r <= |tiles|
    ensures r < |tiles| ==> r != bomb && tiles[r].enabled
    ensures forall j :: lo <= j < r ==> j == bomb || !tiles[j].enabled
    decreases |tiles| - lo
  {
    if lo == |tiles| then lo
    else if lo != bomb && tiles[lo].enabled then lo
    else FirstSafe(tiles, bomb, lo + 1)
  }

  /** While a game is on there is always a safe tile left to click: with no
      black tile, every other tile disabled would mean nine yellow ones, a
      score of 9, which is never below the winning score. */
  lemma SafeTileExists(s: GameState)
    requires Inv(s) && PhaseOf(s) == Playing
    ensures FirstSafe(s.tiles, s.bombLocation, 0) < |s.tiles|
  {
    PlayingFacts(s);
    if FirstSafe(s.tiles, s.bombLocation, 0) == |s.tiles| {
      forall j | 0 <= j < |s.tiles| && j != s.bombLocation
        ensures s.tiles[j].colour == Yellow
      {
        assert !s.tiles[j].enabled;
      }
      CountAllButOne(s.tiles, Yellow, s.bombLocation, 0);
      assert false;
    }
  }

  /** A player who always clicks the first safe tile. From a reachable state
      this ends the game: won, with the score at the winning score, whenever
      a game was on. */
  function AutoPlay(s: GameState): (r: GameState)
    requires Inv(s)
    ensures Inv(r) && PhaseOf(r) != Playing
    ensures PhaseOf(s) == Playing ==> PhaseOf(r) == Won && r.score == s.winningScore
    ensures r.winningScore == s.winningScore && r.bombLocation == s.bombLocation
    decreases s.winningScore - s.score
  {
    if PhaseOf(s) != Playing then s
    else
      SafeTileExists(s);
      var i := FirstSafe(s.tiles, s.bombLocation, 0);
      TileClickedPreservesInv(s, i);
      AutoPlay(TileClicked(s, i))
  }

  /** Events that click tiles only: distinct indices, none of them the bomb,
      each still enabled in `s`. */
  ghost predicate SafeClicks(s: GameState, events: seq<Event>) {
    && (forall k :: 0 <= k < |events| ==> events[k].PressTile?)
    && (forall k :: 0 <= k < |events| ==>
          0 <= events[k].index < |s.tiles| &&
          events[k].index != s.bombLocation &&
          s.tiles[events[k].index].enabled)
    && (forall j, k :: 0 <= j < k < |events| ==> events[j].index != events[k].index)
  }

  /** Once no tile is enabled, tile clicks change nothing. */
  lemma {:induction false} ClicksIgnoredAfterGame(s: GameState, events: seq<Event>)
    requires !AnyEnabled(s.tiles)
    requires forall k :: 0 <= k < |events| ==> events[k].PressTile?
    ensures Replay(s, events) == s
    decreases |events|
  {
    if |events| > 0 {
      assert Step(s, events[0]) == s;
      ClicksIgnoredAfterGame(s, events[1..]);
    }
  }

  /** Clicking at least (winning score - score) distinct safe tiles wins the
      game with exactly the winning score; later clicks score nothing. */
  lemma {:induction false} SafeClicksWin(s: GameState, events: seq<Event>)
    requires Inv(s) && PhaseOf(s) == Playing
    requires SafeClicks(s, events)
    requires |events| >= s.winningScore - s.score
    ensures var r := Replay(s, events);
            PhaseOf(r) == Won && r.status == WonText && r.score == s.winningScore
    decreases |events|
  {
    var i := events[0].index;
    var next := TileClicked(s, i);
    TileClickedPreservesInv(s, i);
    assert Step(s, events[0]) == next;
    if s.score + 1 == s.winningScore {
      ClicksIgnoredAfterGame(next, events[1..]);
    } else {
      SafeClicksWin(next, events[1..]);
    }
  }

  /** The nine safe tiles, in board order. */
  function AllSafeClicks(bomb: int): (events: seq<Event>)
    requires 0 <= bomb < TileCount
    ensures |events| == TileCount - 1
    ensures forall k :: 0 <= k < |events| ==>
              events[k].PressTile? && 0 <= events[k].index < TileCount && events[k].index != bomb
    ensures forall j, k :: 0 <= j < k < |events| ==> events[j].index < events[k].index
  {
    seq(TileCount - 1, k requires 0 <= k < TileCount - 1 => PressTile(if k < bomb then k else k + 1))
  }

  /** After Play, clicking all nine safe tiles wins at every difficulty, with
      the score equal to the winning score: every preset is at most 9. */
  lemma ClickingEverySafeTileWins(s: GameState, bomb: int)
    requires Inv(s) && 0 <= bomb < TileCount
    ensures var r := Replay(s, [PressPlay(bomb)] + AllSafeClicks(bomb));
            PhaseOf(r) == Won && r.score == s.winningScore
  {
    var started := StartGame(s, bomb);
    StartGamePreservesInv(s, bomb);
    var clicks := AllSafeClicks(bomb);
    var events := [PressPlay(bomb)] + clicks;
    assert events[1..] == clicks;
    SafeClicksWin(started, clicks);
  }

  /** Difficulty easy, Play, then five distinct safe tiles: the status reads
      the win message and the score is 5. */
  lemma EasyWinScenario(bomb: int, clicks: seq<Event>)
    requires 0 <= bomb < TileCount
    requires |clicks| == 5
    requires forall k :: 0 <= k < 5 ==>
               clicks[k].PressTile? && 0 <= clicks[k].index < TileCount && clicks[k].index != bomb
    requires forall j, k :: 0 <= j < k < 5 ==> clicks[j].index != clicks[k].index
    ensures var r := Replay(Init(), [PickLevel(Easy), PressPlay(bomb)] + clicks);
            r.status == WonText && r.score == 5
  {
    var s0 := Init();
    InitSatisfiesInv();
    var s1 := ChooseDifficulty(s0, Easy);
    ChooseDifficultyPreservesInv(s0, Easy);
    var s2 := StartGame(s1, bomb);
    StartGamePreservesInv(s1, bomb);
    var events := [PickLevel(Easy), PressPlay(bomb)] + clicks;
    assert events[1..][1..] == clicks;
    SafeClicksWin(s2, clicks);
  }

  /** Difficulty hard, Play, then the bomb first: the status reads the loss
      message and the score stays 0. */
  lemma HardLossScenario(bomb: int)
    requires 0 <= bomb < TileCount
    ensures var r := Replay(Init(), [PickLevel(Difficult), PressPlay(bomb), PressTile(bomb)]);
            r.status == LostText && r.score == 0 && PhaseOf(r) == Lost
  {
    var s1 := ChooseDifficulty(Init(), Difficult);
    var s2 := StartGame(s1, bomb);
    var s3 := TileClicked(s2, bomb);
    assert !AnyEnabled(s3.tiles);
    var events := [PickLevel(Difficult), PressPlay(bomb), PressTile(bomb)];
    assert Replay(s2, events[2..]) == s3;
    assert Replay(s1, events[1..]) == Replay(s2, events[2..]);
  }

  /** Replaying two runs back to back is replaying their concatenation. */
  lemma {:induction false} ReplayAppend(s: GameState, a: seq<Event>, b: seq<Event>)
    requires forall k :: 0 <= k < |a| ==> ValidEvent(a[k])
    requires forall k :: 0 <= k < |b| ==> ValidEvent(b[k])
    ensures forall k :: 0 <= k < |a + b| ==> ValidEvent((a + b)[k])
    ensures Replay(s, a + b) == Replay(Replay(s, a), b)
    decreases |a|
  {
    if |a| > 0 {
      assert (a + b)[1..] == a[1..] + b;
      ReplayAppend(Step(s, a[0]), a[1..], b);
    } else {
      assert a + b == b;
    }
  }

  /** The score is only bounded by the winning score during a game: after a
      win at intermediate, every difficulty button is enabled again and
      picking easy leaves a score of 7 against a winning score of 5. */
  lemma ScoreCanPassTargetBetweenGames()
    ensures var r := Replay(Init(), [PickLevel(Intermediate), PressPlay(0)] + AllSafeClicks(0) + [PickLevel(Easy)]);
            r.score == MediumScore && r.winningScore == EasyScore
  {
    var s1 := ChooseDifficulty(Init(), Intermediate);
    InitSatisfiesInv();
    ChooseDifficultyPreservesInv(Init(), Intermediate);
    var played := [PressPlay(0)] + AllSafeClicks(0);
    ClickingEverySafeTileWins(s1, 0);
    var won := Replay(s1, played);
    ReplayPreservesInv(s1, played);
    var run := [PickLevel(Intermediate)] + played;
    assert run[1..] == played;
    assert Replay(Init(), run) == won;
    assert Enabled(won.buttons, Easy);
    assert [PickLevel(Intermediate), PressPlay(0)] + AllSafeClicks(0) + [PickLevel(Easy)] == run + [PickLevel(Easy)];
    ReplayAppend(Init(), run, [PickLevel(Easy)]);
    assert Replay(won, [PickLevel(Easy)]) == ChooseDifficulty(won, Easy);
  }
}
