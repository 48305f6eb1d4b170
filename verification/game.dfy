/**
 The game state of the Chasing Bombs frame and its click handlers, as pure
 transitions. Swing widgets become plain state: the tile buttons, the three
 difficulty buttons' enabled flags, the score, the bomb position, the winning
 score and the status label's text. The random bomb position is a parameter.
 */
module Game {
  import opened Tiles
  import opened Difficulty

  const WonText := "You won! Congratulations!"
  const LostText := "You lost. Better luck next time."

  datatype GameState = GameState(
    tiles: seq<Tile>,
    buttons: Buttons,
    score: int,
    bombLocation: int,
    winningScore: int,
    status: string)

  /** The phase a player sees: tiles clickable, or the label after a game. */
  datatype Phase = Idle | Playing | Won | Lost

  function PhaseOf(s: GameState): Phase {
    if AnyEnabled(s.tiles) then Playing
    else if s.status == LostText then Lost
    else if s.status == WonText then Won
    else Idle
  }

  /** The frame as the constructor leaves it: difficulty easy, every tile
      disabled and red, all difficulty buttons enabled (the Swing default),
      fields at Java's zero defaults and an empty status label. */
  function Init(): (s: GameState)
    ensures |s.tiles| == TileCount
    ensures forall i :: 0 <= i < TileCount ==> !s.tiles[i].enabled && s.tiles[i].colour == Red
    ensures forall l :: Enabled(s.buttons, l)
    ensures s.score == 0 && s.bombLocation == 0 && s.status == ""
    ensures s.winningScore == EasyScore
    ensures PhaseOf(s) == Idle
  {
    GameState(FreshTiles(TileCount), Buttons(true, true, true), 0, 0, EasyScore, "")
  }

  /** The listener of difficulty button `l`; only an enabled button fires. */
  function ChooseDifficulty(s: GameState, l: Level): (r: GameState)
    requires Enabled(s.buttons, l)
    ensures r.winningScore == Target(l)
    ensures r.tiles == s.tiles && r.buttons == s.buttons && r.score == s.score
    ensures r.bombLocation == s.bombLocation && r.status == s.status
  {
    s.(winningScore := Target(l))
  }

  /** The "Play A Game" listener, with `bomb` standing for the random draw
      from [0, ROWS*COLS). The Play button is never disabled. */
  function StartGame(s: GameState, bomb: int): (r: GameState)
    requires 0 <= bomb < TileCount
    ensures r.score == 0 && r.bombLocation == bomb && r.status == ""
    ensures |r.tiles| == |s.tiles|
    ensures forall i :: 0 <= i < |r.tiles| ==> r.tiles[i].enabled && r.tiles[i].colour == Red
    ensures r.winningScore == s.winningScore
    ensures forall l :: Enabled(r.buttons, l) <==>
              Enabled(s.buttons, l) && (IsPreset(s.winningScore) ==> Target(l) == s.winningScore)
  {
    s.(score := 0,
       bombLocation := bomb,
       status := "",
       tiles := SetTilesStatus(s.tiles, true, Red),
       buttons := LockDifficulties(s.buttons, s.winningScore))
  }

  /** gameStatus: shows `text` and disables every tile, keeping its colour. */
  function GameStatus(s: GameState, text: string): (r: GameState)
    ensures r.status == text
    ensures |r.tiles| == |s.tiles|
    ensures forall i :: 0 <= i < |r.tiles| ==>
              !r.tiles[i].enabled && r.tiles[i].colour == s.tiles[i].colour
    ensures r.buttons == s.buttons && r.score == s.score
    ensures r.bombLocation == s.bombLocation && r.winningScore == s.winningScore
  {
    s.(status := text, tiles := SetTilesStatus(s.tiles, false, Black))
  }

  /** The listener of tile `i`; only an enabled tile fires. The bomb tile
      turns black and ends the game lost; any other tile turns yellow, is
      disabled and scores one point, ending the game won when the score
      reaches the winning score. */
  function TileClicked(s: GameState, i: int): (r: GameState)
    requires 0 <= i < |s.tiles| && s.tiles[i].enabled
    ensures |r.tiles| == |s.tiles|
    ensures r.bombLocation == s.bombLocation && r.winningScore == s.winningScore
    // the bomb: black, score kept, every tile frozen, difficulties released
    ensures i == s.bombLocation ==>
              && r.score == s.score
              && r.status == LostText
              && r.tiles[i].colour == Black
              && (forall j :: 0 <= j < |r.tiles| ==> !r.tiles[j].enabled)
              && (forall j :: 0 <= j < |r.tiles| && j != i ==> r.tiles[j].colour == s.tiles[j].colour)
              && (forall l :: Enabled(r.buttons, l))
    // a safe tile: yellow and disabled, one more point, no other colour changes
    ensures i != s.bombLocation ==>
              && r.score == s.score + 1
              && r.tiles[i] == Tile(false, Yellow)
              && (forall j :: 0 <= j < |r.tiles| && j != i ==> r.tiles[j].colour == s.tiles[j].colour)
    // ... which wins exactly when the score reaches the winning score
    ensures i != s.bombLocation && r.score == s.winningScore ==>
              && r.status == WonText
              && (forall j :: 0 <= j < |r.tiles| ==> !r.tiles[j].enabled)
              && (forall l :: Enabled(r.buttons, l))
    ensures i != s.bombLocation && r.score != s.winningScore ==>
              && r.status == s.status
              && r.buttons == s.buttons
              && (forall j :: 0 <= j < |r.tiles| && j != i ==> r.tiles[j] == s.tiles[j])
  {
    if i == s.bombLocation then
      var marked := s.(tiles := s.tiles[i := s.tiles[i].(colour := Black)]);
      var ended := GameStatus(marked, LostText);
      ended.(buttons := ResetDifficulties(ended.buttons))
    else
      var marked := s.(tiles := s.tiles[i := Tile(false, Yellow)], score := s.score + 1);
      if marked.score == marked.winningScore then
        var ended := GameStatus(marked, WonText);
        ended.(buttons := ResetDifficulties(ended.buttons))
      else
        marked
  }

  /** The "Exit" listener: back to the unclicked board with a zero score. */
  function ResetGame(s: GameState): (r: GameState)
    ensures r.score == 0 && r.status == ""
    ensures |r.tiles| == |s.tiles|
    ensures forall i :: 0 <= i < |r.tiles| ==> !r.tiles[i].enabled && r.tiles[i].colour == Red
    ensures forall l :: Enabled(r.buttons, l)
    ensures r.bombLocation == s.bombLocation && r.winningScore == s.winningScore
    ensures PhaseOf(r) == Idle
  {
    s.(score := 0,
       buttons := ResetDifficulties(s.buttons),
       status := "",
       tiles := SetTilesStatus(s.tiles, false, Red))
  }
}
