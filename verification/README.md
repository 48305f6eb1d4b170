# Chasing Bombs — a verified model of the game state

Chasing Bombs is a one-window Swing game. Ten tile buttons sit in a 2 x 5
grid, and one of them hides a bomb. Each safe tile clicked scores a point.
Clicking the bomb loses the game. Reaching the winning score of the chosen
difficulty (easy 5, intermediate 7, difficult 9) wins it.

This project models the state of `GameFrame` as an immutable `GameState`. The
click listeners become pure transitions on it. The Swing widgets are reduced to
plain state:

- the tile buttons (an enabled flag and a red, yellow or black background);
- the enabled flags of the three difficulty buttons;
- `score`, `bombLocation` and `winningScore`;
- the status label's text.

A disabled Swing button never fires. So clicking a tile or a difficulty button
is an operation whose precondition is that the button is enabled. The random
bomb position is a parameter in `[0, 10)`.

Modules:

- `Tiles`: the board, `setTilesStatus`, and counts of tiles by colour.
- `Difficulty`: the three levels, their winning scores, and the buttons'
  enabled flags (`resetDifficulties`, and the button part of `startGame`).
- `Game`: the state, the constructor's initial state, and the handlers
  (difficulty, Play, tile, Exit, `gameStatus`). It also defines the phase a
  player sees (idle, playing, won, lost), derived from the state.
- `GameInvariant`: the invariant every reachable state satisfies, and one
  preservation lemma per handler.
- `Play`: user event sequences replayed from the initial state. Clicks on
  disabled buttons are ignored. This module shows that a win is always
  reachable during a game, and plays the easy-win and hard-loss scenarios.

The invariant (`GameInvariant.Inv`) says:

- The score equals the number of yellow tiles.
- The bomb tile is never yellow.
- Only the bomb tile can be black, and it is black exactly when the loss
  message shows.
- The chosen difficulty's button is always enabled.
- While any tile is enabled:
  - the enabled tiles are exactly the red ones;
  - the score is below the winning score;
  - the status is empty;
  - only the chosen difficulty button is enabled, so the winning score cannot
    change.
- Between games, all three difficulty buttons are enabled.

Three behaviours of the code that are easy to miss:

- The Play button is never disabled. A new game can start mid-game, or directly
  after a win or loss, without Exit (`GameInvariant.StartGamePreservesInv`
  holds from every reachable state).
- The difficulty cannot be changed during a game. Only the chosen button stays
  enabled (`GameInvariant.DifficultyLockedWhilePlaying`).
- The score stays below the winning score only during a game. After a win,
  every difficulty button is enabled again. Picking a lower difficulty then
  leaves the old score above the new winning score until the next Play or
  Exit (`Play.ScoreCanPassTargetBetweenGames`). Nothing can be scored in that
  state.

## Model

| member | source | states |
|---|---|---|
| Tiles.FreshTiles | GameFrame.java:108-115 | the constructor builds every tile disabled and red |
| Tiles.SetTilesStatus | GameFrame.java:218-226 | every tile gets the requested enabled flag; red repaints every tile red; any other colour leaves every tile's colour unchanged |
| Difficulty.Target | GameFrame.java:25-27 | each difficulty button assigns one of the presets 5, 7 or 9, all below the ten tiles |
| Difficulty.ResetDifficulties | GameFrame.java:256-261 | afterwards all three difficulty buttons are enabled |
| Difficulty.LockDifficulties | GameFrame.java:181-192 | a button stays enabled exactly when it was enabled and assigns the current winning score (no button is disabled for a non-preset score); no button is ever enabled |
| Game.Init | GameFrame.java:41-49 | initially: ten disabled red tiles, all difficulty buttons enabled, winning score easy (5), score 0, empty status, idle phase |
| Game.ChooseDifficulty | GameFrame.java:98-100 | an enabled difficulty button sets the winning score to its preset and changes nothing else |
| Game.StartGame | GameFrame.java:172-193 | Play sets score 0, places the bomb at the drawn index, clears the status, enables every tile and paints it red, keeps the winning score, and leaves enabled only previously enabled buttons that match the winning score |
| Game.GameStatus | GameFrame.java:207-212 | shows the given message and disables every tile while keeping its colour; nothing else changes |
| Game.TileClicked | GameFrame.java:142-165 | the bomb turns black, keeps the score, shows the loss message, disables all tiles with colours kept, and enables all difficulties; a safe tile becomes yellow and disabled and adds exactly one point with no other colour changing; the game is won (message, all tiles disabled, difficulties enabled) exactly when the new score equals the winning score, and otherwise nothing else changes |
| Game.ResetGame | GameFrame.java:129-136 | Exit, from any state: score 0, empty status, every tile disabled and red, all difficulties enabled, idle phase |
| GameInvariant.InitSatisfiesInv | GameFrame.java:41-49 | the initial frame satisfies the reachable-state invariant |
| GameInvariant.PlayingFacts | GameFrame.java:142-165 | during a game the bomb tile is red and enabled, no tile is black, the status is empty, and 0 <= score < winning score <= 9 < 10 |
| GameInvariant.ScoreBounded | GameFrame.java:157 | in every reachable state the score stays in [0, 9], because the bomb tile is never yellow |
| GameInvariant.ChooseDifficultyPreservesInv | GameFrame.java:98-100 | an enabled difficulty click keeps the invariant |
| GameInvariant.DifficultyLockedWhilePlaying | GameFrame.java:181-192 | during a game the only enabled difficulty button is the chosen one, and clicking it leaves the state unchanged |
| GameInvariant.StartGamePreservesInv | GameFrame.java:172-193 | Play from any reachable state (including after a win or loss) keeps the invariant, enters the playing phase, and leaves exactly the chosen difficulty's button enabled |
| GameInvariant.TileClickedPreservesInv | GameFrame.java:142-165 | a tile click keeps the invariant; the phase becomes lost on the bomb, won when the point reaches the winning score, and otherwise stays playing; the score never passes the winning score |
| GameInvariant.ResetGamePreservesInv | GameFrame.java:129-136 | Exit keeps the invariant |
| Play.Step | GameFrame.java:98-112 | a click on a disabled tile or difficulty button leaves the state unchanged |
| Play.ReplayPreservesInv | GameFrame.java:98-112 | any sequence of user events keeps the invariant |
| Play.ReachableStatesAreSafe | GameFrame.java:142-193 | in every state reachable from the constructor's, the score is in [0, 10); during a game it is below the winning score, and a difficulty button is enabled exactly when it assigns the current winning score |
| Play.SafeTileExists | GameFrame.java:153-162 | during a game some enabled tile is not the bomb |
| Play.AutoPlay | GameFrame.java:153-162 | always clicking a safe tile ends every game in a win, with the score equal to the winning score |
| Play.ClicksIgnoredAfterGame | GameFrame.java:218-225 | once a game has ended (no tile enabled), further tile clicks change nothing |
| Play.SafeClicksWin | GameFrame.java:153-163 | clicking at least (winning score - score) distinct enabled safe tiles wins with the score exactly at the winning score; later clicks score nothing |
| Play.ClickingEverySafeTileWins | GameFrame.java:172-193 | after Play, clicking all nine safe tiles wins at every difficulty, with the score equal to the winning score |
| Play.EasyWinScenario | GameFrame.java:155-162 | easy, Play, then five distinct safe tiles: the win message shows and the score is 5 |
| Play.HardLossScenario | GameFrame.java:148-151 | difficult, Play, then the bomb first: the loss message shows, the score is 0 and the phase is lost |
| Play.ScoreCanPassTargetBetweenGames | GameFrame.java:98-100 | after a win at intermediate, picking easy leaves a score of 7 against a winning score of 5 |

## Left out

- Swing layout and styling are not modelled: panels, grid and box layouts,
  `createArea`, `centreComponent`, `setTextColor`, and the frame's size and
  title. They are presentation only.
- `java.util.Random` is not modelled. The bomb position is an input in
  `[0, 10)` (the `bomb` parameter of `StartGame`, and the `PressPlay` event).
- `Arrays.asList(bombs).indexOf(...)` is not modelled. The clicked tile's index
  is passed directly.
- The score label's text (`setScore`, "Your score is N") is not modelled. Only
  the `score` value is kept.
- The event-dispatch thread is not modelled. The rule that disabled buttons do
  not fire appears as the handlers' preconditions, and in `Play.Step` as
  ignored clicks.
- Colour identity (`bgColor == Color.RED` compares references) is modelled as
  equality on a three-valued colour type.
- Game.TileClicked: the score increment uses unbounded integers, not Java's
  32-bit wrap-around. `GameInvariant.ScoreBounded` shows the score stays in
  [0, 9] in every reachable state, so the wrap-around never happens.
- The phase (idle, playing, won, lost) is not a field of the source. The model
  derives it from the tiles' enabled flags and the status text
  (`Game.PhaseOf`).
