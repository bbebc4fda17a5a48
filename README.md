# Colour Match Challenge: the game controller, verified

This project models the controller of a browser memory game (`game.js`).
The board holds 24 tiles: the twelve palette colours, twice each, shuffled
with Fisher–Yates. Each tile is either hidden or shown, and may be matched.
Pressing Start reveals every tile for a three-second preview, then hides
the unmatched tiles and starts a 60-second countdown. The player reveals
two tiles at a time:

- equal colours are marked matched after a short delay and score 10 points;
- different colours are hidden again.

Matching all 24 tiles wins and adds twice the remaining seconds to the
score. When the clock reaches zero the game is lost. Either way every tile
is revealed.

The project has two layers:

- **A model on values.** `Rules` holds the game state as a value (`Model`)
  and one function per transition. The transitions are `startGame`,
  `resetGame`, the preview-end callback, one countdown tick,
  `handleTileClick`, the resolution callback with `resetSelection`, and
  `endGame`. `Invariant` gives the invariant every transition keeps.
  `Traces` runs sequences of events from page load. It proves what holds
  in every reachable state, how the countdown ends and how a pair plays out.
- **The controller as the source runs it.** `Controller.Game` is a class.
  Its fields are the source's module-level variables. The tiles are an
  `array<Tile>` updated in place, and the `forEach` loops are `while`
  loops. Each method is proved equal to the matching `Rules` function.
  The six event handlers also keep the invariant: `StartGame`,
  `ResetGame`, `EndPreview`, `Tick`, `HandleTileClick` and `Resolve`.
  The helpers they call (`EndGame`, `ResetSelection`, `InitializeGame`,
  `ShowAllColors`, `HideAllColors`) are only proved equal to their
  functions. They run in the middle of a handler, where the invariant
  need not hold; `endGame`, for instance, is entered with the clock
  still running at zero. `Shuffle.ShuffleArray` is the in-place
  Fisher–Yates loop.

Timers become callbacks that the environment invokes:

- `EndPreview` may run while a preview is scheduled (`previewsPending > 0`);
- `Tick` may run while the interval is live (`timerRunning`);
- `Resolve` may run while two tiles are selected.

`Math.random` becomes a caller-supplied sequence `picks`, with
`picks[i]` in `[0, i]`. A tile's colour is an index into the palette.
The palette entries are distinct, so comparing indices is the same as
comparing the `data-color` strings.

Some behaviours of the code may surprise a reader. The model follows the
code:

- `initializeGame` only re-displays `score`, `timeLeft` and `moves`. It
  does not reset them, so after a reset they keep their old values until
  the next start.
- `startGame` keeps the current board. Tiles matched in the previous game
  stay matched.
- The resolution callback does not check `gameActive`. If the clock runs
  out during the 500 ms match delay, the callback still marks the pair and
  adds 10. When that pair completes the board, `endGame(true)` then runs
  on a game already lost, with a time bonus of 0.
- The source decides match or mismatch at the second click. The model
  decides it when the callback fires. Tile colours never change, so the
  outcome is the same.

## Model

| member | source | states |
|---|---|---|
| `Shuffle.ShuffleArray` | game.js:437-449 | the array afterwards is `Shuffled(old, picks)`: each step i from length-1 down to 1 swaps `a[i]` with `a[picks[i]]`, `picks[i]` in [0, i]; same multiset of elements |
| `Shuffle.ShufflePermutes` | game.js:437-449 | the shuffle returns a permutation of its input: same length, same multiset |
| `Shuffle.EveryArrangementPossible` | game.js:439-443 | for every arrangement of the input, some sequence of random choices in [0, i] produces it |
| `Board.PaletteDistinct` | game.js:25-33 | the palette has 12 pairwise distinct colours and the board has 24 tiles |
| `Board.PairedColoursCounts` | game.js:79 | `[...colors, ...colors]` holds each palette colour exactly twice and nothing else |
| `Board.NewBoardIsPaired` | game.js:79-105 | a new board has 24 tiles, each of the 12 colours on exactly two, every tile hidden and unmatched |
| `Board.EveryBoardPossible` | game.js:79-81 | every placement of the 12 pairs on 24 positions is a board `initializeGame` can deal |
| `Board.ShowAllEffect` | game.js:191-201 | revealing shows every tile and keeps colours and matched flags |
| `Board.HideUnmatchedEffect` | game.js:205-219 | hiding marks hidden exactly the unmatched tiles, never a matched one, and keeps colours and matched flags |
| `Board.MatchedCountExtremes` | game.js:311-313 | the matched count equals the number of tiles exactly when every tile is matched, and is 0 exactly when none is |
| `Board.MatchedCountMark` | game.js:299-301 | marking an unmatched tile adds exactly one to the matched count |
| `Rules.Initial` | game.js:5-19 | page load: a paired board with every tile hidden and unmatched, no game running, no timer or preview scheduled, nothing selected, input enabled |
| `Rules.StartAsWritten` | game.js:119-171 | `startGame` as written: it never changes `canClick`; the board keeps its colours and matched flags |
| `Rules.ResetAsWritten` | game.js:175-187 | `resetGame` as written: a new paired board with every tile hidden, the game stopped and the countdown cleared; the pending preview, the selection, `canClick`, score, time and moves are all kept |
| `Rules.EndPreview` | game.js:155-163 | the preview callback hides every unmatched tile and leaves matched tiles as they were, starts the countdown and uses up one pending preview; colours, matched flags, counters and selection unchanged |
| `Rules.EndGame` | game.js:359-419 | the game is inactive, the countdown stopped, and every tile is shown with its colour and matched flag kept |
| `Rules.Tick` | game.js:227-239 | one second off the clock; the game stays active exactly while more than one second was left; score, moves, selection, colours and matched flags unchanged |
| `Rules.Click` | game.js:259-343 | a click changes only the clicked tile and never a colour or matched flag; score, clock, game state and pending preview unchanged; moves grow by at most one |
| `Rules.Resolve` | game.js:293-355 | resolving keeps every colour, clears the selection and enables input; moves, time and pending preview unchanged; it never starts a game |
| `Rules.StartEffect` | game.js:119-135 | no-op when active; otherwise active, score 0, time 60, moves 0, no selection, every tile shown, one more preview scheduled, matches kept |
| `Rules.ClickIgnoredIffGuarded` | game.js:259-265 | a click changes nothing exactly when the game is inactive, input is locked, the tile is matched or the tile is not hidden |
| `Rules.FirstClick` | game.js:271-277 | an accepted first click reveals and records the tile; moves, score and everything else unchanged |
| `Rules.SecondClick` | game.js:279-287 | an accepted second click reveals and records the tile, adds exactly 1 to moves and locks input; score, clock, countdown and pending preview unchanged |
| `Rules.ResolveMatch` | game.js:293-323 | on equal colours both tiles become matched and every other tile is unchanged, unless the board is now complete, in which case every tile is shown; the matched count grows by 2; score grows by exactly 10 plus `2*timeLeft` when the board is complete; the game ends exactly then and the countdown is otherwise unchanged; moves, time and pending preview unchanged; selection cleared, input enabled |
| `Rules.ResolveMismatch` | game.js:325-337 | on different colours both tiles are hidden again, matched flags, score and other tiles unchanged, selection cleared, input enabled |
| `Rules.TickEffect` | game.js:227-239 | a tick takes exactly one second off; with time left nothing else changes; when the time reaches 0 or below the result is exactly `endGame(false)` on the decremented state, which shows every tile and stops the countdown |
| `Rules.EndGameEffect` | game.js:359-419 | inactive, countdown stopped, every tile shown with its colour and matched flag kept; score grows by exactly `2*timeLeft` on a win and is unchanged on a loss; time, moves, selection, `canClick` and pending preview unchanged |
| `Invariant.InitialInv` | game.js:5-19 | the state after page load satisfies the invariant |
| `Invariant.StartKeepsInv` | game.js:119-171 | starting keeps the invariant |
| `Invariant.ResetKeepsInv` | game.js:175-187 | resetting keeps the invariant |
| `Invariant.EndPreviewKeepsInv` | game.js:155-163 | the end of the preview keeps the invariant; matched tiles stay shown |
| `Invariant.EndGameKeepsInv` | game.js:359-419 | ending the game keeps the invariant, even when entered with the clock still running at zero |
| `Invariant.TickKeepsInv` | game.js:227-239 | a tick keeps the invariant; the time never goes below 0 |
| `Invariant.ClickKeepsInv` | game.js:259-343 | a click keeps the invariant |
| `Invariant.ResolveKeepsInv` | game.js:293-355 | a pending resolution is well-formed and resolving keeps the invariant |
| `Invariant.NoClickDuringPreview` | game.js:259-265 | while the preview is pending every tile is shown, so no click is accepted |
| `Traces.RunKeepsInv` | game.js:119-419 | every sequence of events keeps the invariant |
| `Traces.Reachable` | game.js:119-419 | in every reachable state: 24 tiles with each colour exactly twice, no matched tile hidden, an even matched count, time, score and moves never negative, two distinct selections at most, input locked exactly while a resolution is pending |
| `Traces.CountdownRuns` | game.js:227-239 | while time is left each tick takes one second and changes nothing else |
| `Traces.CountdownEnds` | game.js:227-239 | with nothing else happening the game ends as a loss on exactly the tick that reaches 0, with no bonus and every tile shown, and no later tick happens |
| `Traces.PairScenarioOutcome` | game.js:259-337 | in a fresh game, two tiles of one colour end matched with score 10 and 1 move; two of different colours end hidden with score 0 and 1 move |
| `Traces.SelfPairAsWritten` | game.js:175-187 | under the source's `startGame`/`resetGame`, start, reset, start lets one tile be selected twice and matched alone, for 10 points |
| `Traces.NoSelfPair` | game.js:175-187 | with the corrected reset, no reachable state selects one tile twice and the matched count stays even |
| `Traces.TimeoutDuringResolution` | game.js:227-239 | if the clock runs out while a resolution is pending, the game ends with both tiles still selected and input locked |
| `Traces.StartAsWrittenStrands` | game.js:119-135 | the source's `startGame` in that state clears the selection but leaves input locked |
| `Traces.StrandedForever` | game.js:347-355 | once input is locked with nothing selected, no sequence of events under the source's functions unlocks it and every click is ignored |
| `Traces.NeverStranded` | game.js:119-135 | with the corrected start, no reachable state has input locked without a pending resolution |
| `Controller.BuildBoard` | game.js:79-105 | builds a fresh array equal to `NewBoard(picks)`: the palette twice, shuffled in place, one hidden unmatched tile per colour |
| `Controller.Game.constructor` | game.js:5-19 | page load: the initial values of the variables and the first board, satisfying the invariant |
| `Controller.Game.InitializeGame` | game.js:69-115 | replaces the tiles by a fresh board; counters unchanged |
| `Controller.Game.ShowAllColors` | game.js:191-201 | the tiles afterwards are `ShowAll` of the tiles before |
| `Controller.Game.HideAllColors` | game.js:205-219 | the tiles afterwards are `HideUnmatched` of the tiles before |
| `Controller.Game.CountMatched` | game.js:311-313 | returns the number of matched tiles, equal to the number of tiles exactly when all are matched |
| `Controller.Game.StartGame` | game.js:119-171 | performs `Rules.Start` and keeps the invariant |
| `Controller.Game.ResetGame` | game.js:175-187 | performs `Rules.Reset` on a fresh board and keeps the invariant |
| `Controller.Game.EndPreview` | game.js:155-163 | performs `Rules.EndPreview` and keeps the invariant |
| `Controller.Game.Tick` | game.js:227-239 | performs `Rules.Tick` and keeps the invariant |
| `Controller.Game.HandleTileClick` | game.js:259-343 | performs `Rules.Click` and keeps the invariant |
| `Controller.Game.ResetSelection` | game.js:347-355 | clears both selections and enables input, nothing else changes |
| `Controller.Game.Resolve` | game.js:293-337 | performs `Rules.Resolve` and keeps the invariant |
| `Controller.Game.EndGame` | game.js:359-419 | performs `Rules.EndGame` |

## Left out

- DOM work is not modelled: tile elements and their `dataset`, `innerHTML`, `updateDisplay`, status messages and their colours, enabling and dimming the Start button, the low-time timer colour and the CSS pulse animation (game.js:243-251, game.js:453-469). A tile's classes are the booleans `hidden` and `matched`.
- Event-listener wiring is not modelled (game.js:1, game.js:57-65, game.js:101). Clicks are method calls.
- Timer delays are not modelled: the 3000 ms, 1000 ms, 500 ms and 1500 ms values. A callback may run at any point while it is scheduled.
- The delayed win message at game.js:387-391 only sets display text, so it is not modelled.
- `Math.random` is a parameter, not a random source. Uniformity of the shuffle is not stated. `Shuffle.EveryArrangementPossible` states only that every arrangement can be produced.
- A resolution pending across `resetGame` is not modelled. In the source, that callback marks or hides the detached tiles of the old board and adds 10 to the stale score on a match. Positions cannot refer to a board that is gone, so the corrected reset cancels the pending resolution instead. Under `Rules.ResetAsWritten`, a later resolution would act on the new board's positions. That path is not used by any as-written lemma.
- Rules.Start, Rules.Reset, Controller.Game.StartGame and Controller.Game.ResetGame carry the corrections listed under Findings, not the source's exact behaviour. The source's behaviour is `Rules.StartAsWritten` and `Rules.ResetAsWritten`.

## Findings

| source | as-written | input that shows it | evidently intended | confidence | as-written member | corrected member |
|---|---|---|---|---|---|---|
| game.js:175-187 | `resetGame` stops the countdown but does not cancel the 3-second preview callback that `startGame` scheduled (game.js:155-163) | Start, Reset, then Start again within 3 s. The first game's callback hides the new board early. Click tile k within 0.5 s before the second callback fires. That callback hides k again, and clicking k once more accepts it as its own partner: 1 move, +10 points, one matched tile | reset cancels the pending preview, so the only preview is the current game's, and a selection is always two distinct tiles | high (not executed) | `Traces.SelfPairAsWritten` (on `Rules.ResetAsWritten`) | `Traces.NoSelfPair` (on `Rules.Reset`) |
| game.js:119-135 | `startGame` nulls `firstTile`/`secondTile` but never sets `canClick` back to true | Make the second click of a mismatch with 1 s left. The time runs out before the 1000 ms callback fires. Press Start before it fires: the callback dereferences the null `firstTile` and stops before `resetSelection`, so every later tile click is ignored, even after Reset and Start | a new game starts with input enabled | high (not executed) | `Traces.StrandedForever` (on `Rules.StartAsWritten`, state reached per `Traces.TimeoutDuringResolution` and `Traces.StartAsWrittenStrands`) | `Traces.NeverStranded` (on `Rules.Start`) |
