/**
 * The game's state and every transition of it, as functions on values:
 * `startGame`, `resetGame`, the preview-end callback, the countdown tick,
 * `handleTileClick`, the two resolution callbacks with `resetSelection`,
 * and `endGame` (game.js:119-419). The class in game.dfy performs the same
 * transitions in place and is proved against these functions.
 */
module Rules {
  import opened Shuffle
  import opened Board

  datatype Option<T> = None | Some(value: T)

  /** Seconds on the clock when a game starts. */
  const StartTime: int := 60
  /** Points for one matched pair. */
  const MatchPoints: int := 10
  /** Bonus points per second left on a win. */
  const BonusPerSecond: int := 2

  /** The module-level variables of the game (game.js:5-19) with the tiles.
      `firstTile` and `secondTile` hold tile positions instead of DOM nodes.
      `timerRunning` says that `timerInterval` holds a live interval;
      `previewsPending` counts the 3-second callbacks scheduled by
      `startGame` that have not fired yet. */
  datatype Model = Model(
    tiles: seq<Tile>,
    score: int,
    timeLeft: int,
    moves: int,
    gameActive: bool,
    firstTile: Option<nat>,
    secondTile: Option<nat>,
    canClick: bool,
    timerRunning: bool,
    previewsPending: nat)

  /** The state after the page loads: the initial variable values and the
      board of the first `initializeGame`. */
  function Initial(picks: seq<nat>): (r: Model)
    requires ValidPicks(picks, BoardSize)
    ensures Paired(r.tiles) && AllHidden(r.tiles)
    ensures !r.gameActive && !r.timerRunning && r.previewsPending == 0
    ensures r.firstTile.None? && r.secondTile.None? && r.canClick
  {
    NewBoardIsPaired(picks);
    Model(NewBoard(picks), 0, StartTime, 0, false, None, None, true, false, 0)
  }

  /** `startGame` exactly as the source has it (game.js:119-171): it does not
      touch `canClick`. */
  function StartAsWritten(m: Model): (r: Model)
    ensures r.canClick == m.canClick
    ensures |r.tiles| == |m.tiles|
    ensures forall k :: 0 <= k < |m.tiles| ==>
      r.tiles[k].color == m.tiles[k].color && r.tiles[k].matched == m.tiles[k].matched
  {
    if m.gameActive then m
    else m.(gameActive := true, score := 0, timeLeft := StartTime, moves := 0,
            firstTile := None, secondTile := None, tiles := ShowAll(m.tiles),
            previewsPending := m.previewsPending + 1)
  }

  /** `startGame` corrected to also re-enable input, so that a game started
      while a stale resolution could never complete is still playable. */
  function Start(m: Model): Model {
    if m.gameActive then m else StartAsWritten(m).(canClick := true)
  }

  /** `resetGame` exactly as the source has it (game.js:175-187): it stops
      the countdown and builds a new board, but cancels neither the pending
      preview callback nor a pending resolution, and keeps the old score,
      time and move count until the next start. */
  function ResetAsWritten(m: Model, picks: seq<nat>): (r: Model)
    requires ValidPicks(picks, BoardSize)
    ensures Paired(r.tiles) && AllHidden(r.tiles) && !r.gameActive && !r.timerRunning
    ensures r.previewsPending == m.previewsPending
    ensures r.firstTile == m.firstTile && r.secondTile == m.secondTile && r.canClick == m.canClick
    ensures r.score == m.score && r.timeLeft == m.timeLeft && r.moves == m.moves
  {
    NewBoardIsPaired(picks);
    m.(gameActive := false, timerRunning := false, tiles := NewBoard(picks))
  }

  /** `resetGame` corrected to cancel the pending preview and resolution
      callbacks along with the countdown. */
  function Reset(m: Model, picks: seq<nat>): Model
    requires ValidPicks(picks, BoardSize)
  {
    ResetAsWritten(m, picks).(previewsPending := 0, firstTile := None, secondTile := None, canClick := true)
  }

  /** The 3-second callback of `startGame` (game.js:155-163): hide every
      unmatched tile and (re)start the countdown. */
  function EndPreview(m: Model): (r: Model)
    requires m.previewsPending > 0
    ensures |r.tiles| == |m.tiles|
    ensures forall k :: 0 <= k < |m.tiles| ==>
      && r.tiles[k].color == m.tiles[k].color && r.tiles[k].matched == m.tiles[k].matched
      && (!m.tiles[k].matched ==> r.tiles[k].hidden)
      && (m.tiles[k].matched ==> r.tiles[k] == m.tiles[k])
    ensures r.timerRunning && r.previewsPending == m.previewsPending - 1
    ensures r.score == m.score && r.timeLeft == m.timeLeft && r.moves == m.moves && r.gameActive == m.gameActive
    ensures r.firstTile == m.firstTile && r.secondTile == m.secondTile && r.canClick == m.canClick
  {
    m.(tiles := HideUnmatched(m.tiles), timerRunning := true, previewsPending := m.previewsPending - 1)
  }

  /** `endGame(won)` (game.js:359-419). */
  function EndGame(m: Model, won: bool): (r: Model)
    ensures !r.gameActive && !r.timerRunning && NoneHidden(r.tiles) && |r.tiles| == |m.tiles|
    ensures forall k :: 0 <= k < |m.tiles| ==> r.tiles[k] == m.tiles[k].(hidden := false)
  {
    m.(gameActive := false, timerRunning := false,
       score := if won then m.score + BonusPerSecond * m.timeLeft else m.score,
       tiles := ShowAll(m.tiles))
  }

  /** The body of the countdown interval (game.js:227-239). */
  function Tick(m: Model): (r: Model)
    requires m.timerRunning
    ensures r.timeLeft == m.timeLeft - 1
    ensures r.gameActive == (m.gameActive && m.timeLeft > 1)
    ensures r.score == m.score && r.moves == m.moves && r.previewsPending == m.previewsPending
    ensures r.firstTile == m.firstTile && r.secondTile == m.secondTile && r.canClick == m.canClick
    ensures |r.tiles| == |m.tiles|
    ensures forall k :: 0 <= k < |m.tiles| ==>
      r.tiles[k].color == m.tiles[k].color && r.tiles[k].matched == m.tiles[k].matched
  {
    var m' := m.(timeLeft := m.timeLeft - 1);
    if m'.timeLeft <= 0 then EndGame(m', false) else m'
  }

  /** The guard of `handleTileClick` lets a click on tile `k` through
      (game.js:261-265). */
  predicate Accepts(m: Model, k: nat)
    requires k < |m.tiles|
  {
    m.gameActive && m.canClick && !m.tiles[k].matched && m.tiles[k].hidden
  }

  /** `handleTileClick` on tile `k` (game.js:259-343), up to scheduling the
      resolution callback. */
  function Click(m: Model, k: nat): (r: Model)
    requires k < |m.tiles|
    ensures |r.tiles| == |m.tiles|
    ensures forall j :: 0 <= j < |m.tiles| ==>
      r.tiles[j].color == m.tiles[j].color && r.tiles[j].matched == m.tiles[j].matched
    ensures forall j :: 0 <= j < |m.tiles| && j != k ==> r.tiles[j] == m.tiles[j]
    ensures SameCounters(m, r.(moves := m.moves))
    ensures r.moves == m.moves || r.moves == m.moves + 1
  {
    if !Accepts(m, k) then m
    else
      var revealed := m.tiles[k := m.tiles[k].(hidden := false)];
      if m.firstTile.None? then m.(tiles := revealed, firstTile := Some(k))
      else m.(tiles := revealed, secondTile := Some(k), moves := m.moves + 1, canClick := false)
  }

  /** Two tiles are selected: a resolution callback is scheduled. */
  predicate ResolutionPending(m: Model) {
    && m.firstTile.Some? && m.secondTile.Some?
    && m.firstTile.value < |m.tiles| && m.secondTile.value < |m.tiles|
  }

  /** `resetSelection` (game.js:347-355). */
  function ResetSelection(m: Model): Model {
    m.(firstTile := None, secondTile := None, canClick := true)
  }

  /** The resolution callback: the match branch (game.js:297-323) when the
      two colours agree, the mismatch branch (game.js:329-337) otherwise. */
  function Resolve(m: Model): (r: Model)
    requires ResolutionPending(m)
    ensures |r.tiles| == |m.tiles|
    ensures forall k :: 0 <= k < |m.tiles| ==> r.tiles[k].color == m.tiles[k].color
    ensures r.firstTile.None? && r.secondTile.None? && r.canClick
    ensures r.moves == m.moves && r.timeLeft == m.timeLeft && r.previewsPending == m.previewsPending
    ensures r.gameActive ==> m.gameActive
  {
    var a, b := m.firstTile.value, m.secondTile.value;
    if m.tiles[a].color == m.tiles[b].color then
      var markedA := m.tiles[a := m.tiles[a].(matched := true)];
      var marked := markedA[b := markedA[b].(matched := true)];
      var scored := m.(tiles := marked, score := m.score + MatchPoints);
      var checked := if MatchedCount(marked) == BoardSize then EndGame(scored, true) else scored;
      ResetSelection(checked)
    else
      var hiddenA := m.tiles[a := m.tiles[a].(hidden := true)];
      ResetSelection(m.(tiles := hiddenA[b := hiddenA[b].(hidden := true)]))
  }

  /** Everything but the tile flags of a model, for "nothing else changes". */
  predicate SameCounters(m: Model, m': Model) {
    && m'.score == m.score && m'.timeLeft == m.timeLeft && m'.moves == m.moves
    && m'.gameActive == m.gameActive && m'.timerRunning == m.timerRunning
    && m'.previewsPending == m.previewsPending
  }

  /** `startGame` is a no-op on an active game; otherwise it starts a fresh
      game on the current board, shows every tile and schedules a preview. */
  lemma StartEffect(m: Model)
    ensures m.gameActive ==> Start(m) == m
    ensures !m.gameActive ==>
      var r := Start(m);
      && r.gameActive && r.score == 0 && r.timeLeft == StartTime && r.moves == 0
      && r.firstTile.None? && r.secondTile.None? && r.canClick
      && r.timerRunning == m.timerRunning && r.previewsPending == m.previewsPending + 1
      && |r.tiles| == |m.tiles| && NoneHidden(r.tiles)
      && forall k :: 0 <= k < |m.tiles| ==> r.tiles[k].color == m.tiles[k].color && r.tiles[k].matched == m.tiles[k].matched
  {
  }

  /** A click changes the state exactly when the guard lets it through;
      otherwise it is ignored (game.js:261-265). */
  lemma ClickIgnoredIffGuarded(m: Model, k: nat)
    requires k < |m.tiles|
    ensures Click(m, k) == m <==> !Accepts(m, k)
  {
    if Accepts(m, k) {
      assert Click(m, k).tiles[k].hidden != m.tiles[k].hidden;
    }
  }

  /** An accepted first click reveals the tile and records it; nothing else
      changes, the move count in particular (game.js:271-277). */
  lemma FirstClick(m: Model, k: nat)
    requires k < |m.tiles| && Accepts(m, k) && m.firstTile.None?
    ensures var r := Click(m, k);
      && r.firstTile == Some(k) && r.secondTile == m.secondTile
      && r.tiles == m.tiles[k := m.tiles[k].(hidden := false)]
      && r.canClick && SameCounters(m, r)
  {
  }

  /** An accepted second click reveals and records the tile, counts exactly
      one move and locks input (game.js:279-287). */
  lemma SecondClick(m: Model, k: nat)
    requires k < |m.tiles| && Accepts(m, k) && m.firstTile.Some?
    ensures var r := Click(m, k);
      && r.firstTile == m.firstTile && r.secondTile == Some(k)
      && r.tiles == m.tiles[k := m.tiles[k].(hidden := false)]
      && r.moves == m.moves + 1 && !r.canClick
      && r.score == m.score && r.timeLeft == m.timeLeft && r.gameActive == m.gameActive
      && r.timerRunning == m.timerRunning && r.previewsPending == m.previewsPending
  {
  }

  /** Resolving two distinct unmatched tiles of one colour: both become
      matched, two more tiles count as matched, the score grows by exactly
      10 plus, when the board is now complete, the time bonus; the game ends
      exactly then, and the selection is cleared with input re-enabled
      (game.js:293-323, game.js:347-355). */
  lemma {:induction false} ResolveMatch(m: Model)
    requires ResolutionPending(m)
    requires m.firstTile.value != m.secondTile.value
    requires !m.tiles[m.firstTile.value].matched && !m.tiles[m.secondTile.value].matched
    requires m.tiles[m.firstTile.value].color == m.tiles[m.secondTile.value].color
    ensures var r := Resolve(m);
      var a := m.firstTile.value;
      var b := m.secondTile.value;
      var won := MatchedCount(r.tiles) == BoardSize;
      && |r.tiles| == |m.tiles|
      && r.tiles[a] == m.tiles[a].(matched := true, hidden := m.tiles[a].hidden && !won)
      && r.tiles[b] == m.tiles[b].(matched := true, hidden := m.tiles[b].hidden && !won)
      && (forall k :: 0 <= k < |m.tiles| && k != a && k != b ==>
            r.tiles[k] == if won then m.tiles[k].(hidden := false) else m.tiles[k])
      && MatchedCount(r.tiles) == MatchedCount(m.tiles) + 2
      && r.score == m.score + MatchPoints + (if won then BonusPerSecond * m.timeLeft else 0)
      && r.gameActive == (m.gameActive && !won)
      && (won ==> !r.timerRunning && NoneHidden(r.tiles))
      && (!won ==> r.timerRunning == m.timerRunning)
      && r.firstTile.None? && r.secondTile.None? && r.canClick
      && r.moves == m.moves && r.timeLeft == m.timeLeft && r.previewsPending == m.previewsPending
  {
    var a, b := m.firstTile.value, m.secondTile.value;
    var markedA := m.tiles[a := m.tiles[a].(matched := true)];
    var marked := markedA[b := markedA[b].(matched := true)];
    MatchedCountMark(m.tiles, a);
    MatchedCountMark(markedA, b);
    if MatchedCount(marked) == BoardSize {
      MatchedCountSame(marked, ShowAll(marked));
    }
  }

  /** Resolving two tiles of different colours hides both again and clears
      the selection; matches, score and every other tile stay as they were
      (game.js:325-337). */
  lemma ResolveMismatch(m: Model)
    requires ResolutionPending(m)
    requires m.tiles[m.firstTile.value].color != m.tiles[m.secondTile.value].color
    ensures var r := Resolve(m);
      && |r.tiles| == |m.tiles|
      && r.tiles[m.firstTile.value].hidden && r.tiles[m.secondTile.value].hidden
      && (forall k :: 0 <= k < |m.tiles| ==>
            r.tiles[k].matched == m.tiles[k].matched && r.tiles[k].color == m.tiles[k].color)
      && (forall k :: 0 <= k < |m.tiles| && k != m.firstTile.value && k != m.secondTile.value ==>
            r.tiles[k] == m.tiles[k])
      && r.firstTile.None? && r.secondTile.None? && r.canClick && SameCounters(m, r)
  {
  }

  /** A tick takes one second off; the game ends as a loss exactly when the
      clock reaches zero or below, and then the countdown stops. */
  lemma TickEffect(m: Model)
    requires m.timerRunning
    ensures var r := Tick(m);
      && r.timeLeft == m.timeLeft - 1 && r.score == m.score && r.moves == m.moves
      && (r.timerRunning <==> m.timeLeft > 1)
      && (m.timeLeft <= 1 ==> !r.gameActive && NoneHidden(r.tiles))
      && (m.timeLeft > 1 ==> r == m.(timeLeft := m.timeLeft - 1))
      && (m.timeLeft <= 1 ==> r == EndGame(m.(timeLeft := m.timeLeft - 1), false))
  {
  }

  /** `endGame(won)`: inactive and every tile revealed either way; the score
      grows by exactly twice the remaining time on a win and not at all on
      a loss (game.js:359-419). */
  lemma EndGameEffect(m: Model, won: bool)
    ensures var r := EndGame(m, won);
      && !r.gameActive && !r.timerRunning && NoneHidden(r.tiles) && |r.tiles| == |m.tiles|
      && r.score == m.score + (if won then 2 * m.timeLeft else 0)
      && MatchedCount(r.tiles) == MatchedCount(m.tiles)
      && r.timeLeft == m.timeLeft && r.moves == m.moves && r.previewsPending == m.previewsPending
      && (forall k :: 0 <= k < |m.tiles| ==> r.tiles[k] == m.tiles[k].(hidden := false))
      && r.firstTile == m.firstTile && r.secondTile == m.secondTile && r.canClick == m.canClick
  {
    MatchedCountSame(m.tiles, ShowAll(m.tiles));
  }
}
