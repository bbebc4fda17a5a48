/**
 * What holds in every state the game can reach: the board stays paired,
 * a matched tile is never hidden, at most two tiles are selected and input
 * is locked exactly while a resolution is pending, the clock never goes
 * below zero, and the preview phase blocks every click. Each transition of
 * Rules preserves it, so every sequence of events from page load does.
 */
module Invariant {
  import opened Shuffle
  import opened Board
  import opened Rules

  /** The selection: a second tile only after a first one, both on the
      board, distinct, revealed and unmatched; input is locked exactly
      while two tiles are selected. */
  predicate SelectionOk(m: Model) {
    && (m.secondTile.Some? ==> m.firstTile.Some?)
    && (m.firstTile.Some? ==>
          m.firstTile.value < |m.tiles| && !m.tiles[m.firstTile.value].hidden && !m.tiles[m.firstTile.value].matched)
    && (m.secondTile.Some? ==>
          && m.secondTile.value < |m.tiles| && !m.tiles[m.secondTile.value].hidden
          && !m.tiles[m.secondTile.value].matched && m.secondTile.value != m.firstTile.value)
    && (m.canClick <==> m.secondTile.None?)
  }

  /** The clock: it runs only during a game and only with time left on it,
      and the time never drops below zero. A preview is pending only at the
      start of an active game, before the countdown and any selection,
      with every tile shown. */
  predicate ClockOk(m: Model) {
    && m.timeLeft >= 0
    && (m.timerRunning ==> m.gameActive && m.timeLeft > 0)
    && m.previewsPending <= 1
    && (m.previewsPending == 1 ==>
          && m.gameActive && !m.timerRunning && m.timeLeft == StartTime
          && m.firstTile.None? && NoneHidden(m.tiles))
  }

  predicate Inv(m: Model) {
    && Paired(m.tiles)
    && MatchedShown(m.tiles)
    && MatchedCount(m.tiles) % 2 == 0
    && m.score >= 0 && m.moves >= 0
    && SelectionOk(m)
    && ClockOk(m)
  }

  lemma InitialInv(picks: seq<nat>)
    requires ValidPicks(picks, BoardSize)
    ensures Inv(Initial(picks))
  {
    NewBoardIsPaired(picks);
    MatchedCountExtremes(NewBoard(picks));
  }

  /** Replacing the tiles by ones with the same colours and `matched` flags
      keeps the board paired and the matched count. */
  lemma SameMatches(ts: seq<Tile>, us: seq<Tile>)
    requires Paired(ts) && |us| == |ts|
    requires forall k :: 0 <= k < |ts| ==> us[k].color == ts[k].color && us[k].matched == ts[k].matched
    ensures Paired(us) && MatchedCount(us) == MatchedCount(ts)
  {
    PairedKeptBy(ts, us);
    MatchedCountSame(ts, us);
  }

  lemma StartKeepsInv(m: Model)
    requires Inv(m)
    ensures Inv(Start(m))
  {
    if !m.gameActive {
      ShowAllEffect(m.tiles);
      SameMatches(m.tiles, ShowAll(m.tiles));
    }
  }

  lemma ResetKeepsInv(m: Model, picks: seq<nat>)
    requires Inv(m) && ValidPicks(picks, BoardSize)
    ensures Inv(Reset(m, picks))
  {
    NewBoardIsPaired(picks);
    MatchedCountExtremes(NewBoard(picks));
  }

  lemma EndPreviewKeepsInv(m: Model)
    requires Inv(m) && m.previewsPending > 0
    ensures Inv(EndPreview(m))
  {
    HideUnmatchedEffect(m.tiles);
    SameMatches(m.tiles, HideUnmatched(m.tiles));
  }

  /** `endGame` stops the countdown, so it may be entered with the clock
      still running at zero. */
  lemma EndGameKeepsInv(m: Model, won: bool)
    requires Inv(m.(timerRunning := false)) && m.previewsPending == 0
    ensures Inv(EndGame(m, won))
  {
    assert EndGame(m, won) == EndGame(m.(timerRunning := false), won);
    ShowAllEffect(m.tiles);
    SameMatches(m.tiles, ShowAll(m.tiles));
  }

  lemma TickKeepsInv(m: Model)
    requires Inv(m) && m.timerRunning
    ensures Inv(Tick(m))
  {
    var m' := m.(timeLeft := m.timeLeft - 1);
    if m'.timeLeft <= 0 {
      EndGameKeepsInv(m', false);
    }
  }

  lemma ClickKeepsInv(m: Model, k: nat)
    requires Inv(m) && k < |m.tiles|
    ensures Inv(Click(m, k))
  {
    if Accepts(m, k) {
      var revealed := m.tiles[k := m.tiles[k].(hidden := false)];
      SameMatches(m.tiles, revealed);
    }
  }

  /** During the preview every tile is shown, so every click is ignored:
      no selection is accepted before the countdown starts
      (game.js:149, game.js:191-201, game.js:261-265). */
  lemma NoClickDuringPreview(m: Model, k: nat)
    requires Inv(m) && m.previewsPending > 0 && k < |m.tiles|
    ensures !Accepts(m, k) && Click(m, k) == m
  {
  }

  lemma ResolveKeepsInv(m: Model)
    requires Inv(m) && m.secondTile.Some?
    ensures ResolutionPending(m) && Inv(Resolve(m))
  {
    var a, b := m.firstTile.value, m.secondTile.value;
    if m.tiles[a].color == m.tiles[b].color {
      var markedA := m.tiles[a := m.tiles[a].(matched := true)];
      var marked := markedA[b := markedA[b].(matched := true)];
      ResolveMatch(m);
      PairedKeptBy(m.tiles, marked);
      var scored := m.(tiles := marked, score := m.score + MatchPoints);
      assert Inv(scored.(firstTile := None, secondTile := None, canClick := true));
      if MatchedCount(marked) == BoardSize {
        EndGameKeepsInv(scored.(firstTile := None, secondTile := None, canClick := true), true);
        assert EndGame(scored, true).(firstTile := None, secondTile := None, canClick := true)
            == EndGame(scored.(firstTile := None, secondTile := None, canClick := true), true);
      }
    } else {
      var hiddenA := m.tiles[a := m.tiles[a].(hidden := true)];
      var hidden := hiddenA[b := hiddenA[b].(hidden := true)];
      SameMatches(m.tiles, hidden);
    }
  }
}
