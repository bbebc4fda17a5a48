/**
 * The game controller as the source runs it: the module-level variables
 * become the fields of one `Game` object, the tiles an array updated in
 * place, and the `forEach` loops over the tiles `while` loops. Each method
 * is proved to perform the transition of the same name in Rules and to
 * keep the invariant of Invariant.
 */
module Controller {
  import opened Shuffle
  import opened Board
  import opened Rules
  import opened Invariant

  /** The body of `initializeGame` without its DOM work (game.js:79-105):
      the palette twice, shuffled in place, then one hidden, unmatched tile
      per colour. */
  method BuildBoard(picks: seq<nat>) returns (board: array<Tile>)
    requires ValidPicks(picks, BoardSize)
    ensures fresh(board)
    ensures board[..] == NewBoard(picks)
  {
    var colorPairs := new nat[BoardSize];
    for k := 0 to BoardSize
      invariant forall l :: 0 <= l < k ==> colorPairs[l] == PairedColours()[l]
    {
      PairedColoursAt(k);
      colorPairs[k] := k % |Palette|;
    }
    assert colorPairs[..] == PairedColours();
    ShuffleArray(colorPairs, picks);
    ghost var shuffled := colorPairs[..];
    assert shuffled == Shuffled(PairedColours(), picks);
    board := new Tile[colorPairs.Length];
    for k := 0 to colorPairs.Length
      invariant colorPairs[..] == shuffled
      invariant forall l :: 0 <= l < k ==> board[l] == Tile(shuffled[l], true, false)
    {
      board[k] := Tile(colorPairs[k], true, false);
    }
    assert board[..] == NewBoard(picks);
  }

  class Game {
    var tiles: array<Tile>
    var score: int
    var timeLeft: int
    var moves: int
    var gameActive: bool
    var firstTile: Option<nat>
    var secondTile: Option<nat>
    var canClick: bool
    /** `timerInterval` holds a live interval. */
    var timerRunning: bool
    /** Preview callbacks of `startGame` not yet fired. */
    var previewsPending: nat

    /** The object's state as a value of Rules.Model. */
    function Snapshot(): Model
      reads this, tiles
    {
      Model(tiles[..], score, timeLeft, moves, gameActive, firstTile, secondTile,
            canClick, timerRunning, previewsPending)
    }

    ghost predicate Valid()
      reads this, tiles
    {
      Inv(Snapshot())
    }

    /** Page load: the initial variable values and the first board. */
    constructor (picks: seq<nat>)
      requires ValidPicks(picks, BoardSize)
      ensures Valid() && Snapshot() == Initial(picks)
    {
      var board := BuildBoard(picks);
      tiles := board;
      score, timeLeft, moves := 0, StartTime, 0;
      gameActive, firstTile, secondTile, canClick := false, None, None, true;
      timerRunning, previewsPending := false, 0;
      new;
      InitialInv(picks);
    }

    /** `initializeGame`: a fresh board; the counters are only redisplayed,
        so they keep their values. */
    method InitializeGame(picks: seq<nat>)
      requires ValidPicks(picks, BoardSize)
      modifies this`tiles
      ensures fresh(tiles) && tiles[..] == NewBoard(picks)
    {
      tiles := BuildBoard(picks);
    }

    /** `showAllColors`: every tile loses `hidden`. */
    method ShowAllColors()
      modifies tiles
      ensures tiles[..] == ShowAll(old(tiles[..]))
    {
      var i := 0;
      while i < tiles.Length
        invariant 0 <= i <= tiles.Length
        invariant forall k :: 0 <= k < i ==> tiles[k] == old(tiles[k]).(hidden := false)
        invariant forall k :: i <= k < tiles.Length ==> tiles[k] == old(tiles[k])
      {
        tiles[i] := tiles[i].(hidden := false);
        i := i + 1;
      }
    }

    /** `hideAllColors`: every tile that is not matched gets `hidden`. */
    method HideAllColors()
      modifies tiles
      ensures tiles[..] == HideUnmatched(old(tiles[..]))
    {
      var i := 0;
      while i < tiles.Length
        invariant 0 <= i <= tiles.Length
        invariant forall k :: 0 <= k < i ==>
          tiles[k] == if old(tiles[k]).matched then old(tiles[k]) else old(tiles[k]).(hidden := true)
        invariant forall k :: i <= k < tiles.Length ==> tiles[k] == old(tiles[k])
      {
        if !tiles[i].matched {
          tiles[i] := tiles[i].(hidden := true);
        }
        i := i + 1;
      }
    }

    /** The count of tiles with the `matched` class. */
    method CountMatched() returns (n: nat)
      ensures n == MatchedCount(tiles[..])
      ensures n == tiles.Length <==> forall k :: 0 <= k < tiles.Length ==> tiles[k].matched
    {
      n := 0;
      var i := 0;
      while i < tiles.Length
        invariant 0 <= i <= tiles.Length
        invariant n == MatchedCount(tiles[..i])
      {
        assert tiles[..i + 1][..i] == tiles[..i];
        if tiles[i].matched {
          n := n + 1;
        }
        i := i + 1;
      }
      assert tiles[..] == tiles[..tiles.Length];
      MatchedCountExtremes(tiles[..]);
    }

    /** `startGame`, with input re-enabled (the corrected Rules.Start). */
    method StartGame()
      requires Valid()
      modifies this, tiles
      ensures tiles == old(tiles)
      ensures Valid() && Snapshot() == Start(old(Snapshot()))
    {
      ghost var before := Snapshot();
      StartKeepsInv(before);
      if gameActive {
        return;
      }
      gameActive := true;
      score, timeLeft, moves := 0, StartTime, 0;
      firstTile, secondTile := None, None;
      canClick := true;
      ShowAllColors();
      previewsPending := previewsPending + 1;
    }

    /** `resetGame`, cancelling the pending callbacks along with the
        countdown (the corrected Rules.Reset). */
    method ResetGame(picks: seq<nat>)
      requires Valid() && ValidPicks(picks, BoardSize)
      modifies this
      ensures fresh(tiles)
      ensures Valid() && Snapshot() == Reset(old(Snapshot()), picks)
    {
      ghost var before := Snapshot();
      ResetKeepsInv(before, picks);
      gameActive := false;
      timerRunning := false;
      previewsPending := 0;
      ResetSelection();
      InitializeGame(picks);
    }

    /** The preview callback: hide the unmatched tiles and start the
        countdown (`startTimer` replaces any previous interval). */
    method EndPreview()
      requires Valid() && previewsPending > 0
      modifies this, tiles
      ensures tiles == old(tiles)
      ensures Valid() && Snapshot() == Rules.EndPreview(old(Snapshot()))
    {
      ghost var before := Snapshot();
      EndPreviewKeepsInv(before);
      previewsPending := previewsPending - 1;
      HideAllColors();
      timerRunning := true;
    }

    /** `endGame(won)`. */
    method EndGame(won: bool)
      modifies this, tiles
      ensures tiles == old(tiles)
      ensures Snapshot() == Rules.EndGame(old(Snapshot()), won)
    {
      gameActive := false;
      timerRunning := false;
      if won {
        score := score + BonusPerSecond * timeLeft;
      }
      ShowAllColors();
    }

    /** One firing of the countdown interval. */
    method Tick()
      requires Valid() && timerRunning
      modifies this, tiles
      ensures tiles == old(tiles)
      ensures Valid() && Snapshot() == Rules.Tick(old(Snapshot()))
    {
      ghost var before := Snapshot();
      TickKeepsInv(before);
      timeLeft := timeLeft - 1;
      if timeLeft <= 0 {
        EndGame(false);
      }
    }

    /** `handleTileClick` on the tile at position `k`. */
    method HandleTileClick(k: nat)
      requires Valid() && k < tiles.Length
      modifies this, tiles
      ensures tiles == old(tiles)
      ensures Valid() && Snapshot() == Click(old(Snapshot()), k)
    {
      ghost var before := Snapshot();
      ClickKeepsInv(before, k);
      if !gameActive || !canClick || tiles[k].matched || !tiles[k].hidden {
        return;
      }
      tiles[k] := tiles[k].(hidden := false);
      if firstTile.None? {
        firstTile := Some(k);
      } else {
        secondTile := Some(k);
        moves := moves + 1;
        canClick := false;
      }
    }

    /** `resetSelection`. */
    method ResetSelection()
      modifies this
      ensures firstTile.None? && secondTile.None? && canClick
      ensures tiles == old(tiles) && score == old(score) && timeLeft == old(timeLeft)
      ensures moves == old(moves) && gameActive == old(gameActive)
      ensures timerRunning == old(timerRunning) && previewsPending == old(previewsPending)
    {
      firstTile, secondTile := None, None;
      canClick := true;
    }

    /** The resolution callback scheduled by the second click: the match
        branch or the mismatch branch, by the colours of the two tiles. */
    method Resolve()
      requires Valid() && secondTile.Some?
      modifies this, tiles
      ensures tiles == old(tiles)
      ensures Valid() && Snapshot() == Rules.Resolve(old(Snapshot()))
    {
      ghost var before := Snapshot();
      ResolveKeepsInv(before);
      var a, b := firstTile.value, secondTile.value;
      if tiles[a].color == tiles[b].color {
        tiles[a] := tiles[a].(matched := true);
        tiles[b] := tiles[b].(matched := true);
        score := score + MatchPoints;
        var matchedTiles := CountMatched();
        if matchedTiles == BoardSize {
          EndGame(true);
        }
        ResetSelection();
      } else {
        tiles[a] := tiles[a].(hidden := true);
        tiles[b] := tiles[b].(hidden := true);
        ResetSelection();
      }
    }
  }
}
