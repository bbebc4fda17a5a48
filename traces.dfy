/**
 * Runs of the game: the events the page can deliver (button clicks, tile
 * clicks, and the timer callbacks while they are scheduled), a run of them
 * from page load, and what holds after every run. The same events under
 * the source's own `startGame` and `resetGame` show two defects of those
 * two functions.
 */
module Traces {
  import opened Shuffle
  import opened Board
  import opened Rules
  import opened Invariant

  datatype Event =
    | StartClicked
    | ResetClicked(picks: seq<nat>)
    | PreviewEnds
    | TimerTicks
    | TileClicked(k: nat)
    | ResolutionFires

  /** A button or tile click can always happen (for a tile on the board,
      with random choices the shuffle can make); a callback only while it is
      scheduled. */
  predicate Enabled(m: Model, e: Event) {
    match e
    case StartClicked => true
    case ResetClicked(picks) => ValidPicks(picks, BoardSize)
    case PreviewEnds => m.previewsPending > 0
    case TimerTicks => m.timerRunning
    case TileClicked(k) => k < |m.tiles|
    case ResolutionFires => ResolutionPending(m)
  }

  /** One event of the game; an event that cannot happen changes nothing. */
  function Next(m: Model, e: Event): Model {
    if !Enabled(m, e) then m
    else match e
      case StartClicked => Start(m)
      case ResetClicked(picks) => Reset(m, picks)
      case PreviewEnds => EndPreview(m)
      case TimerTicks => Tick(m)
      case TileClicked(k) => Click(m, k)
      case ResolutionFires => Resolve(m)
  }

  /** One event with the source's own `startGame` and `resetGame`. */
  function NextAsWritten(m: Model, e: Event): Model {
    if !Enabled(m, e) then m
    else match e
      case StartClicked => StartAsWritten(m)
      case ResetClicked(picks) => ResetAsWritten(m, picks)
      case _ => Next(m, e)
  }

  function Run(m: Model, es: seq<Event>): Model
    decreases |es|
  {
    if es == [] then m else Run(Next(m, es[0]), es[1..])
  }

  function RunAsWritten(m: Model, es: seq<Event>): Model
    decreases |es|
  {
    if es == [] then m else RunAsWritten(NextAsWritten(m, es[0]), es[1..])
  }

  lemma NextKeepsInv(m: Model, e: Event)
    requires Inv(m)
    ensures Inv(Next(m, e))
  {
    if Enabled(m, e) {
      match e
      case StartClicked => StartKeepsInv(m);
      case ResetClicked(picks) => ResetKeepsInv(m, picks);
      case PreviewEnds => EndPreviewKeepsInv(m);
      case TimerTicks => TickKeepsInv(m);
      case TileClicked(k) => ClickKeepsInv(m, k);
      case ResolutionFires => ResolveKeepsInv(m);
    }
  }

  lemma {:induction false} RunKeepsInv(m: Model, es: seq<Event>)
    requires Inv(m)
    ensures Inv(Run(m, es))
    decreases |es|
  {
    if es != [] {
      NextKeepsInv(m, es[0]);
      RunKeepsInv(Next(m, es[0]), es[1..]);
    }
  }

  /** What holds in every state reached from page load, whatever happens:
      each palette colour is on exactly two of the 24 tiles, no matched tile
      is hidden, matched tiles come two at a time, the clock never shows a
      negative time, score and moves are never negative, at most two tiles
      are selected and never the same one twice, and input is locked
      exactly while a resolution is pending. */
  lemma Reachable(picks: seq<nat>, es: seq<Event>)
    requires ValidPicks(picks, BoardSize)
    ensures var r := Run(Initial(picks), es);
      && |r.tiles| == BoardSize
      && (forall c: nat :: multiset(ColoursOf(r.tiles))[c] == if c < |Palette| then 2 else 0)
      && MatchedShown(r.tiles)
      && MatchedCount(r.tiles) % 2 == 0
      && r.timeLeft >= 0 && r.score >= 0 && r.moves >= 0
      && (r.secondTile.Some? ==> r.firstTile.Some? && r.firstTile != r.secondTile)
      && (r.canClick <==> r.secondTile.None?)
  {
    InitialInv(picks);
    RunKeepsInv(Initial(picks), es);
    var r := Run(Initial(picks), es);
    forall c: nat
      ensures multiset(ColoursOf(r.tiles))[c] == if c < |Palette| then 2 else 0
    {
      PairedCounts(r.tiles, c);
    }
  }

  /** `n` seconds of the countdown with nothing else happening. */
  function Ticks(n: nat): seq<Event> {
    seq(n, _ => TimerTicks)
  }

  /** While time is left the countdown takes exactly one second per tick
      and changes nothing else. */
  lemma {:induction false} CountdownRuns(m: Model, n: nat)
    requires Inv(m) && m.timerRunning && n < m.timeLeft
    ensures Run(m, Ticks(n)) == m.(timeLeft := m.timeLeft - n)
    decreases n
  {
    if n > 0 {
      var m' := Tick(m);
      assert m' == m.(timeLeft := m.timeLeft - 1);
      assert Ticks(n)[0] == TimerTicks && Ticks(n)[1..] == Ticks(n - 1);
      TickKeepsInv(m);
      CountdownRuns(m', n - 1);
    }
  }

  /** With the countdown running and nothing else happening, the game ends
      as a loss on exactly the tick that brings the clock to zero: it stops
      there, with no bonus, every tile shown, and later ticks never come. */
  lemma CountdownEnds(m: Model, extra: nat)
    requires Inv(m) && m.timerRunning
    ensures var r := Run(m, Ticks(m.timeLeft));
      && !r.gameActive && !r.timerRunning && r.timeLeft == 0
      && r.score == m.score && r.moves == m.moves && NoneHidden(r.tiles)
      && r.firstTile == m.firstTile && r.secondTile == m.secondTile && r.canClick == m.canClick
      && Run(r, Ticks(extra)) == r
  {
    var n := m.timeLeft - 1;
    CountdownRuns(m, n);
    var before := m.(timeLeft := 1);
    assert Ticks(m.timeLeft) == Ticks(n) + [TimerTicks];
    RunAppend(m, Ticks(n), [TimerTicks]);
    var r := Tick(before);
    assert Run(before, [TimerTicks]) == r;
    NeverTicksAgain(r, extra);
  }

  lemma {:induction false} RunAppend(m: Model, es: seq<Event>, fs: seq<Event>)
    ensures Run(m, es + fs) == Run(Run(m, es), fs)
    decreases |es|
  {
    if es == [] {
      assert es + fs == fs;
    } else {
      assert es + fs != [] && (es + fs)[0] == es[0] && (es + fs)[1..] == es[1..] + fs;
      RunAppend(Next(m, es[0]), es[1..], fs);
    }
  }

  lemma {:induction false} NeverTicksAgain(m: Model, n: nat)
    requires !m.timerRunning
    ensures Run(m, Ticks(n)) == m
    decreases n
  {
    if n > 0 {
      assert Ticks(n)[0] == TimerTicks && Ticks(n)[1..] == Ticks(n - 1);
      NeverTicksAgain(m, n - 1);
    }
  }

  /** A fresh game after page load: Start, the preview ends, and two
      different tiles are clicked, then the resolution fires. */
  function PairScenario(a: nat, b: nat): seq<Event> {
    [StartClicked, PreviewEnds, TileClicked(a), TileClicked(b), ResolutionFires]
  }

  /** Two tiles of one colour: both end matched and shown, the score is 10,
      one move is counted and the game goes on with input enabled; two tiles
      of different colours: both are hidden again, the score stays 0 and one
      move is counted. Either way the order of the two clicks does not
      matter. */
  lemma PairScenarioOutcome(picks: seq<nat>, a: nat, b: nat)
    requires ValidPicks(picks, BoardSize) && a < BoardSize && b < BoardSize && a != b
    ensures var ts := Initial(picks).tiles;
      var r := Run(Initial(picks), PairScenario(a, b));
      && |ts| == BoardSize && |r.tiles| == BoardSize && r.moves == 1 && r.gameActive && r.canClick
      && r.firstTile.None? && r.secondTile.None?
      && (ts[a].color == ts[b].color ==>
            r.score == MatchPoints && r.tiles[a].matched && r.tiles[b].matched
            && !r.tiles[a].hidden && !r.tiles[b].hidden)
      && (ts[a].color != ts[b].color ==>
            r.score == 0 && r.tiles[a].hidden && r.tiles[b].hidden
            && !r.tiles[a].matched && !r.tiles[b].matched)
  {
    var m0 := Initial(picks);
    NewBoardIsPaired(picks);
    var m1 := Start(m0);
    var m2 := EndPreview(m1);
    assert m2.tiles[a].hidden && m2.tiles[b].hidden && m2.gameActive && m2.canClick;
    var m3 := Click(m2, a);
    var m4 := Click(m3, b);
    assert m4.firstTile == Some(a) && m4.secondTile == Some(b) && m4.moves == 1;
    var r := Resolve(m4);
    var es := PairScenario(a, b);
    assert Run(m0, es) == r by {
      assert Run(m4, es[4..]) == r;
      assert Run(m3, es[3..]) == r;
      assert Run(m2, es[2..]) == r;
      assert Run(m1, es[1..]) == r;
    }
    assert forall k :: 0 <= k < BoardSize ==> m4.tiles[k].color == m0.tiles[k].color;
    if m0.tiles[a].color == m0.tiles[b].color {
      MatchedCountExtremes(m4.tiles);
      ResolveMatch(m4);
    } else {
      ResolveMismatch(m4);
    }
  }

  // ---------------------------------------------------------------------
  // Finding: `resetGame` leaves the preview callback of the game it cancels
  // scheduled (game.js:155-163, game.js:175-187).

  /** Start, reset and start again within three seconds: the first game's
      preview callback hides the board of the second game while it is
      being played. A tile revealed as the first selection is hidden again,
      the player clicks it once more, and it is accepted as its own partner:
      one move, ten points, and a single matched tile. */
  lemma SelfPairAsWritten(picks: seq<nat>, picks2: seq<nat>, k: nat)
    requires ValidPicks(picks, BoardSize) && ValidPicks(picks2, BoardSize) && k < BoardSize
    ensures var es := [StartClicked, ResetClicked(picks2), StartClicked, PreviewEnds,
                       TileClicked(k), PreviewEnds, TileClicked(k)];
      var sel := RunAsWritten(Initial(picks), es);
      var r := RunAsWritten(Initial(picks), es + [ResolutionFires]);
      && sel.firstTile == Some(k) && sel.secondTile == Some(k)
      && k < |r.tiles| && r.tiles[k].matched && MatchedCount(r.tiles) == 1
      && r.score == MatchPoints && r.moves == 1
  {
    var m0 := Initial(picks);
    var m1 := StartAsWritten(m0);
    var m2 := ResetAsWritten(m1, picks2);
    NewBoardIsPaired(picks2);
    var m3 := StartAsWritten(m2);
    assert m3.previewsPending == 2;
    var m4 := EndPreview(m3);
    assert m4.tiles[k].hidden && !m4.tiles[k].matched && m4.canClick && m4.gameActive;
    var m5 := Click(m4, k);
    assert m5.firstTile == Some(k);
    var m6 := EndPreview(m5);
    assert m6.tiles[k].hidden && !m6.tiles[k].matched;
    var m7 := Click(m6, k);
    assert m7.firstTile == Some(k) && m7.secondTile == Some(k);
    var r := Resolve(m7);
    var es := [StartClicked, ResetClicked(picks2), StartClicked, PreviewEnds,
               TileClicked(k), PreviewEnds, TileClicked(k)];
    assert RunAsWritten(m0, es) == m7 by {
      assert RunAsWritten(m6, es[6..]) == m7;
      assert RunAsWritten(m5, es[5..]) == m7;
      assert RunAsWritten(m4, es[4..]) == m7;
      assert RunAsWritten(m3, es[3..]) == m7;
      assert RunAsWritten(m2, es[2..]) == m7;
      assert RunAsWritten(m1, es[1..]) == m7;
    }
    RunAsWrittenAppend(m0, es, [ResolutionFires]);
    assert RunAsWritten(m7, [ResolutionFires]) == r;
    // Only tile k is matched afterwards.
    var ts := m7.tiles;
    assert forall j :: 0 <= j < |ts| ==> !ts[j].matched;
    MatchedCountExtremes(ts);
    MatchedCountMark(ts, k);
    assert r.tiles == ts[k := ts[k].(matched := true)];
  }

  lemma {:induction false} RunAsWrittenAppend(m: Model, es: seq<Event>, fs: seq<Event>)
    ensures RunAsWritten(m, es + fs) == RunAsWritten(RunAsWritten(m, es), fs)
    decreases |es|
  {
    if es == [] {
      assert es + fs == fs;
    } else {
      assert es + fs != [] && (es + fs)[0] == es[0] && (es + fs)[1..] == es[1..] + fs;
      RunAsWrittenAppend(NextAsWritten(m, es[0]), es[1..], fs);
    }
  }

  /** With the corrected `resetGame`, no run ever selects one tile twice or
      leaves a matched tile without its partner's count. */
  lemma NoSelfPair(picks: seq<nat>, es: seq<Event>)
    requires ValidPicks(picks, BoardSize)
    ensures var r := Run(Initial(picks), es);
      && (r.secondTile.Some? ==> r.firstTile != r.secondTile)
      && MatchedCount(r.tiles) % 2 == 0
  {
    Reachable(picks, es);
  }

  // ---------------------------------------------------------------------
  // Finding: `startGame` clears the selection but never re-enables input
  // (game.js:119-135, game.js:347-355).

  /** Input is locked with no resolution left to unlock it. */
  predicate Stranded(m: Model) {
    m.firstTile.None? && m.secondTile.None? && !m.canClick
  }

  /** The time runs out while a resolution is pending: the game ends with
      the two tiles still selected and input locked. */
  lemma TimeoutDuringResolution(m: Model)
    requires Inv(m) && m.timerRunning && m.secondTile.Some?
    ensures var r := Run(m, Ticks(m.timeLeft));
      !r.gameActive && r.secondTile.Some? && !r.canClick
  {
    CountdownEnds(m, 0);
  }

  /** Pressing Start before that resolution fires clears the selection, so
      the callback stops at its first dereference and never runs
      `resetSelection`: the new game starts with input locked. */
  lemma StartAsWrittenStrands(m: Model)
    requires Inv(m) && !m.gameActive && m.secondTile.Some?
    ensures StartAsWritten(m).gameActive && Stranded(StartAsWritten(m))
  {
  }

  /** Once stranded, nothing the page can do unlocks input again, not even
      Reset followed by Start: every tile click is ignored for good. */
  lemma {:induction false} StrandedForever(m: Model, es: seq<Event>)
    requires Stranded(m)
    ensures var r := RunAsWritten(m, es);
      && Stranded(r) && forall k :: 0 <= k < |r.tiles| ==> !Accepts(r, k)
    decreases |es|
  {
    if es != [] {
      var m' := NextAsWritten(m, es[0]);
      assert Stranded(m') by {
        if Enabled(m, es[0]) && es[0].TimerTicks? {
          assert m' == Tick(m);
        }
      }
      StrandedForever(m', es[1..]);
    }
  }

  /** With the corrected `startGame`, input is never stranded: in every
      reached state it is enabled unless a resolution is pending. */
  lemma NeverStranded(picks: seq<nat>, es: seq<Event>)
    requires ValidPicks(picks, BoardSize)
    ensures !Stranded(Run(Initial(picks), es))
  {
    Reachable(picks, es);
  }
}
