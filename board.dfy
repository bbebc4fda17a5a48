/**
 * The board of the colour-matching game: the twelve palette colours, the
 * tiles built from them by `initializeGame` (game.js:69-115), and the
 * whole-board updates `showAllColors` and `hideAllColors`
 * (game.js:191-219).
 */
module Board {
  import opened Shuffle

  /** The `colors` palette (game.js:25-33). A tile stores the index of its
      colour; two tiles match when their `data-color` strings are equal,
      which for distinct palette entries is equality of the indices. */
  const Palette: seq<string> := [
    "#FF6B6B", "#4ECDC4", "#FFD166", "#06D6A0",
    "#118AB2", "#EF476F", "#7209B7", "#3A86FF",
    "#FB5607", "#8338EC", "#FF006E", "#8AC926"
  ]

  /** `colors.length * 2`: the number of tiles on the board. */
  const BoardSize: nat := 2 * |Palette|

  /** A tile: its palette index and the two CSS classes the game toggles. */
  datatype Tile = Tile(color: nat, hidden: bool, matched: bool)

  /** Comparing colours by palette index agrees with comparing the strings. */
  lemma PaletteDistinct()
    ensures |Palette| == 12 && BoardSize == 24
    ensures forall i, j :: 0 <= i < j < |Palette| ==> Palette[i] != Palette[j]
  {
  }

  /** The indices 0 .. n-1. */
  function Range(n: nat): (r: seq<nat>)
    ensures |r| == n
  {
    if n == 0 then [] else Range(n - 1) + [n - 1]
  }

  lemma {:induction false} RangeCounts(n: nat, c: nat)
    ensures multiset(Range(n))[c] == if c < n then 1 else 0
  {
    if n > 0 {
      RangeCounts(n - 1, c);
      var last: nat := n - 1;
      assert Range(n) == Range(last) + [last];
      assert multiset(Range(n)) == multiset(Range(last)) + multiset([last]);
    }
  }

  /** `[...colors, ...colors]`: every palette colour twice. */
  function PairedColours(): seq<nat> {
    Range(|Palette|) + Range(|Palette|)
  }

  lemma {:induction false} RangeAt(n: nat, k: nat)
    requires k < n
    ensures Range(n)[k] == k
  {
    if k < n - 1 {
      RangeAt(n - 1, k);
    }
  }

  /** Position `k` of `[...colors, ...colors]` holds palette colour
      `k % 12`. */
  lemma PairedColoursAt(k: nat)
    requires k < BoardSize
    ensures PairedColours()[k] == k % |Palette|
  {
    RangeAt(|Palette|, k % |Palette|);
  }

  /** Each palette colour occurs exactly twice among the paired colours and
      nothing else occurs. */
  lemma PairedColoursCounts(c: nat)
    ensures |PairedColours()| == BoardSize
    ensures multiset(PairedColours())[c] == if c < |Palette| then 2 else 0
  {
    RangeCounts(|Palette|, c);
  }

  /** The colours of a row of tiles, in order. */
  function ColoursOf(ts: seq<Tile>): (r: seq<nat>)
    ensures |r| == |ts| && forall k :: 0 <= k < |ts| ==> r[k] == ts[k].color
  {
    seq(|ts|, k requires 0 <= k < |ts| => ts[k].color)
  }

  /** A well-formed board: 24 tiles, each palette colour on exactly two. */
  predicate Paired(ts: seq<Tile>) {
    |ts| == BoardSize && multiset(ColoursOf(ts)) == multiset(PairedColours())
  }

  /** A paired board holds every palette colour exactly twice. */
  lemma PairedCounts(ts: seq<Tile>, c: nat)
    requires Paired(ts)
    ensures multiset(ColoursOf(ts))[c] == if c < |Palette| then 2 else 0
  {
    PairedColoursCounts(c);
  }

  /** Changing only the flags of tiles keeps the board paired. */
  lemma PairedKeptBy(ts: seq<Tile>, us: seq<Tile>)
    requires Paired(ts) && |us| == |ts|
    requires forall k :: 0 <= k < |ts| ==> us[k].color == ts[k].color
    ensures Paired(us)
  {
    assert ColoursOf(us) == ColoursOf(ts);
  }

  /** The tiles `initializeGame` creates from the shuffled colour pairs:
      all hidden, none matched (game.js:79-105). */
  function NewBoard(picks: seq<nat>): seq<Tile>
    requires ValidPicks(picks, BoardSize)
  {
    var cs := Shuffled(PairedColours(), picks);
    seq(|cs|, k requires 0 <= k < |cs| => Tile(cs[k], true, false))
  }

  predicate AllHidden(ts: seq<Tile>) {
    forall k :: 0 <= k < |ts| ==> ts[k].hidden && !ts[k].matched
  }

  /** Whatever the random choices, the new board has 24 tiles, each palette
      colour on exactly two of them, every tile hidden and unmatched. */
  lemma NewBoardIsPaired(picks: seq<nat>)
    requires ValidPicks(picks, BoardSize)
    ensures Paired(NewBoard(picks))
    ensures AllHidden(NewBoard(picks))
    ensures forall c: nat :: multiset(ColoursOf(NewBoard(picks)))[c] == if c < |Palette| then 2 else 0
  {
    var cs := Shuffled(PairedColours(), picks);
    ShufflePermutes(PairedColours(), picks);
    assert ColoursOf(NewBoard(picks)) == cs;
    forall c: nat
      ensures multiset(ColoursOf(NewBoard(picks)))[c] == if c < |Palette| then 2 else 0
    {
      PairedColoursCounts(c);
    }
  }

  /** Every placement of the twelve pairs on the 24 positions is a board
      `initializeGame` can deal. */
  lemma EveryBoardPossible(cs: seq<nat>) returns (picks: seq<nat>)
    requires multiset(cs) == multiset(PairedColours())
    ensures ValidPicks(picks, BoardSize) && ColoursOf(NewBoard(picks)) == cs
  {
    picks := EveryArrangementPossible(PairedColours(), cs);
    PairedColoursCounts(0);
  }

  /** `showAllColors`, and the reveal loop of `endGame`: every tile loses
      its `hidden` class. */
  function ShowAll(ts: seq<Tile>): seq<Tile> {
    seq(|ts|, k requires 0 <= k < |ts| => ts[k].(hidden := false))
  }

  /** `hideAllColors`: every tile that is not matched gets `hidden`. */
  function HideUnmatched(ts: seq<Tile>): seq<Tile> {
    seq(|ts|, k requires 0 <= k < |ts| => if ts[k].matched then ts[k] else ts[k].(hidden := true))
  }

  predicate NoneHidden(ts: seq<Tile>) {
    forall k :: 0 <= k < |ts| ==> !ts[k].hidden
  }

  /** A matched tile is never hidden. */
  predicate MatchedShown(ts: seq<Tile>) {
    forall k :: 0 <= k < |ts| ==> ts[k].matched ==> !ts[k].hidden
  }

  /** Revealing everything keeps colours and matches, leaves nothing hidden. */
  lemma ShowAllEffect(ts: seq<Tile>)
    ensures |ShowAll(ts)| == |ts| && NoneHidden(ShowAll(ts)) && MatchedShown(ShowAll(ts))
    ensures forall k :: 0 <= k < |ts| ==>
      ShowAll(ts)[k].color == ts[k].color && ShowAll(ts)[k].matched == ts[k].matched
  {
  }

  /** Hiding the unmatched tiles keeps colours and matches, hides exactly the
      unmatched tiles and so never hides a matched one. */
  lemma HideUnmatchedEffect(ts: seq<Tile>)
    requires MatchedShown(ts)
    ensures |HideUnmatched(ts)| == |ts| && MatchedShown(HideUnmatched(ts))
    ensures forall k :: 0 <= k < |ts| ==>
      HideUnmatched(ts)[k].color == ts[k].color && HideUnmatched(ts)[k].matched == ts[k].matched &&
      (HideUnmatched(ts)[k].hidden <==> !ts[k].matched)
  {
  }

  /** The number of tiles carrying the `matched` class, which the game reads
      with `querySelectorAll('.color-tile.matched').length`. */
  function MatchedCount(ts: seq<Tile>): (n: nat)
    ensures n <= |ts|
  {
    if |ts| == 0 then 0
    else MatchedCount(ts[..|ts| - 1]) + (if ts[|ts| - 1].matched then 1 else 0)
  }

  /** The count depends on the `matched` flags only. */
  lemma {:induction false} MatchedCountSame(ts: seq<Tile>, us: seq<Tile>)
    requires |us| == |ts|
    requires forall k :: 0 <= k < |ts| ==> us[k].matched == ts[k].matched
    ensures MatchedCount(us) == MatchedCount(ts)
  {
    if |ts| > 0 {
      MatchedCountSame(ts[..|ts| - 1], us[..|us| - 1]);
    }
  }

  /** Every tile is matched exactly when the count reaches the number of
      tiles; no tile is matched exactly when it is zero. */
  lemma {:induction false} MatchedCountExtremes(ts: seq<Tile>)
    ensures MatchedCount(ts) == |ts| <==> forall k :: 0 <= k < |ts| ==> ts[k].matched
    ensures MatchedCount(ts) == 0 <==> forall k :: 0 <= k < |ts| ==> !ts[k].matched
  {
    if |ts| > 0 {
      var init := ts[..|ts| - 1];
      MatchedCountExtremes(init);
      assert forall k :: 0 <= k < |init| ==> init[k] == ts[k];
    }
  }

  /** Marking one unmatched tile as matched adds exactly one to the count. */
  lemma {:induction false} MatchedCountMark(ts: seq<Tile>, i: nat)
    requires i < |ts| && !ts[i].matched
    ensures MatchedCount(ts[i := ts[i].(matched := true)]) == MatchedCount(ts) + 1
  {
    var us := ts[i := ts[i].(matched := true)];
    var n := |ts| - 1;
    if i < n {
      assert us[..n] == ts[..n][i := ts[i].(matched := true)];
      MatchedCountMark(ts[..n], i);
    } else {
      assert us[..n] == ts[..n];
    }
  }
}
