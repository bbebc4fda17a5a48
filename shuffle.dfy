/**
 * The in-place Fisher-Yates shuffle of `shuffleArray` (game.js:437-449).
 * The random index `Math.floor(Math.random() * (i + 1))` is supplied by the
 * caller: `picks[i]` is the index swapped with position `i`.
 */
module Shuffle {

  /** `picks` is a sequence of random choices the shuffle of `n` elements can
      make: for every step `i` (from n-1 down to 1) a value in [0, i]. */
  predicate ValidPicks(picks: seq<nat>, n: nat) {
    |picks| == n && forall i :: 0 < i < n ==> picks[i] <= i
  }

  /** The destructuring swap `[s[i], s[j]] = [s[j], s[i]]`. */
  function Swap<T>(s: seq<T>, i: nat, j: nat): seq<T>
    requires i < |s| && j < |s|
  {
    s[i := s[j]][j := s[i]]
  }

  /** What the loop still has to do when its counter is `i`: the swaps for
      i, i-1, ..., 1, in that order. */
  function StepsDown<T>(s: seq<T>, picks: seq<nat>, i: nat): seq<T>
    requires i < |s| && ValidPicks(picks, |s|)
    decreases i
  {
    if i == 0 then s else StepsDown(Swap(s, i, picks[i]), picks, i - 1)
  }

  /** The whole shuffle of `s` under the random choices `picks`. */
  function Shuffled<T>(s: seq<T>, picks: seq<nat>): seq<T>
    requires ValidPicks(picks, |s|)
  {
    if |s| == 0 then s else StepsDown(s, picks, |s| - 1)
  }

  lemma SwapPermutes<T>(s: seq<T>, i: nat, j: nat)
    requires i < |s| && j < |s|
    ensures |Swap(s, i, j)| == |s|
    ensures multiset(Swap(s, i, j)) == multiset(s)
  {
    var t := s[i := s[j]];
    assert multiset(t) == multiset(s) - multiset{s[i]} + multiset{s[j]};
    assert multiset(t[j := s[i]]) == multiset(t) - multiset{t[j]} + multiset{s[i]};
  }

  lemma {:induction false} StepsDownPermutes<T>(s: seq<T>, picks: seq<nat>, i: nat)
    requires i < |s| && ValidPicks(picks, |s|)
    ensures |StepsDown(s, picks, i)| == |s|
    ensures multiset(StepsDown(s, picks, i)) == multiset(s)
    decreases i
  {
    if i > 0 {
      SwapPermutes(s, i, picks[i]);
      StepsDownPermutes(Swap(s, i, picks[i]), picks, i - 1);
    }
  }

  /** The shuffle only rearranges: same length, same elements with the same
      number of occurrences. */
  lemma ShufflePermutes<T>(s: seq<T>, picks: seq<nat>)
    requires ValidPicks(picks, |s|)
    ensures |Shuffled(s, picks)| == |s|
    ensures multiset(Shuffled(s, picks)) == multiset(s)
  {
    if |s| > 0 {
      StepsDownPermutes(s, picks, |s| - 1);
    }
  }

  /** The steps below position |u| never touch what lies after it. */
  lemma {:induction false} StepsDownPrefix<T>(u: seq<T>, v: seq<T>, picks: seq<nat>, i: nat)
    requires i < |u| && ValidPicks(picks, |u| + |v|)
    ensures ValidPicks(picks[..|u|], |u|)
    ensures StepsDown(u + v, picks, i) == StepsDown(u, picks[..|u|], i) + v
    decreases i
  {
    if i > 0 {
      var j := picks[i];
      assert Swap(u + v, i, j) == Swap(u, i, j) + v;
      StepsDownPrefix(Swap(u, i, j), v, picks, i - 1);
    }
  }

  /** The first step of the shuffle puts `s[j]` last for good; the rest
      shuffles what lies in front of it. So if the rest produces the front
      of `t` and `s[j]` is the last element of `t`, the shuffle produces `t`. */
  lemma ShuffledLast<T>(s: seq<T>, t: seq<T>, front: seq<nat>, j: nat)
    requires |s| == |t| >= 2 && j < |s| && s[j] == t[|t| - 1]
    requires ValidPicks(front, |s| - 1)
    requires Shuffled(Swap(s, |s| - 1, j)[..|s| - 1], front) == t[..|t| - 1]
    ensures ValidPicks(front + [j], |s|) && Shuffled(s, front + [j]) == t
  {
    var n := |s|;
    var picks := front + [j];
    var s' := Swap(s, n - 1, j);
    assert StepsDown(s, picks, n - 1) == StepsDown(s', picks, n - 2);
    assert s' == s'[..n - 1] + [s[j]];
    StepsDownPrefix(s'[..n - 1], [s[j]], picks, n - 2);
    assert picks[..n - 1] == front;
    assert t == t[..n - 1] + [s[j]];
  }

  /** Some position of `s` holds the last element of `t`, and moving it to
      the back leaves the same elements in front as in front of `t`. */
  lemma SplitLast<T>(s: seq<T>, t: seq<T>) returns (j: nat)
    requires |s| == |t| > 0 && multiset(s) == multiset(t)
    ensures j < |s| && s[j] == t[|t| - 1]
    ensures multiset(Swap(s, |s| - 1, j)[..|s| - 1]) == multiset(t[..|t| - 1])
  {
    var n := |s|;
    var last := t[n - 1];
    assert last in multiset(t);
    assert last in s;
    j :| 0 <= j < n && s[j] == last;
    SwapPermutes(s, n - 1, j);
    DropLastSameElements(Swap(s, n - 1, j), t);
  }

  lemma DropLastSameElements<T>(u: seq<T>, t: seq<T>)
    requires |u| == |t| > 0 && multiset(u) == multiset(t) && u[|u| - 1] == t[|t| - 1]
    ensures multiset(u[..|u| - 1]) == multiset(t[..|t| - 1])
  {
    var n := |u|;
    assert u == u[..n - 1] + [u[n - 1]];
    assert t == t[..n - 1] + [t[n - 1]];
    assert multiset(u) == multiset(u[..n - 1]) + multiset{u[n - 1]};
    assert multiset(t) == multiset(t[..n - 1]) + multiset{t[n - 1]};
    assert multiset(u[..n - 1]) == multiset(u) - multiset{u[n - 1]};
    assert multiset(t[..n - 1]) == multiset(t) - multiset{t[n - 1]};
  }

  lemma ShortShuffle<T>(s: seq<T>, t: seq<T>, picks: seq<nat>)
    requires |s| <= 1 && multiset(s) == multiset(t) && |picks| == |s|
    ensures ValidPicks(picks, |s|) && Shuffled(s, picks) == t
  {
    assert |t| == |multiset(t)| == |multiset(s)| == |s|;
    if |s| == 1 {
      assert t[0] in multiset(s);
      assert s == [s[0]] && t == [t[0]];
    }
  }

  /** Every arrangement of the input is a possible outcome: for any `t`
      with the same elements as `s` there are random choices the shuffle
      can make that produce exactly `t`. */
  lemma {:induction false} EveryArrangementPossible<T>(s: seq<T>, t: seq<T>) returns (picks: seq<nat>)
    requires multiset(s) == multiset(t)
    ensures ValidPicks(picks, |s|) && Shuffled(s, picks) == t
    decreases |s|
  {
    var n := |s|;
    assert |t| == |multiset(t)| == |multiset(s)| == n;
    if n <= 1 {
      picks := seq(n, _ => 0);
      ShortShuffle(s, t, picks);
    } else {
      var j := SplitLast(s, t);
      var front := EveryArrangementPossible(Swap(s, n - 1, j)[..n - 1], t[..n - 1]);
      ShuffledLast(s, t, front, j);
      picks := front + [j];
    }
  }

  /** `shuffleArray`: the descending loop swapping `a[i]` with `a[picks[i]]`. */
  method ShuffleArray<T>(a: array<T>, picks: seq<nat>)
    requires ValidPicks(picks, a.Length)
    modifies a
    ensures a[..] == Shuffled(old(a[..]), picks)
    ensures multiset(a[..]) == multiset(old(a[..]))
  {
    ShufflePermutes(a[..], picks);
    if a.Length == 0 {
      return;
    }
    var i := a.Length - 1;
    while i > 0
      invariant 0 <= i < a.Length
      invariant StepsDown(a[..], picks, i) == Shuffled(old(a[..]), picks)
    {
      var j := picks[i];
      var t := a[i];
      a[i] := a[j];
      a[j] := t;
      i := i - 1;
    }
  }
}
