/** Which of all possible matches a backtracking matcher finds first. */
module Greedy {
  import opened Common
  import opened Patterns

  /** The repetition items[m], begun at i, may stop at k with the rest still matching. */
  ghost predicate Stops(items: seq<Item>, m: nat, line: Text, i: nat, k: nat)
    requires m < |items| && items[m].Many? && i <= k <= |line|
  {
    TakesAll(items[m].atom, line, i, k) && CanMatch(items, m + 1, line, k)
  }

  /** The last such place not beyond top. */
  ghost function LastStop(items: seq<Item>, m: nat, line: Text, i: nat, top: nat): (k: nat)
    requires m < |items| && items[m].Many? && i <= top <= |line|
    requires exists k: nat :: i <= k <= top && Stops(items, m, line, i, k)
    ensures i <= k <= top && Stops(items, m, line, i, k)
    ensures forall k': nat :: k < k' <= top ==> !Stops(items, m, line, i, k')
  {
    if Stops(items, m, line, i, top) then top else LastStop(items, m, line, i, top - 1)
  }

  lemma MatchHasStop(items: seq<Item>, m: nat, line: Text, i: nat)
    requires m < |items| && items[m].Many? && i <= |line| && CanMatch(items, m, line, i)
    ensures exists k: nat :: i <= k <= |line| && Stops(items, m, line, i, k)
  {
    var j: nat :| i <= j <= |line| && Spans(items, m, line, i, j);
    var k: nat :| i <= k <= j && TakesAll(items[m].atom, line, i, k) && Spans(items, m + 1, line, k, j);
    assert Stops(items, m, line, i, k);
  }

  /** Where the first item of the preferred match ends: a repetition takes as much as it can
      while the rest still matches. */
  ghost function After(items: seq<Item>, m: nat, line: Text, i: nat): (k: nat)
    requires m < |items| && i <= |line| && CanMatch(items, m, line, i)
    ensures i <= k <= |line| && CanMatch(items, m + 1, line, k)
  {
    MatchStep(items, m, line, i);
    match items[m]
    case One(_) => i + 1
    case Many(_) => MatchHasStop(items, m, line, i); LastStop(items, m, line, i, |line|)
    case _ => i
  }

  /** Where the preferred match from i on stands when it comes to items[t]. */
  ghost function Reach(items: seq<Item>, m: nat, line: Text, i: nat, t: nat): (k: nat)
    requires m <= t <= |items| && i <= |line| && CanMatch(items, m, line, i)
    ensures i <= k <= |line| && CanMatch(items, t, line, k)
    decreases |items| - m
  {
    if t == m then i else Reach(items, m + 1, line, After(items, m, line, i), t)
  }

  /** Where the preferred match ends. */
  ghost function MatchEnd(items: seq<Item>, line: Text, i: nat): (j: nat)
    requires i <= |line| && CanMatch(items, 0, line, i)
    ensures i <= j <= |line|
  {
    Reach(items, 0, line, i, |items|)
  }

  /** The preferred match is a match, and each item spans what lies between its place and the next. */
  lemma {:induction false} ReachSpans(items: seq<Item>, m: nat, line: Text, i: nat)
    requires m <= |items| && i <= |line| && CanMatch(items, m, line, i)
    ensures Spans(items, m, line, i, Reach(items, m, line, i, |items|))
    decreases |items| - m
  {
    if m < |items| {
      var k := After(items, m, line, i);
      MatchStep(items, m, line, i);
      ReachSpans(items, m + 1, line, k);
      var j := Reach(items, m + 1, line, k, |items|);
      match items[m] {
        case Many(a) =>
          MatchHasStop(items, m, line, i);
          assert TakesAll(a, line, i, k) && Spans(items, m + 1, line, k, j);
        case _ =>
      }
    }
  }

  /** The end of a match is where the rest of the items stand at the end. */
  lemma EndMatches(items: seq<Item>, line: Text, i: nat)
    requires i <= |line|
    ensures CanMatch(items, |items|, line, i)
  {
    assert Spans(items, |items|, line, i, i);
  }

  /** Among all matches that start at i and agree with the preferred one up to items[t], none
      lets a repetition items[t] take more. */
  lemma {:induction false} ReachIsGreedy(items: seq<Item>, line: Text, i: nat, t: nat, k: nat)
    requires i <= |line| && CanMatch(items, 0, line, i) && t < |items| && items[t].Many?
    requires Reach(items, 0, line, i, t + 1) < k <= |line|
    ensures !(TakesAll(items[t].atom, line, Reach(items, 0, line, i, t), k) && CanMatch(items, t + 1, line, k))
  {
    ReachNext(items, 0, line, i, t);
    var at := Reach(items, 0, line, i, t);
    MatchHasStop(items, t, line, at);
    assert LastStop(items, t, line, at, |line|) < k;
    assert !Stops(items, t, line, at, k);
  }

  /** Reaching one item further. */
  lemma {:induction false} ReachNext(items: seq<Item>, m: nat, line: Text, i: nat, t: nat)
    requires m <= t < |items| && i <= |line| && CanMatch(items, m, line, i)
    ensures Reach(items, m, line, i, t + 1) == After(items, t, line, Reach(items, m, line, i, t))
    decreases t - m
  {
    if m < t {
      ReachNext(items, m + 1, line, After(items, m, line, i), t);
    }
  }

  lemma {:induction false} ReachSplit(items: seq<Item>, m: nat, line: Text, i: nat, k: nat, t: nat)
    requires m <= k <= t <= |items| && i <= |line| && CanMatch(items, m, line, i)
    ensures Reach(items, m, line, i, t) == Reach(items, k, line, Reach(items, m, line, i, k), t)
    decreases k - m
  {
    if m < k {
      ReachSplit(items, m + 1, line, After(items, m, line, i), k, t);
    }
  }

  /** items[m..] matches from none of the places after k up to top. */
  ghost predicate NoneAbove(items: seq<Item>, m: nat, line: Text, k: int, top: nat)
    requires m <= |items| && top <= |line|
  {
    forall k': nat :: k < k' <= top ==> !CanMatch(items, m, line, k')
  }

  /** Only the first success of a search from the end of a run down is the preferred one. */
  lemma FirstDown(items: seq<Item>, m: nat, line: Text, i: nat, top: nat, k: nat)
    requires m < |items| && items[m].Many? && i <= k <= top <= |line|
    requires TakesAll(items[m].atom, line, i, top) && (top < |line| ==> !items[m].atom.Takes(line[top]))
    requires CanMatch(items, m + 1, line, k)
    requires NoneAbove(items, m + 1, line, k, top)
    ensures CanMatch(items, m, line, i) && After(items, m, line, i) == k
  {
    ManyStops(items, m, line, i, top);
    assert MatchesWithin(items, m + 1, line, i, top);
    MatchHasStop(items, m, line, i);
    assert Stops(items, m, line, i, k);
    var last := LastStop(items, m, line, i, |line|);
    assert last <= top;
  }
}
