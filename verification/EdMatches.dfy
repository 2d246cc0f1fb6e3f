/** The match that ed prefers, piece by piece of the pattern as it is written. */
module EdMatches {
  import opened Common
  import opened Patterns
  import opened Greedy
  import opened EdRegex
  import opened EdSyntax
  import R = EdReading
  import opened WrittenItems
  import W = Written

  /** Piece k stands for line[i..j). */
  predicate PieceStands(ps: seq<W.Piece>, k: nat, line: Text, i: nat, j: nat)
    requires k < |ps|
  {
    && i <= j <= |line|
    && match ps[k]
       case Once(s) => j == i + 1 && W.Stands(W.Ed, s, line[i])
       case Repeat(s) => W.AllStand(W.Ed, s, line[i..j])
       case _ => j == i
  }

  /** The pieces from k on can go on from n, to the end of the line if the pattern asks for that. */
  ghost predicate CanGoOn(w: W.Pattern, k: nat, line: Text, n: nat)
    requires k <= |w.pieces| && n <= |line|
  {
    exists j: nat :: n <= j <= |line| && (w.atEnd ==> j == |line|) && W.Reads(W.Ed, w.pieces, k, line[n..j])
  }

  /** Piece k, a repetition begun at i, could not go on to n with the rest of the pattern still matching. */
  ghost predicate NoFurther(w: W.Pattern, k: nat, line: Text, i: nat, n: nat)
    requires k < |w.pieces| && i <= n <= |line|
  {
    w.pieces[k].Repeat? ==> !(W.AllStand(W.Ed, w.pieces[k].sign, line[i..n]) && CanGoOn(w, k + 1, line, n))
  }

  /** Piece k stands for what is between places k and k + 1, from i to j; each repetition takes as much as those before it leave it. */
  ghost predicate Course(w: W.Pattern, line: Text, at: seq<nat>, i: nat, j: nat) {
    && |at| == |w.pieces| + 1 && at[0] == i && at[|w.pieces|] == j && (w.atEnd ==> j == |line|)
    && (forall k :: 0 <= k < |w.pieces| ==> PieceStands(w.pieces, k, line, at[k], at[k + 1]))
    && (forall k, n :: 0 <= k < |w.pieces| && at[k + 1] < n <= |line| ==> NoFurther(w, k, line, at[k], n))
  }

  /** Each group's marks are the places where it begins and ends. */
  ghost predicate Marked(ps: seq<W.Piece>, at: seq<nat>, begins: seq<int>, ends: seq<int>) {
    |at| == |ps| + 1 && |begins| == |ends| == 5 && forall k :: 0 <= k < |ps| ==> MarkedAt(ps, k, at[k], begins, ends)
  }

  ghost predicate MarkedAt(ps: seq<W.Piece>, k: nat, place: nat, begins: seq<int>, ends: seq<int>)
    requires k < |ps| && |begins| == |ends| == 5
  {
    match ps[k]
    case Begin => W.Begun(ps, k) < 5 && begins[W.Begun(ps, k)] == place
    case End =>
      var open := W.Unended(ps, k);
      open != [] && open[|open| - 1] < 5 && ends[open[|open| - 1]] == place
    case _ => true
  }

  // ---- Step by step ----

  /** These items are those of the pattern, and some match begins at i. */
  ghost predicate Preferred(w: W.Pattern, body: seq<Item>, items: seq<Item>, line: Text, i: nat) {
    && Means(W.Ed, body, w.pieces, |w.pieces|) && items == Program(body, w.atEnd)
    && i <= |line| && CanMatch(items, 0, line, i)
  }

  lemma PieceIs(w: W.Pattern, body: seq<Item>, items: seq<Item>, line: Text, k: nat, i: nat)
    requires Means(W.Ed, body, w.pieces, |w.pieces|) && items == Program(body, w.atEnd)
    requires k < |w.pieces| && i <= |line| && CanMatch(items, k, line, i)
    ensures PieceStands(w.pieces, k, line, i, After(items, k, line, i))
  {
    assert items[k] == body[k] && ItemOk(W.Ed, body[k], w.pieces[k]);
    MatchStep(items, k, line, i);
    match w.pieces[k] {
      case Once(s) => assert line[i] in line;
      case Repeat(s) =>
        MatchHasStop(items, k, line, i);
        var j := After(items, k, line, i);
        assert TakesAll(items[k].atom, line, i, j);
        forall t | 0 <= t < |line[i..j]|
          ensures W.Stands(W.Ed, s, line[i..j][t])
        {
          assert line[i..j][t] == line[i + t] && line[i + t] in line && items[k].atom.Takes(line[i + t]);
        }
      case _ =>
    }
  }

  lemma GoesOn(w: W.Pattern, body: seq<Item>, items: seq<Item>, line: Text, k: nat, n: nat)
    requires Means(W.Ed, body, w.pieces, |w.pieces|) && items == Program(body, w.atEnd)
    requires k <= |w.pieces| && n <= |line| && CanGoOn(w, k, line, n)
    ensures CanMatch(items, k, line, n)
  {
    var j: nat :| n <= j <= |line| && (w.atEnd ==> j == |line|) && W.Reads(W.Ed, w.pieces, k, line[n..j]);
    DenotesReads(W.Ed, body, w.pieces, k, line[n..j]);
    MeansUnanchored(W.Ed, body, w.pieces);
    WordsGiveSpans(body, w.atEnd, k, line, n, j);
  }

  /** A repetition can go no further. */
  lemma TakesMost(w: W.Pattern, body: seq<Item>, items: seq<Item>, line: Text, i: nat, k: nat, n: nat)
    requires Preferred(w, body, items, line, i) && k < |w.pieces| && Reach(items, 0, line, i, k + 1) < n <= |line|
    ensures Reach(items, 0, line, i, k) <= n && NoFurther(w, k, line, Reach(items, 0, line, i, k), n)
  {
    var at := Reach(items, 0, line, i, k);
    ReachNext(items, 0, line, i, k);
    assert items[k] == body[k] && ItemOk(W.Ed, body[k], w.pieces[k]);
    if w.pieces[k].Repeat? {
      ReachIsGreedy(items, line, i, k, n);
      if W.AllStand(W.Ed, w.pieces[k].sign, line[at..n]) {
        forall t | at <= t < n
          ensures items[k].atom.Takes(line[t])
        {
          assert line[at..n][t - at] == line[t] && line[t] in line;
        }
        assert TakesAll(items[k].atom, line, at, n);
      }
      assert CanGoOn(w, k + 1, line, n) ==> CanMatch(items, k + 1, line, n) by {
        if CanGoOn(w, k + 1, line, n) {
          GoesOn(w, body, items, line, k + 1, n);
        }
      }
    }
  }

  /** The places that the preferred match comes to. */
  ghost function Reached(items: seq<Item>, line: Text, i: nat, n: nat): (at: seq<nat>)
    requires n <= |items| && i <= |line| && CanMatch(items, 0, line, i)
    ensures |at| == n + 1 && forall k :: 0 <= k <= n ==> at[k] == Reach(items, 0, line, i, k)
  {
    seq(n + 1, k requires 0 <= k <= n => Reach(items, 0, line, i, k))
  }

  lemma EndsThere(w: W.Pattern, body: seq<Item>, items: seq<Item>, line: Text, i: nat)
    requires Preferred(w, body, items, line, i)
    ensures Reach(items, 0, line, i, |w.pieces|) == MatchEnd(items, line, i) && (w.atEnd ==> MatchEnd(items, line, i) == |line|)
  {
    if w.atEnd {
      var n := |w.pieces|;
      assert items[n] == EndOfLine;
      ReachNext(items, 0, line, i, n);
      MatchStep(items, n, line, Reach(items, 0, line, i, n));
    }
  }

  lemma TakesItsCourse(w: W.Pattern, body: seq<Item>, items: seq<Item>, line: Text, i: nat) returns (at: seq<nat>)
    requires Preferred(w, body, items, line, i)
    ensures at == Reached(items, line, i, |w.pieces|) && Course(w, line, at, i, MatchEnd(items, line, i))
  {
    var n := |w.pieces|;
    at := Reached(items, line, i, n);
    EndsThere(w, body, items, line, i);
    forall k | 0 <= k < n
      ensures PieceStands(w.pieces, k, line, at[k], at[k + 1])
    {
      ReachNext(items, 0, line, i, k);
      PieceIs(w, body, items, line, k, at[k]);
    }
    forall k, m | 0 <= k < n && at[k + 1] < m <= |line|
      ensures NoFurther(w, k, line, at[k], m)
    {
      TakesMost(w, body, items, line, i, k, m);
    }
  }

  lemma LeavesMarks(w: W.Pattern, body: seq<Item>, items: seq<Item>, line: Text, i: nat, at: seq<nat>, marks: Marks)
    requires Preferred(w, body, items, line, i) && at == Reached(items, line, i, |w.pieces|)
    requires R.GroupsAre(w.pieces, |w.pieces|, body) && Grouped(items) && marks.Sized() && Captured(items, line, marks, 0, i, |items|)
    ensures Marked(w.pieces, at, marks.begins, marks.ends)
  {
    forall k | 0 <= k < |w.pieces|
      ensures MarkedAt(w.pieces, k, at[k], marks.begins, marks.ends)
    {
      assert items[k] == body[k] && R.GroupIs(w.pieces, k, body[k]);
    }
  }
}
