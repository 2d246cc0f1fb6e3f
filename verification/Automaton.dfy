/** fgrep: what the automaton with the failure links that cfail sets finds, and when that is
    all there is to find. */
module Automaton {
  import opened Common
  import opened Keywords

  function Front(w: Text): (u: Text)
    requires w != []
  {
    assert forall i :: 0 <= i < |w| - 1 ==> w[..|w| - 1][i] == w[i];
    w[..|w| - 1]
  }

  function Last(w: Text): (c: byte)
    requires w != []
    ensures c != 0 && w == Front(w) + [c]
  {
    assert w[|w| - 1] in w;
    w[|w| - 1]
  }

  lemma FrontOf(u: Text, c: byte)
    requires c != 0
    ensures Front(u + [c]) == u && Last(u + [c]) == c
  {
    assert (u + [c])[..|u|] == u;
  }

  /** What a state spells: a beginning of a keyword. */
  ghost predicate State(t: Text, w: Text) {
    w == [] || BeginsKey(t, w)
  }

  lemma StateBefore(t: Text, w: Text)
    requires State(t, w) && w != []
    ensures State(t, Front(w))
  {
    Shorter(t, Front(w), Last(w));
  }

  /** The failure link that cfail gives a state; [] stands for none.  The state that the link of the
      state before leads to either goes on with the character or not; no other is tried. */
  ghost function Fall(t: Text, w: Text): (v: Text)
    ensures |v| <= |w| && (w != [] ==> |v| < |w|)
    decreases |w|
  {
    if |w| <= 1 then []
    else
      var v, c := Fall(t, Front(w)), Last(w);
      if State(t, v + [c]) then v + [c] else []
  }

  /** It spells a proper suffix. */
  lemma {:induction false} FallIsSuffix(t: Text, w: Text)
    ensures SuffixOf(Fall(t, w), w) && State(t, Fall(t, w))
    decreases |w|
  {
    if |w| > 1 {
      FallIsSuffix(t, Front(w));
      SuffixGrows(Fall(t, Front(w)), Front(w), Last(w));
    }
  }

  /** The states that are marked in the end. */
  ghost predicate Marked(t: Text, w: Text)
    decreases |w|
  {
    Keyword(t, w) || (w != [] && Fall(t, w) != [] && Marked(t, Fall(t, w)))
  }

  /** The state after one more character. */
  ghost function Delta(t: Text, u: Text, b: byte): Text
    requires b != 0
    decreases |u|
  {
    if State(t, u + [b]) then u + [b] else if u == [] then [] else Delta(t, Fall(t, u), b)
  }

  lemma {:induction false} DeltaIsSuffix(t: Text, u: Text, b: byte)
    requires b != 0
    ensures SuffixOf(Delta(t, u, b), u + [b]) && State(t, Delta(t, u, b))
    decreases |u|
  {
    if !State(t, u + [b]) && u != [] {
      DeltaIsSuffix(t, Fall(t, u), b);
      FallIsSuffix(t, u);
      SuffixStep(Delta(t, Fall(t, u), b), Fall(t, u), u, b);
    }
  }

  /** The state after part of a line. */
  ghost function Run(t: Text, cur: Text): Text
    decreases |cur|
  {
    if cur == [] then [] else Delta(t, Run(t, Front(cur)), Last(cur))
  }

  lemma {:induction false} RunIsSuffix(t: Text, cur: Text)
    ensures SuffixOf(Run(t, cur), cur) && State(t, Run(t, cur))
    decreases |cur|
  {
    if cur != [] {
      var u, b := Run(t, Front(cur)), Last(cur);
      RunIsSuffix(t, Front(cur));
      DeltaIsSuffix(t, u, b);
      SuffixStep(Delta(t, u, b), u, Front(cur), b);
    }
  }

  lemma SuffixStep(v: Text, u: Text, w: Text, c: byte)
    requires c != 0 && SuffixOf(u, w) && SuffixOf(v, u + [c])
    ensures SuffixOf(v, w + [c])
  {
    SuffixGrows(u, w, c);
    SuffixTrans(v, u + [c], w + [c]);
  }

  function Part(line: Text, j: nat): (cur: Text)
    requires j <= |line|
  {
    assert forall i :: 0 <= i < j ==> line[..j][i] == line[i];
    line[..j]
  }

  /** Some beginning of the line is in the set. */
  ghost predicate Alarmed(alarm: iset<Text>, line: Text) {
    exists j: nat :: 0 < j <= |line| && Part(line, j) in alarm
  }

  /** What may be read before the scanner stands in a marked state. */
  ghost function Alarm(t: Text): iset<Text> {
    iset cur: Text | Marked(t, Run(t, cur))
  }

  /** A marked state is reached somewhere in the line. */
  ghost predicate Reported(t: Text, line: Text) {
    Alarmed(Alarm(t), line)
  }

  lemma AlarmedMore(alarm: iset<Text>, cur: Text, line: Text)
    requires cur <= line && Alarmed(alarm, cur)
    ensures Alarmed(alarm, line)
  {
    var j: nat :| 0 < j <= |cur| && Part(cur, j) in alarm;
    assert Part(line, j) == Part(cur, j);
  }

  lemma AlarmedNow(alarm: iset<Text>, cur: Text, line: Text)
    requires cur <= line && |line| == |cur| + 1
    ensures Alarmed(alarm, line) <==> Alarmed(alarm, cur) || line in alarm
  {
    assert Part(line, |line|) == line;
    if Alarmed(alarm, cur) {
      AlarmedMore(alarm, cur, line);
    }
    if Alarmed(alarm, line) {
      var j: nat :| 0 < j <= |line| && Part(line, j) in alarm;
      if j <= |cur| {
        assert Part(line, j) == Part(cur, j);
      }
    }
  }

  lemma OneMoreRun(t: Text, cur: Text, b: byte)
    requires b != 0
    ensures Run(t, cur + [b]) == Delta(t, Run(t, cur), b)
  {
    FrontOf(cur, b);
  }

  lemma ReportedNow(t: Text, cur: Text, b: byte)
    requires b != 0
    ensures Run(t, cur + [b]) == Delta(t, Run(t, cur), b)
    ensures Reported(t, cur + [b]) <==> Reported(t, cur) || Marked(t, Delta(t, Run(t, cur), b))
  {
    OneMoreRun(t, cur, b);
    AlarmedNow(Alarm(t), cur, cur + [b]);
  }

  lemma StateIsClean(t: Text, w: Text)
    requires State(t, w)
    ensures NEWLINE !in w
  {
    if w != [] {
      var key: Text :| Keyword(t, key) && w <= key;
      KeysAreLines(t, key);
    }
  }

  /** No state goes on with a newline. */
  lemma {:induction false} NewlineFails(t: Text, u: Text)
    ensures Delta(t, u, NEWLINE) == []
    decreases |u|
  {
    assert (u + [NEWLINE])[|u|] == NEWLINE;
    if State(t, u + [NEWLINE]) {
      StateIsClean(t, u + [NEWLINE]);
    }
    if u != [] {
      NewlineFails(t, Fall(t, u));
    }
  }

  // ---- What is found is there ----

  lemma {:induction false} MarkedEndsWithKey(t: Text, w: Text)
    requires Marked(t, w)
    ensures EndsWithKey(t, w)
    decreases |w|
  {
    if Keyword(t, w) {
      assert SuffixOf(w, w);
    } else {
      FallIsSuffix(t, w);
      MarkedEndsWithKey(t, Fall(t, w));
      EndsLonger(t, Fall(t, w), w);
    }
  }

  /** Whatever the keywords, a line that is reported holds one. */
  lemma ReportedHoldsKey(t: Text, line: Text)
    requires Reported(t, line)
    ensures HoldsKey(t, line)
  {
    var j: nat :| 0 < j <= |line| && Part(line, j) in Alarm(t);
    var cur := Part(line, j);
    MarkedEndsWithKey(t, Run(t, cur));
    RunIsSuffix(t, cur);
    EndsLonger(t, Run(t, cur), cur);
    var key: Text :| Keyword(t, key) && SuffixOf(key, cur);
    OccursBefore(key, cur, line);
  }

  // ---- When everything is found ----

  /** No state is lost by trying only v: when v does not go on with c, nothing shorter does. */
  ghost predicate NoneLost(t: Text, v: Text, c: byte)
    requires c != 0
  {
    State(t, v + [c]) || forall x: Text :: SuffixOf(x, v) && x != v ==> !State(t, x + [c])
  }

  /** The guard of the branch in cfail that gives up, for every state below the first ones. */
  ghost predicate Guarded(t: Text) {
    forall w: Text :: GuardedAt(t, w)
  }

  ghost predicate GuardedAt(t: Text, w: Text) {
    |w| >= 2 && State(t, w) ==> NoneLost(t, Fall(t, Front(w)), Last(w))
  }

  lemma SuffixFront(x: Text, w: Text)
    requires x != [] && SuffixOf(x, w)
    ensures Last(x) == Last(w) && SuffixOf(Front(x), Front(w))
  {
    assert x[|x| - 1] == w[|w| - 1];
    assert Front(w)[|w| - |x|..] == Front(x);
  }

  /** Then the link leads to the longest state that ends the word. */
  lemma {:induction false} FallIsLongest(t: Text, w: Text, x: Text)
    requires Guarded(t) && State(t, w) && State(t, x) && SuffixOf(x, w) && |x| < |w|
    ensures SuffixOf(x, Fall(t, w))
    decreases |w|
  {
    if x != [] {
      SuffixFront(x, w);
      StateBefore(t, w);
      StateBefore(t, x);
      FallIsLongest(t, Front(w), Front(x));
      assert GuardedAt(t, w);
      NoneIsLost(t, Front(w), Fall(t, Front(w)), Last(w), Front(x));
    }
  }

  lemma NoneIsLost(t: Text, u: Text, v: Text, c: byte, y: Text)
    requires c != 0 && u != [] && v == Fall(t, u) && NoneLost(t, v, c) && SuffixOf(y, v) && State(t, y + [c])
    ensures SuffixOf(y + [c], Fall(t, u + [c]))
  {
    FrontOf(u, c);
    SuffixGrows(y, v, c);
  }

  lemma {:induction false} DeltaIsLongest(t: Text, u: Text, b: byte, x: Text)
    requires Guarded(t) && State(t, u) && b != 0 && State(t, x) && SuffixOf(x, u + [b])
    ensures SuffixOf(x, Delta(t, u, b))
    decreases |u|
  {
    if x != [] && !State(t, u + [b]) {
      var y, v := Front(x), Fall(t, u);
      LastSplit(x, u, b);
      StateBefore(t, x);
      FallIsLongest(t, u, y);
      FallIsSuffix(t, u);
      SuffixGrows(y, v, b);
      DeltaIsLongest(t, v, b, x);
    }
  }

  lemma LastSplit(x: Text, u: Text, b: byte)
    requires b != 0 && x != [] && SuffixOf(x, u + [b])
    ensures x == Front(x) + [b] && SuffixOf(Front(x), u) && (x != u + [b] ==> |Front(x)| < |u|)
  {
    SuffixFront(x, u + [b]);
    FrontOf(u, b);
  }

  /** And so the scanner is in the longest state that ends what was read. */
  lemma {:induction false} RunIsLongest(t: Text, cur: Text, x: Text)
    requires Guarded(t) && State(t, x) && SuffixOf(x, cur)
    ensures SuffixOf(x, Run(t, cur))
    decreases |cur|
  {
    if x != [] {
      SuffixFront(x, cur);
      StateBefore(t, x);
      RunIsSuffix(t, Front(cur));
      RunIsLongest(t, Front(cur), Front(x));
      SuffixGrows(Front(x), Run(t, Front(cur)), Last(cur));
      DeltaIsLongest(t, Run(t, Front(cur)), Last(cur), x);
    }
  }

  lemma {:induction false} EndsWithKeyMarked(t: Text, w: Text, key: Text)
    requires Guarded(t) && State(t, w) && Keyword(t, key) && key != [] && SuffixOf(key, w)
    ensures Marked(t, w)
    decreases |w|
  {
    if key != w {
      FallIsLongest(t, w, key);
      FallIsSuffix(t, w);
      EndsWithKeyMarked(t, Fall(t, w), key);
    }
  }

  /** Under the guard exactly the lines that hold a keyword are reported. */
  lemma ReportedExactly(t: Text, line: Text)
    requires Guarded(t) && !Keyword(t, [])
    ensures Reported(t, line) <==> HoldsKey(t, line)
  {
    if Reported(t, line) {
      ReportedHoldsKey(t, line);
    }
    if HoldsKey(t, line) {
      var key: Text :| Keyword(t, key) && Occurs(key, line);
      var a: nat, b: nat :| a <= b <= |line| && line[a..b] == key;
      var cur := Part(line, b);
      assert cur[|cur| - |key|..] == key;
      RunIsSuffix(t, cur);
      RunIsLongest(t, cur, key);
      EndsWithKeyMarked(t, Run(t, cur), key);
      assert cur in Alarm(t);
    }
  }

  // ---- When it is not ----

  const A: byte := 'a' as byte
  const B: byte := 'b' as byte
  const C: byte := 'c' as byte

  /** The keyword aabaaac, and a line that holds it. */
  function Missed(): (key: Text) { [A, A, B, A, A, A, C] }

  function MissedLine(): (line: Text) { [A, A, B, A, A, A, B, A, A, A, C] }

  /** The only keyword of a list of one line. */
  lemma OnlyKeyword(key: Text, t: Text)
    requires NEWLINE !in key && t == key + [NEWLINE]
    ensures forall w: Text :: Keyword(t, w) <==> w == key
  {
    OneLine(key, t, 0);
    SplitNext(t, |key|, [], key);
    assert [] + [key] == [key];
  }

  lemma {:induction false} OneLine(key: Text, t: Text, i: nat)
    requires NEWLINE !in key && t == key + [NEWLINE] && i <= |key|
    ensures Split(t, i, [], Part(key, i)) == Split(t, |key|, [], key)
    decreases |key| - i
  {
    if i < |key| {
      assert t[i] == key[i] && key[i] in key;
      SplitNext(t, i, [], Part(key, i));
      assert Part(key, i) + [t[i]] == Part(key, i + 1);
      OneLine(key, t, i + 1);
    } else {
      assert Part(key, i) == key;
    }
  }

  /** With one keyword the states are its beginnings, told apart by their lengths. */
  ghost predicate Single(t: Text, key: Text) {
    (forall w: Text :: Keyword(t, w) <==> w == key) && key != []
  }

  lemma SingleStates(t: Text, key: Text, w: Text)
    requires Single(t, key)
    ensures State(t, w) <==> w <= key
  {
    assert Keyword(t, key);
    assert w <= key ==> BeginsKey(t, w);
  }

  lemma NextState(t: Text, key: Text, n: nat, b: byte)
    requires Single(t, key) && n <= |key| && b != 0
    ensures State(t, Part(key, n) + [b]) <==> n < |key| && key[n] == b
  {
    var w: Text := Part(key, n) + [b];
    SingleStates(t, key, w);
    if n < |key| {
      assert w <= key <==> key[..n + 1] == w;
    }
  }

  function FallLength(key: Text, n: nat): (f: nat)
    requires n <= |key|
    ensures f <= n && (n > 0 ==> f < n)
  {
    if n <= 1 then 0
    else
      var f := FallLength(key, n - 1);
      if key[f] == key[n - 1] then f + 1 else 0
  }

  function DeltaLength(key: Text, n: nat, b: byte): (d: nat)
    requires n <= |key|
    ensures d <= |key|
  {
    if n < |key| && key[n] == b then n + 1
    else if n == 0 then 0
    else DeltaLength(key, FallLength(key, n), b)
  }

  function RunLength(key: Text, line: Text, j: nat): (r: nat)
    requires j <= |line|
    ensures r <= |key|
  {
    if j == 0 then 0 else DeltaLength(key, RunLength(key, line, j - 1), line[j - 1])
  }

  lemma PartNext(line: Text, j: nat)
    requires j < |line|
    ensures line[j] != 0 && Part(line, j + 1) == Part(line, j) + [line[j]]
    ensures Front(Part(line, j + 1)) == Part(line, j) && Last(Part(line, j + 1)) == line[j]
  {
    assert line[j] in line;
    FrontOf(Part(line, j), line[j]);
  }

  lemma {:induction false} SingleFall(t: Text, key: Text, n: nat)
    requires Single(t, key) && n <= |key|
    ensures Fall(t, Part(key, n)) == Part(key, FallLength(key, n))
  {
    if n > 1 {
      SingleFall(t, key, n - 1);
      PartNext(key, n - 1);
      var f := FallLength(key, n - 1);
      NextState(t, key, f, key[n - 1]);
      PartNext(key, f);
    }
  }

  lemma {:induction false} SingleDelta(t: Text, key: Text, n: nat, b: byte)
    requires Single(t, key) && n <= |key| && b != 0
    ensures Delta(t, Part(key, n), b) == Part(key, DeltaLength(key, n, b))
  {
    NextState(t, key, n, b);
    if n < |key| && key[n] == b {
      PartNext(key, n);
    } else if n > 0 {
      SingleFall(t, key, n);
      SingleDelta(t, key, FallLength(key, n), b);
    }
  }

  ghost predicate DeltaAt(t: Text, key: Text, n: nat, b: byte)
    requires n <= |key| && b != 0
  {
    Delta(t, Part(key, n), b) == Part(key, DeltaLength(key, n, b))
  }

  lemma {:induction false} SingleRun(t: Text, key: Text, line: Text, j: nat)
    requires j <= |line| && forall n: nat, b: byte :: n <= |key| && b != 0 ==> DeltaAt(t, key, n, b)
    ensures Run(t, Part(line, j)) == Part(key, RunLength(key, line, j))
  {
    if j > 0 {
      var n := RunLength(key, line, j - 1);
      SingleRun(t, key, line, j - 1);
      PartNext(line, j - 1);
      assert DeltaAt(t, key, n, line[j - 1]);
      RunNext(t, key, line, j - 1, n);
    } else {
      assert Part(line, 0) == Part(key, 0) == [];
    }
  }

  lemma RunNext(t: Text, key: Text, line: Text, j: nat, n: nat)
    requires j < |line| && n == RunLength(key, line, j) && Run(t, Part(line, j)) == Part(key, n) && line[j] != 0
    requires Delta(t, Part(key, n), line[j]) == Part(key, DeltaLength(key, n, line[j]))
    ensures Run(t, Part(line, j + 1)) == Part(key, RunLength(key, line, j + 1))
  {
    PartNext(line, j);
  }

  lemma SingleMarked(t: Text, key: Text, n: nat)
    requires Single(t, key) && n < |key|
    ensures !Marked(t, Part(key, n))
    decreases n
  {
    SingleFall(t, key, n);
    if n > 0 {
      SingleMarked(t, key, FallLength(key, n));
    }
  }

  /** A line on which the end of the only keyword is never reached is not reported. */
  lemma SingleMissed(t: Text, key: Text, line: Text)
    requires Single(t, key) && forall j: nat :: j <= |line| ==> RunLength(key, line, j) < |key|
    ensures !Reported(t, line)
  {
    forall n: nat, b: byte | n <= |key| && b != 0
      ensures DeltaAt(t, key, n, b)
    {
      SingleDelta(t, key, n, b);
    }
    forall j: nat | 0 < j <= |line|
      ensures Part(line, j) !in Alarm(t)
    {
      SingleRun(t, key, line, j);
      SingleMarked(t, key, RunLength(key, line, j));
    }
  }

  lemma MissedLinks(key: Text)
    requires key == Missed()
    ensures FallLength(key, 1) == 0 && FallLength(key, 2) == 1 && FallLength(key, 3) == 0 && FallLength(key, 4) == 1
    ensures FallLength(key, 5) == 2 && FallLength(key, 6) == 0
  {
  }

  lemma MissedRun(key: Text, line: Text)
    requires key == Missed() && line == MissedLine()
    ensures forall j: nat :: j <= |line| ==> RunLength(key, line, j) < |key|
  {
    MissedLinks(key);
    assert RunLength(key, line, 0) == 0;
    assert RunLength(key, line, 1) == 1;
    assert RunLength(key, line, 2) == 2;
    assert RunLength(key, line, 3) == 3;
    assert RunLength(key, line, 4) == 4;
    assert RunLength(key, line, 5) == 5;
    assert RunLength(key, line, 6) == 6;
    assert DeltaLength(key, 0, B) == 0;
    assert RunLength(key, line, 7) == 0;
    assert RunLength(key, line, 8) == 1;
    assert RunLength(key, line, 9) == 2;
    assert RunLength(key, line, 10) == 2;
    assert DeltaLength(key, 0, C) == 0 && DeltaLength(key, 1, C) == 0;
    assert RunLength(key, line, 11) == 0;
  }

  /** The line holds the only keyword and is not reported. */
  lemma HeldButMissed(t: Text)
    requires t == Missed() + [NEWLINE]
    ensures HoldsKey(t, MissedLine()) && !Reported(t, MissedLine())
  {
    var key, line := Missed(), MissedLine();
    OnlyKeyword(key, t);
    MissedRun(key, line);
    SingleMissed(t, key, line);
    assert Keyword(t, key) && line[4..11] == key;
  }
}
