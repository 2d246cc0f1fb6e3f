/** fgrep: the tree of the keywords, kept as arcs, and how it grows. */
module KeywordTree {
  import opened Common
  import opened Keywords

  const NULL := -1

  /** The nodes in use: node n is one arc of the state that spells word[n], and the arcs of a
      state are linked; from[n] is the arc that leads to that state. */
  datatype Tree = Tree(inp: seq<byte>, nst: seq<int>, link: seq<int>, word: seq<Text>, from: seq<nat>)

  predicate Sized(t: Tree) {
    |t.inp| == |t.nst| == |t.link| == |t.word| == |t.from| && |t.word| > 0
  }

  /** No earlier node belongs to the same state. */
  ghost predicate First(word: seq<Text>, n: nat)
    requires n < |word|
  {
    forall k :: 0 <= k < n ==> word[k] != word[n]
  }

  /** No node from lo to hi - 1 belongs to the state. */
  ghost predicate NoneOf(word: seq<Text>, lo: int, hi: int, w: Text)
    requires 0 <= lo && hi <= |word|
  {
    forall k :: lo <= k < hi ==> word[k] != w
  }

  /** The next arc of the same state. */
  ghost predicate LinkOk(t: Tree, n: nat)
    requires Sized(t) && n < |t.word|
  {
    if t.link[n] == NULL then NoneOf(t.word, n + 1, |t.word|, t.word[n])
    else n < t.link[n] < |t.word| && t.word[t.link[n]] == t.word[n] && t.inp[n] != 0 &&
         NoneOf(t.word, n + 1, t.link[n], t.word[n])
  }

  /** Where the arc leads. */
  ghost predicate ArcOk(t: Tree, n: nat)
    requires Sized(t) && n < |t.word|
  {
    if t.inp[n] == 0 then t.nst[n] == NULL
    else n < t.nst[n] < |t.word| && t.word[t.nst[n]] == t.word[n] + [t.inp[n]] && First(t.word, t.nst[n])
  }

  predicate FromOk(t: Tree, n: nat)
    requires Sized(t) && n < |t.word|
  {
    t.word[n] == [] ||
    (t.from[n] < n && t.inp[t.from[n]] != 0 && t.word[n] == t.word[t.from[n]] + [t.inp[t.from[n]]])
  }

  ghost predicate Ok(t: Tree) {
    && Sized(t) && t.word[0] == []
    && (forall n :: 0 <= n < |t.word| ==> LinkOk(t, n))
    && (forall n :: 0 <= n < |t.word| ==> ArcOk(t, n))
    && (forall n :: 0 <= n < |t.word| ==> FromOk(t, n))
    && (forall a, b :: 0 <= a < b < |t.word| ==> Differ(t, a, b))
  }

  /** No two arcs of a state take the same character. */
  predicate Differ(t: Tree, a: nat, b: nat)
    requires Sized(t) && a < |t.word| && b < |t.word|
  {
    t.word[a] == t.word[b] ==> t.inp[a] != t.inp[b]
  }

  /** The state that spells w has no arc for c. */
  ghost predicate NoArc(t: Tree, w: Text, c: byte)
    requires Sized(t)
  {
    forall m :: 0 <= m < |t.word| && t.word[m] == w ==> t.inp[m] != c
  }

  /** Nor has it one before node n. */
  ghost predicate NoArcBefore(t: Tree, w: Text, c: byte, n: nat)
    requires Sized(t) && n <= |t.word|
  {
    forall m :: 0 <= m < n && t.word[m] == w ==> t.inp[m] != c
  }

  /** Then no state spells w followed by c. */
  lemma NoSuchState(t: Tree, w: Text, c: byte)
    requires Ok(t) && c != 0 && NoArc(t, w, c)
    ensures NoneOf(t.word, 0, |t.word|, w + [c])
  {
    forall k | 0 <= k < |t.word|
      ensures t.word[k] != w + [c]
    {
      assert FromOk(t, k);
      if t.word[k] != [] {
        SameEnds(t.word[t.from[k]], t.inp[t.from[k]], w, c);
      }
    }
  }

  lemma SameEnds(u: Text, a: byte, v: Text, b: byte)
    requires a != 0 && b != 0
    ensures u + [a] == v + [b] <==> u == v && a == b
  {
    assert (u + [a])[..|u|] == u && (v + [b])[..|v|] == v;
    assert (u + [a])[|u|] == a && (v + [b])[|v|] == b;
  }

  /** One more arc, for nothing yet, in the state whose last arc is s. */
  function AddArc(t: Tree, s: nat): Tree
    requires Sized(t) && s < |t.word|
  {
    Tree(t.inp + [0], t.nst + [NULL], t.link[s := |t.word|] + [NULL], t.word + [t.word[s]], t.from + [t.from[s]])
  }

  lemma AddArcOk(t: Tree, s: nat)
    requires Ok(t) && s < |t.word| && t.link[s] == NULL && t.inp[s] != 0
    ensures Ok(AddArc(t, s))
  {
    var t' := AddArc(t, s);
    assert LinkOk(t, s) && FromOk(t, s);
    forall n | 0 <= n < |t'.word|
      ensures LinkOk(t', n) && ArcOk(t', n) && FromOk(t', n)
    {
      if n < |t.word| {
        assert LinkOk(t, n) && ArcOk(t, n) && FromOk(t, n);
      }
    }
    forall a, b | 0 <= a < b < |t'.word|
      ensures Differ(t', a, b)
    {
      assert LinkOk(t', a);
      assert b < |t.word| ==> Differ(t, a, b);
    }
  }

  /** The arc s, so far for nothing, leads to a new state. */
  function AddState(t: Tree, s: nat, c: byte): Tree
    requires Sized(t) && s < |t.word| && c != 0
  {
    Tree(t.inp[s := c] + [0], t.nst[s := |t.word|] + [NULL], t.link + [NULL], t.word + [t.word[s] + [c]], t.from + [s])
  }

  lemma AddStateOk(t: Tree, s: nat, c: byte)
    requires Ok(t) && s < |t.word| && t.inp[s] == 0 && c != 0 && NoArc(t, t.word[s], c)
    ensures Ok(AddState(t, s, c)) && First(AddState(t, s, c).word, |t.word|)
  {
    var t' := AddState(t, s, c);
    NoSuchState(t, t.word[s], c);
    forall n | 0 <= n < |t'.word|
      ensures LinkOk(t', n) && ArcOk(t', n) && FromOk(t', n)
    {
      if n < |t.word| {
        assert LinkOk(t, n) && ArcOk(t, n) && FromOk(t, n);
      }
    }
    forall a, b | 0 <= a < b < |t'.word|
      ensures Differ(t', a, b)
    {
      assert b < |t.word| ==> Differ(t, a, b);
    }
  }

  /** Every beginning of a state's word is the word of a state. */
  lemma {:induction false} PrefixHasNode(t: Tree, n: nat, w: Text)
    requires Ok(t) && n < |t.word| && w <= t.word[n]
    ensures exists m :: 0 <= m < |t.word| && t.word[m] == w
    decreases n
  {
    if w != t.word[n] {
      assert FromOk(t, n);
      PrefixHasNode(t, t.from[n], w);
    }
  }

  ghost predicate HasNode(word: seq<Text>, w: Text) {
    exists m :: 0 <= m < |word| && word[m] == w
  }

  /** A state is marked, in its first node, if it spells one of the lines. */
  ghost predicate Marks(word: seq<Text>, out: seq<bool>, lines: seq<Text>) {
    |out| == |word| && forall n :: 0 <= n < |out| ==> MarkOk(word, out, lines, n)
  }

  ghost predicate MarkOk(word: seq<Text>, out: seq<bool>, lines: seq<Text>, n: nat)
    requires n < |out| == |word|
  {
    out[n] <==> First(word, n) && word[n] in lines
  }

  /** There is a state for every line. */
  ghost predicate Covers(word: seq<Text>, lines: seq<Text>) {
    forall k {:trigger HasNode(word, lines[k])} :: 0 <= k < |lines| ==> HasNode(word, lines[k])
  }

  /** States are those of the lines and of the beginnings of the current one. */
  ghost predicate Within(word: seq<Text>, lines: seq<Text>, cur: Text) {
    forall n :: 0 <= n < |word| ==> WithinOk(word, lines, cur, n)
  }

  predicate WithinOk(word: seq<Text>, lines: seq<Text>, cur: Text, n: nat)
    requires n < |word|
  {
    PrefixOfSome(word[n], lines) || word[n] <= cur
  }

  ghost predicate Built(t: Tree, out: seq<bool>, lines: seq<Text>, cur: Text) {
    Ok(t) && Marks(t.word, out, lines) && Covers(t.word, lines) && Within(t.word, lines, cur)
  }

  lemma FirstSame(word: seq<Text>, word': seq<Text>, n: nat)
    requires n < |word| && word <= word'
    ensures First(word', n) <==> First(word, n)
  {
    assert forall k :: 0 <= k <= n ==> word'[k] == word[k];
  }

  /** One more node. */
  lemma MoreMarks(word: seq<Text>, out: seq<bool>, lines: seq<Text>, w: Text)
    requires Marks(word, out, lines) && (HasNode(word, w) || w !in lines)
    ensures Marks(word + [w], out + [false], lines)
  {
    var word', out' := word + [w], out + [false];
    forall n | 0 <= n < |out'|
      ensures MarkOk(word', out', lines, n)
    {
      if n < |out| {
        assert MarkOk(word, out, lines, n);
        FirstSame(word, word', n);
      } else if HasNode(word, w) {
        var m :| 0 <= m < |word| && word[m] == w;
        assert word'[m] == word'[n];
      }
    }
  }

  lemma MoreCovers(word: seq<Text>, lines: seq<Text>, w: Text)
    requires Covers(word, lines)
    ensures Covers(word + [w], lines)
  {
    forall k | 0 <= k < |lines|
      ensures HasNode(word + [w], lines[k])
    {
      assert HasNode(word, lines[k]);
      var m :| 0 <= m < |word| && word[m] == lines[k];
      assert (word + [w])[m] == lines[k];
    }
  }

  lemma MoreWithin(word: seq<Text>, lines: seq<Text>, cur: Text, w: Text, cur': Text)
    requires Within(word, lines, cur) && cur <= cur' && (PrefixOfSome(w, lines) || w <= cur')
    ensures Within(word + [w], lines, cur')
  {
    forall n | 0 <= n < |word + [w]|
      ensures WithinOk(word + [w], lines, cur', n)
    {
      assert n < |word| ==> WithinOk(word, lines, cur, n);
    }
  }

  /** The end of a line. */
  lemma BuiltLine(t: Tree, out: seq<bool>, lines: seq<Text>, cur: Text, s: nat)
    requires Built(t, out, lines, cur) && s < |out| && First(t.word, s) && t.word[s] == cur
    ensures Built(t, out[s := true], lines + [cur], [])
  {
    var out', lines' := out[s := true], lines + [cur];
    forall n | 0 <= n < |out|
      ensures MarkOk(t.word, out', lines', n)
    {
      assert MarkOk(t.word, out, lines, n);
    }
    forall n | 0 <= n < |out|
      ensures WithinOk(t.word, lines', [], n)
    {
      assert WithinOk(t.word, lines, cur, n);
      if t.word[n] <= cur {
        assert lines'[|lines|] == cur;
      } else {
        var k :| 0 <= k < |lines| && t.word[n] <= lines[k];
        assert lines'[k] == lines[k];
      }
    }
    forall k | 0 <= k < |lines'|
      ensures HasNode(t.word, lines'[k])
    {
      assert k < |lines| ==> HasNode(t.word, lines[k]);
    }
  }

  /** An arc that leads on is part of an earlier line. */
  lemma BuiltStep(t: Tree, out: seq<bool>, lines: seq<Text>, cur: Text, n: nat)
    requires Built(t, out, lines, cur) && n < |out| && t.word[n] == cur && t.inp[n] != 0
    ensures Built(t, out, lines, cur + [t.inp[n]]) && PrefixOfSome(cur + [t.inp[n]], lines)
  {
    assert ArcOk(t, n);
    var m := t.nst[n];
    assert WithinOk(t.word, lines, cur, m) && |t.word[m]| == |cur| + 1;
    forall k | 0 <= k < |out|
      ensures WithinOk(t.word, lines, cur + [t.inp[n]], k)
    {
      assert WithinOk(t.word, lines, cur, k);
    }
  }

  lemma BuiltArc(t: Tree, out: seq<bool>, lines: seq<Text>, cur: Text, s: nat)
    requires Built(t, out, lines, cur) && s < |out| && t.link[s] == NULL && t.inp[s] != 0
    ensures Built(AddArc(t, s), out + [false], lines, cur)
  {
    AddArcOk(t, s);
    var w := t.word[s];
    assert HasNode(t.word, w);
    MoreMarks(t.word, out, lines, w);
    MoreCovers(t.word, lines, w);
    assert WithinOk(t.word, lines, cur, s);
    MoreWithin(t.word, lines, cur, w, cur);
  }

  lemma BuiltState(t: Tree, out: seq<bool>, lines: seq<Text>, cur: Text, s: nat, c: byte)
    requires Built(t, out, lines, cur) && s < |out| && t.word[s] == cur && t.inp[s] == 0 && c != 0 && NoArc(t, cur, c)
    ensures Built(AddState(t, s, c), out + [false], lines, cur + [c])
    ensures First(AddState(t, s, c).word, |t.word|) && !PrefixOfSome(cur + [c], lines)
  {
    AddStateOk(t, s, c);
    NoSuchState(t, cur, c);
    var w: Text := cur + [c];
    NotBegun(t, lines, w);
    MoreMarks(t.word, out, lines, w);
    MoreCovers(t.word, lines, w);
    MoreWithin(t.word, lines, cur, w, w);
  }

  /** A word no state spells begins no line. */
  lemma NotBegun(t: Tree, lines: seq<Text>, w: Text)
    requires Ok(t) && Covers(t.word, lines) && NoneOf(t.word, 0, |t.word|, w)
    ensures !PrefixOfSome(w, lines)
  {
    if k :| 0 <= k < |lines| && w <= lines[k] {
      assert HasNode(t.word, lines[k]);
      var m :| 0 <= m < |t.word| && t.word[m] == lines[k];
      PrefixHasNode(t, m, w);
    }
  }
}
