/** fgrep: the failure links and marks that cfail leaves, state by state. */
module FailLinks {
  import opened Common
  import opened Keywords
  import opened KeywordTree
  import opened Automaton
  import opened Ring

  /** What a failure link must lead to: a state that spells a proper suffix. */
  predicate FailOk(word: seq<Text>, n: nat, f: int)
    requires n < |word|
  {
    f == NULL || (0 <= f < |word| && |word[f]| < |word[n]| && SuffixOf(word[f], word[n]))
  }

  /** A marked state ends with a keyword, and that of a keyword is marked. */
  ghost predicate OutOk(t: Text, word: seq<Text>, n: nat, marked: bool)
    requires n < |word|
  {
    (marked ==> EndsWithKey(t, word[n])) && (First(word, n) && Keyword(t, word[n]) ==> marked)
  }

  ghost predicate LinkIs(word: seq<Text>, v: Text, f: int) {
    if v == [] then f == NULL else NodeFor(word, f, v)
  }

  /** Node n, with link f and mark o, is as it is in the end. */
  ghost predicate NodeExact(t: Text, word: seq<Text>, n: nat, f: int, o: bool)
    requires n < |word|
  {
    && LinkIs(word, Fall(t, word[n]), f)
    && (First(word, n) ==> (o <==> Marked(t, word[n])))
    && (word[n] == [] && n > 0 ==> !o)
  }

  /** As it is when the tree has been built. */
  ghost predicate NodeFresh(t: Text, word: seq<Text>, n: nat, f: int, o: bool)
    requires n < |word|
  {
    f == NULL && (o <==> First(word, n) && Keyword(t, word[n]))
  }

  /** The first state and the states listed are done. */
  ghost predicate NodeSettled(t: Text, word: seq<Text>, ws: seq<Text>, n: nat, f: int, o: bool)
    requires n < |word|
  {
    if word[n] == [] || word[n] in ws then NodeExact(t, word, n, f, o) else NodeFresh(t, word, n, f, o)
  }

  lemma FreshSettled(t: Text, word: seq<Text>, n: nat, f: int, o: bool)
    requires n < |word| && word[0] == [] && NodeFresh(t, word, n, f, o)
    ensures NodeSettled(t, word, [], n, f, o)
  {
  }

  /** A state without a link needs nothing to be done. */
  lemma SettleUnlinked(t: Text, word: seq<Text>, ws: seq<Text>, w: Text, n: nat, f: int, o: bool)
    requires n < |word| && NodeSettled(t, word, ws, n, f, o) && w != [] && Fall(t, w) == []
    ensures NodeSettled(t, word, ws + [w], n, f, o)
  {
  }

  /** The state w is given the link g, and the mark of the state it leads to. */
  lemma SettleLinked(t: Text, word: seq<Text>, ws: seq<Text>, w: Text, g: int, og: bool,
                     n: nat, f0: int, o0: bool, f: int, o: bool)
    requires n < |word| && NodeSettled(t, word, ws, n, f0, o0) && w != [] && w !in ws && Fall(t, w) != []
    requires NodeFor(word, g, Fall(t, w)) && (og <==> Marked(t, Fall(t, w)))
    requires if word[n] == w then f == g && (o <==> o0 || og) else f == f0 && o == o0
    ensures NodeSettled(t, word, ws + [w], n, f, o)
  {
  }

  ghost predicate AllSettled(t: Text, word: seq<Text>, ws: seq<Text>, fs: seq<int>, os: seq<bool>) {
    |word| <= |fs| && |word| <= |os| && forall n :: 0 <= n < |word| ==> NodeSettled(t, word, ws, n, fs[n], os[n])
  }

  lemma AllUnlinked(t: Text, word: seq<Text>, ws: seq<Text>, w: Text, fs: seq<int>, os: seq<bool>)
    requires AllSettled(t, word, ws, fs, os) && w != [] && Fall(t, w) == []
    ensures AllSettled(t, word, ws + [w], fs, os)
  {
    var ws' := ws + [w];
    forall n | 0 <= n < |word|
      ensures NodeSettled(t, word, ws', n, fs[n], os[n])
    {
      SettleUnlinked(t, word, ws, w, n, fs[n], os[n]);
    }
  }

  /** The nodes of w before node k have been given the link g and its mark. */
  predicate Relinked(word: seq<Text>, fs: seq<int>, os: seq<bool>, fs': seq<int>, os': seq<bool>, w: Text, g: nat, k: nat) {
    && |word| <= |fs| == |fs'| && |word| <= |os| == |os'| && g < |word|
    && forall n :: 0 <= n < |word| ==> NodeRelinked(word, fs, os, fs', os', w, g, k, n)
  }

  predicate NodeRelinked(word: seq<Text>, fs: seq<int>, os: seq<bool>, fs': seq<int>, os': seq<bool>, w: Text, g: nat, k: nat, n: nat)
    requires n < |word| && g < |word| && |word| <= |fs| == |fs'| && |word| <= |os| == |os'|
  {
    if word[n] == w && n < k then fs'[n] == g && (os'[n] <==> os[n] || os[g]) else fs'[n] == fs[n] && os'[n] == os[n]
  }

  /** Node q is the next of them. */
  lemma RelinkOne(word: seq<Text>, fs: seq<int>, os: seq<bool>, fs': seq<int>, os': seq<bool>, w: Text, g: nat, q: nat)
    requires Relinked(word, fs, os, fs', os', w, g, q) && q < |word| && word[q] == w && word[g] != w
    ensures Relinked(word, fs, os, fs'[q := g], os'[q := os'[q] || os'[g]], w, g, q + 1)
  {
    var fs2, os2, k := fs'[q := g], os'[q := os'[q] || os'[g]], q + 1;
    assert NodeRelinked(word, fs, os, fs', os', w, g, q, q) && NodeRelinked(word, fs, os, fs', os', w, g, q, g);
    forall n | 0 <= n < |word|
      ensures NodeRelinked(word, fs, os, fs2, os2, w, g, k, n)
    {
      assert NodeRelinked(word, fs, os, fs', os', w, g, q, n);
    }
  }

  lemma RelinkPast(word: seq<Text>, fs: seq<int>, os: seq<bool>, fs': seq<int>, os': seq<bool>, w: Text, g: nat, k: nat, k': nat)
    requires Relinked(word, fs, os, fs', os', w, g, k) && k <= k' <= |word| && NoneOf(word, k, k', w)
    ensures Relinked(word, fs, os, fs', os', w, g, k')
  {
    forall n | 0 <= n < |word|
      ensures NodeRelinked(word, fs, os, fs', os', w, g, k', n)
    {
      assert NodeRelinked(word, fs, os, fs', os', w, g, k, n);
    }
  }

  lemma AllLinked(t: Text, word: seq<Text>, ws: seq<Text>, w: Text, g: nat, fs: seq<int>, os: seq<bool>, fs': seq<int>, os': seq<bool>)
    requires AllSettled(t, word, ws, fs, os) && w != [] && w !in ws && Fall(t, w) != []
    requires Relinked(word, fs, os, fs', os', w, g, |word|)
    requires NodeFor(word, g, Fall(t, w)) && (os[g] <==> Marked(t, Fall(t, w)))
    ensures AllSettled(t, word, ws + [w], fs', os')
  {
    var ws' := ws + [w];
    forall n | 0 <= n < |word|
      ensures NodeSettled(t, word, ws', n, fs'[n], os'[n])
    {
      assert NodeRelinked(word, fs, os, fs', os', w, g, |word|, n);
      SettleLinked(t, word, ws, w, g, os[g], n, fs[n], os[n], fs'[n], os'[n]);
    }
  }

  /** The link of a state one character longer. */
  lemma FallNext(t: Text, u: Text, c: byte)
    requires u != [] && c != 0
    ensures Fall(t, u + [c]) == if State(t, Fall(t, u) + [c]) then Fall(t, u) + [c] else []
  {
    FrontOf(u, c);
  }
}
