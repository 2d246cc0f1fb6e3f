/** fgrep: the order in which cfail comes to the states of the tree, level by level. */
module Breadth {
  import opened Common
  import opened Keywords
  import opened KeywordTree
  import opened Automaton

  /** Different states, shorter ones first. */
  ghost predicate Listing(t: Tree, ws: seq<Text>) {
    && Sized(t)
    && (forall k :: 0 <= k < |ws| ==> Listed(t, ws, k))
    && (forall i, j :: 0 <= i < j < |ws| ==> ws[i] != ws[j] && |ws[i]| <= |ws[j]|)
  }

  ghost predicate Listed(t: Tree, ws: seq<Text>, k: nat)
    requires k < |ws|
  {
    ws[k] != [] && HasNode(t.word, ws[k])
  }

  /** All states but the first. */
  ghost predicate ListsAll(t: Tree, ws: seq<Text>) {
    forall n :: 0 <= n < |t.word| ==> t.word[n] == [] || t.word[n] in ws
  }

  /** Where arc n leads. */
  function Below(t: Tree, n: nat): Text
    requires Sized(t) && n < |t.word| && t.inp[n] != 0
  {
    t.word[n] + [t.inp[n]]
  }

  /** The state w is one whose arcs have been followed, or are being followed. */
  predicate Open(ws: seq<Text>, front: nat, w: Text)
    requires front <= |ws|
  {
    w == [] || w in ws[..front]
  }

  /** The first `front` of the states have been taken up, the last of them w.  Arcs of these states
      have been followed, those of w only before arc s. */
  ghost predicate Walk(t: Tree, ws: seq<Text>, front: nat, w: Text, s: nat) {
    && Listing(t, ws) && front <= |ws| && w == (if front == 0 then [] else ws[front - 1])
    && (forall k :: 0 <= k < |ws| ==> FromOpen(t, ws, front, k))
    && (forall n :: 0 <= n < |t.word| ==> Followed(t, ws, front, w, s, n))
    && (forall n :: s <= n < |t.word| ==> NotYet(t, ws, w, n))
  }

  predicate FromOpen(t: Tree, ws: seq<Text>, front: nat, k: nat)
    requires front <= |ws| && k < |ws|
  {
    ws[k] != [] && Open(ws, front, Front(ws[k]))
  }

  predicate Followed(t: Tree, ws: seq<Text>, front: nat, w: Text, s: nat, n: nat)
    requires Sized(t) && front <= |ws| && n < |t.word|
  {
    t.inp[n] != 0 && Open(ws, front, t.word[n]) && !(t.word[n] == w && n >= s) ==> Below(t, n) in ws
  }

  predicate NotYet(t: Tree, ws: seq<Text>, w: Text, n: nat)
    requires Sized(t) && n < |t.word|
  {
    t.word[n] == w && t.inp[n] != 0 ==> Below(t, n) !in ws
  }

  lemma WalkBegins(t: Tree)
    requires Sized(t)
    ensures Walk(t, [], 0, [], 0)
  {
  }

  /** The states listed are at most as long as the arcs being followed make them. */
  lemma NotLonger(t: Tree, ws: seq<Text>, front: nat, w: Text, s: nat, k: nat)
    requires Walk(t, ws, front, w, s) && k < |ws|
    ensures |ws[k]| <= |w| + 1
  {
    assert FromOpen(t, ws, front, k);
    var p := Front(ws[k]);
    if p != [] {
      var j :| 0 <= j < front && ws[j] == p;
    }
  }

  /** Arc s of w is followed. */
  lemma WalkOn(t: Tree, ws: seq<Text>, front: nat, w: Text, s: nat)
    requires Ok(t) && Walk(t, ws, front, w, s) && s < |t.word| && t.word[s] == w && t.inp[s] != 0
    ensures Walk(t, ws + [Below(t, s)], front, w, s + 1)
  {
    var x := Below(t, s);
    assert NotYet(t, ws, w, s);
    assert ArcOk(t, s);
    assert HasNode(t.word, x);
    forall k | 0 <= k < |ws|
      ensures |ws[k]| <= |x|
    {
      NotLonger(t, ws, front, w, s, k);
    }
    ListingMore(t, ws, x);
    FrontOf(w, t.inp[s]);
    FromOpenMore(t, ws, front, x);
    var ws', s' := ws + [x], s + 1;
    forall n | 0 <= n < |t.word|
      ensures Followed(t, ws', front, w, s', n)
    {
      assert Followed(t, ws, front, w, s, n);
      FollowedMore(t, ws, front, w, s, n);
    }
    forall n | s' <= n < |t.word|
      ensures NotYet(t, ws', w, n)
    {
      assert NotYet(t, ws, w, n) && Differ(t, s, n);
      if t.inp[n] != 0 && t.word[n] == w {
        SameEnds(w, t.inp[n], w, t.inp[s]);
      }
    }
  }

  lemma ListingMore(t: Tree, ws: seq<Text>, x: Text)
    requires Listing(t, ws) && x != [] && HasNode(t.word, x) && x !in ws && forall k :: 0 <= k < |ws| ==> |ws[k]| <= |x|
    ensures Listing(t, ws + [x])
  {
    var ws' := ws + [x];
    forall k | 0 <= k < |ws'|
      ensures Listed(t, ws', k)
    {
      assert k < |ws| ==> Listed(t, ws, k);
    }
  }

  lemma FromOpenMore(t: Tree, ws: seq<Text>, front: nat, x: Text)
    requires front <= |ws| && x != [] && Open(ws, front, Front(x)) && forall k :: 0 <= k < |ws| ==> FromOpen(t, ws, front, k)
    ensures forall k :: 0 <= k < |ws + [x]| ==> FromOpen(t, ws + [x], front, k)
  {
    var ws' := ws + [x];
    assert ws'[..front] == ws[..front];
    forall k | 0 <= k < |ws'|
      ensures FromOpen(t, ws', front, k)
    {
      assert k < |ws| ==> FromOpen(t, ws, front, k);
    }
  }

  lemma FollowedMore(t: Tree, ws: seq<Text>, front: nat, w: Text, s: nat, n: nat)
    requires Sized(t) && front <= |ws| && n < |t.word| && s < |t.word| && t.word[s] == w && t.inp[s] != 0
    requires Followed(t, ws, front, w, s, n)
    ensures Followed(t, ws + [Below(t, s)], front, w, s + 1, n)
  {
    assert (ws + [Below(t, s)])[..front] == ws[..front];
  }

  /** An arc of w that leads nowhere is passed over, and so are nodes of other states. */
  lemma WalkPast(t: Tree, ws: seq<Text>, front: nat, w: Text, s: nat, s': nat)
    requires Walk(t, ws, front, w, s) && s <= s' <= |t.word|
    requires forall n :: s <= n < s' ==> t.word[n] != w || t.inp[n] == 0
    ensures Walk(t, ws, front, w, s')
  {
    forall n | 0 <= n < |t.word|
      ensures Followed(t, ws, front, w, s', n)
    {
      assert Followed(t, ws, front, w, s, n);
    }
  }

  /** The next state is taken up. */
  lemma WalkDown(t: Tree, ws: seq<Text>, front: nat, w: Text, s: nat)
    requires Walk(t, ws, front, w, |t.word|) && front < |ws| && s < |t.word| && t.word[s] == ws[front] && First(t.word, s)
    ensures Walk(t, ws, front + 1, ws[front], s)
  {
    var x, next := ws[front], front + 1;
    assert Listed(t, ws, front);
    assert ws[..next] == ws[..front] + [x];
    forall k | 0 <= k < |ws|
      ensures FromOpen(t, ws, next, k) && NotFrom(ws, k, x)
    {
      assert FromOpen(t, ws, front, k);
      if Front(ws[k]) != [] {
        var j :| 0 <= j < front && ws[j] == Front(ws[k]);
      }
    }
    forall n | 0 <= n < |t.word|
      ensures Followed(t, ws, next, x, s, n)
    {
      assert Followed(t, ws, front, w, |t.word|, n);
    }
    forall n | s <= n < |t.word|
      ensures NotYet(t, ws, x, n)
    {
      if t.word[n] == x && t.inp[n] != 0 {
        FrontOf(x, t.inp[n]);
        NoneFrom(ws, x, Below(t, n));
      }
    }
  }

  lemma NoneFrom(ws: seq<Text>, x: Text, y: Text)
    requires y != [] && Front(y) == x && forall k :: 0 <= k < |ws| ==> NotFrom(ws, k, x)
    ensures y !in ws
  {
    forall k | 0 <= k < |ws|
      ensures ws[k] != y
    {
      assert NotFrom(ws, k, x);
    }
  }

  predicate NotFrom(ws: seq<Text>, k: nat, x: Text)
    requires k < |ws|
  {
    ws[k] != [] && Front(ws[k]) != x
  }

  /** A state whose front is open, and is not being followed, is listed. */
  lemma OpenIsFollowed(t: Tree, ws: seq<Text>, front: nat, w: Text, s: nat, n: nat)
    requires Ok(t) && Walk(t, ws, front, w, s) && n < |t.word| && t.word[n] != []
    requires Open(ws, front, Front(t.word[n])) && (Front(t.word[n]) != w || s == |t.word|)
    ensures t.word[n] in ws
  {
    assert FromOk(t, n);
    var a := t.from[n];
    FrontOf(t.word[a], t.inp[a]);
    assert Followed(t, ws, front, w, s, a);
  }

  /** States no longer than w are listed already while its arcs are followed. */
  lemma {:induction false} ShorterListed(t: Tree, ws: seq<Text>, front: nat, w: Text, s: nat, n: nat)
    requires Ok(t) && Walk(t, ws, front, w, s) && n < |t.word| && t.word[n] != [] && |t.word[n]| <= |w|
    ensures t.word[n] in ws
    decreases n
  {
    var p := Front(t.word[n]);
    FromIs(t, n);
    if p != [] {
      ShorterListed(t, ws, front, w, s, t.from[n]);
      var j :| 0 <= j < |ws| && ws[j] == p;
      assert j < front;
      assert p in ws[..front];
    }
    OpenIsFollowed(t, ws, front, w, s, n);
  }

  lemma FromIs(t: Tree, n: nat)
    requires Ok(t) && n < |t.word| && t.word[n] != []
    ensures t.from[n] < n && t.inp[t.from[n]] != 0 && t.word[t.from[n]] == Front(t.word[n])
  {
    assert FromOk(t, n);
    FrontOf(t.word[t.from[n]], t.inp[t.from[n]]);
  }

  /** The state of node s is listed, and so are all that are no longer; where its arc leads is not. */
  ghost predicate Ripe(t: Tree, ws: seq<Text>, s: nat) {
    && Sized(t) && s < |t.word| && t.inp[s] != 0 && t.word[s] in ws && Below(t, s) !in ws
    && forall n :: 0 <= n < |t.word| && t.word[n] != [] && |t.word[n]| <= |t.word[s]| ==> t.word[n] in ws
  }

  lemma WalkRipe(t: Tree, ws: seq<Text>, front: nat, s: nat)
    requires Ok(t) && s < |t.word| && t.inp[s] != 0 && front > 0 && Walk(t, ws, front, t.word[s], s)
    ensures Ripe(t, ws, s)
  {
    assert NotYet(t, ws, t.word[s], s);
    forall n | 0 <= n < |t.word| && t.word[n] != [] && |t.word[n]| <= |t.word[s]|
      ensures t.word[n] in ws
    {
      ShorterListed(t, ws, front, t.word[s], s, n);
    }
  }

  /** When no state is left to be taken up, all are listed. */
  lemma {:induction false} WalkEnds(t: Tree, ws: seq<Text>, w: Text, n: nat)
    requires Ok(t) && Walk(t, ws, |ws|, w, |t.word|) && n < |t.word|
    ensures t.word[n] == [] || t.word[n] in ws
    decreases n
  {
    if t.word[n] != [] {
      FromIs(t, n);
      WalkEnds(t, ws, w, t.from[n]);
      assert ws[..|ws|] == ws;
      OpenIsFollowed(t, ws, |ws|, w, |t.word|, n);
    }
  }

  function Elements(s: seq<Text>): (e: set<Text>)
    ensures forall x :: x in e <==> x in s
  {
    set x | x in s
  }

  lemma {:induction false} FewElements(s: seq<Text>)
    ensures |Elements(s)| <= |s|
    ensures (forall i, j :: 0 <= i < j < |s| ==> s[i] != s[j]) ==> |Elements(s)| == |s|
  {
    if s != [] {
      var u, x := s[..|s| - 1], s[|s| - 1];
      FewElements(u);
      assert s == u + [x];
      assert Elements(s) == Elements(u) + {x};
    } else {
      assert Elements(s) == {};
    }
  }

  /** There are fewer states to list than nodes. */
  lemma FewStates(t: Tree, ws: seq<Text>)
    requires Ok(t) && Listing(t, ws)
    ensures |ws| < |t.word|
  {
    FewElements(ws);
    FewElements(t.word);
    forall x | x in Elements(ws)
      ensures x in Elements(t.word) - {[]}
    {
      var k :| 0 <= k < |ws| && ws[k] == x;
      assert Listed(t, ws, k);
    }
    Subset(Elements(ws), Elements(t.word) - {[]});
    assert t.word[0] in Elements(t.word);
  }

  lemma {:induction false} Subset(a: set<Text>, b: set<Text>)
    requires a <= b
    ensures |a| <= |b|
  {
    if a != {} {
      var x :| x in a;
      Subset(a - {x}, b - {x});
    }
  }
}
