/** fgrep: a keyword tree with failure links, and the scanner that runs it over a text. */
module Fgrep {
  import opened Common
  import opened Keywords
  import opened KeywordTree
  import opened Automaton
  import opened Breadth
  import opened Ring
  import opened FailLinks
  import opened FailSearch

  const MAXSIZ := 6000

  lemma BeginsLine(t: Text, lines: seq<Text>, cur: Text, w: Text)
    requires forall w: Text :: Keyword(t, w) <==> w in lines
    requires (cur == [] || PrefixOfSome(cur, lines)) && (PrefixOfSome(w, lines) || w <= cur)
    ensures State(t, w)
  {
    if cur != [] && w <= cur {
      var k :| 0 <= k < |lines| && cur <= lines[k];
      assert w <= lines[k];
    }
    if w != [] {
      var k :| 0 <= k < |lines| && w <= lines[k];
      assert Keyword(t, lines[k]);
    }
  }

  datatype Outcome = Complete | TooLarge | Unfinished

  class Machine {
    const inp: array<byte>
    const out: array<bool>
    const nst: array<int>
    const link: array<int>
    const fail: array<int>
    var smax: nat
    ghost var word: seq<Text>
    ghost var from: seq<nat>

    ghost predicate Shape()
      reads this
    {
      && inp.Length == out.Length == nst.Length == link.Length == fail.Length == MAXSIZ
      && smax < MAXSIZ && |word| == |from| == smax + 1
      && nst != link && nst != fail && link != fail
      && Separate()
    }

    ghost predicate Separate() {
      var i: object, o: object, p: set<object> := inp, out, {nst, link, fail};
      i != o && i !in p && o !in p
    }

    ghost function Nodes(): Tree
      requires Shape()
      reads this, inp, nst, link
    {
      Tree(inp[..smax + 1], nst[..smax + 1], link[..smax + 1], word, from)
    }

    /** Nodes not yet in use. */
    ghost predicate Blank()
      requires Shape()
      reads this, inp, out, nst, link
    {
      forall n :: smax < n < MAXSIZ ==> inp[n] == 0 && !out[n] && nst[n] == NULL && link[n] == NULL
    }

    ghost predicate BuiltFor(lines: seq<Text>, cur: Text)
      reads this, inp, out, nst, link
    {
      Shape() && Blank() && Built(Nodes(), out[..smax + 1], lines, cur)
    }

    constructor ()
      ensures BuiltFor([], []) && smax == 0
      ensures forall n :: 0 <= n < MAXSIZ ==> fail[n] == NULL
      ensures fresh(inp) && fresh(out) && fresh(nst) && fresh(link) && fresh(fail)
    {
      inp := new byte[MAXSIZ](_ => 0);
      out := new bool[MAXSIZ](_ => false);
      nst := new int[MAXSIZ](_ => NULL);
      link := new int[MAXSIZ](_ => NULL);
      fail := new int[MAXSIZ](_ => NULL);
      smax, word, from := 0, [[]], [0];
    }

    /** Looks in the state of s for an arc that takes c; without one, stops at the last arc. */
    method FindArc(s0: nat, c: byte) returns (found: bool, s: nat)
      requires Shape() && Ok(Nodes()) && s0 <= smax && First(word, s0) && c != 0
      ensures s <= smax && word[s] == word[s0]
      ensures found ==> inp[s] == c
      ensures !found ==> link[s] == NULL && NoArc(Nodes(), word[s0], c)
    {
      s := s0;
      ghost var t := Nodes();
      while true
        invariant s <= smax && word[s] == word[s0]
        invariant forall m :: 0 <= m < s && word[m] == word[s0] ==> t.inp[m] != c
        decreases smax - s
      {
        assert LinkOk(t, s) && t.inp[s] == inp[s] && t.link[s] == link[s];
        if inp[s] == c {
          return true, s;
        }
        if inp[s] == 0 || link[s] == NULL {
          return false, s;
        }
        s := link[s];
      }
    }

    /** s->link = ++smax */
    method NewArc(s: nat, ghost lines: seq<Text>, ghost cur: Text)
      requires BuiltFor(lines, cur) && s <= smax && smax < MAXSIZ - 1 && link[s] == NULL && inp[s] != 0
      modifies this`smax, this`word, this`from, link
      ensures BuiltFor(lines, cur) && Nodes() == AddArc(old(Nodes()), s) && smax == old(smax) + 1
    {
      BuiltArc(Nodes(), out[..smax + 1], lines, cur, s);
      ghost var t', o' := AddArc(Nodes(), s), out[..smax + 1] + [false];
      smax := smax + 1;
      link[s] := smax;
      word, from := t'.word, t'.from;
      assert out[..smax + 1] == o' && inp[..smax + 1] == t'.inp && nst[..smax + 1] == t'.nst;
      assert link[..smax + 1] == t'.link;
    }

    /** s->inp = c, s->nst = ++smax */
    method NewState(s: nat, c: byte, ghost lines: seq<Text>, ghost cur: Text)
      requires BuiltFor(lines, cur) && s <= smax && smax < MAXSIZ - 1
      requires word[s] == cur && inp[s] == 0 && c != 0 && NoArc(Nodes(), cur, c)
      modifies this`smax, this`word, this`from, inp, nst
      ensures BuiltFor(lines, cur + [c]) && smax == old(smax) + 1 && word[smax] == cur + [c]
      ensures First(word, smax) && inp[smax] == 0 && !PrefixOfSome(cur + [c], lines)
    {
      BuiltState(Nodes(), out[..smax + 1], lines, cur, s, c);
      ghost var t', o' := AddState(Nodes(), s, c), out[..smax + 1] + [false];
      inp[s] := c;
      smax := smax + 1;
      nst[s] := smax;
      word, from := t'.word, t'.from;
      assert out[..smax + 1] == o' && inp[..smax + 1] == t'.inp && link[..smax + 1] == t'.link;
      assert nst[..smax + 1] == t'.nst;
    }

    method MarkState(s: nat, ghost lines: seq<Text>, ghost cur: Text)
      requires BuiltFor(lines, cur) && s <= smax && First(word, s) && word[s] == cur
      modifies out
      ensures BuiltFor(lines + [cur], [])
    {
      BuiltLine(Nodes(), out[..smax + 1], lines, cur, s);
      ghost var o' := out[..smax + 1][s := true];
      ghost var t := Nodes();
      out[s] := true;
      assert out[..smax + 1] == o' && Nodes() == t;
    }

    /** The whole tree: a state is marked exactly if it spells a keyword, and every keyword has one. */
    ghost predicate Spells(t: Text)
      reads this, inp, out, nst, link
    {
      && Shape() && Ok(Nodes())
      && (forall n :: 0 <= n <= smax ==> (out[n] <==> First(word, n) && Keyword(t, word[n])))
      && (forall w: Text :: Keyword(t, w) ==> HasNode(word, w))
      && Known(t)
    }

    /** Every node belongs to a state, which spells a beginning of a keyword. */
    ghost predicate Known(t: Text)
      reads this
    {
      forall n :: 0 <= n < |word| ==> State(t, word[n])
    }

    /** What was built is right if the lines it was built for are the keywords. */
    lemma Finished(t: Text, lines: seq<Text>, cur: Text)
      requires BuiltFor(lines, cur) && forall w: Text :: Keyword(t, w) <==> w in lines
      requires cur == [] || PrefixOfSome(cur, lines)
      ensures Spells(t)
    {
      forall n | 0 <= n <= smax
        ensures State(t, word[n])
      {
        assert WithinOk(word, lines, cur, n);
        BeginsLine(t, lines, cur, word[n]);
      }
      forall n | 0 <= n <= smax
        ensures out[n] <==> First(word, n) && Keyword(t, word[n])
      {
        assert MarkOk(word, out[..smax + 1], lines, n);
      }
      forall w: Text | Keyword(t, w)
        ensures HasNode(word, w)
      {
        var k :| 0 <= k < |lines| && lines[k] == w;
        assert HasNode(word, lines[k]);
      }
    }

    /** s = s->nst, on an arc for c */
    method Step(s: nat, c: byte, ghost lines: seq<Text>, ghost cur: Text) returns (n: nat)
      requires BuiltFor(lines, cur) && s <= smax && word[s] == cur && inp[s] == c != 0
      ensures BuiltFor(lines, cur + [c]) && PrefixOfSome(cur + [c], lines)
      ensures n <= smax && First(word, n) && word[n] == cur + [c]
    {
      ghost var t := Nodes();
      assert t.inp[s] == c && t.nst[s] == nst[s] && ArcOk(t, s);
      BuiltStep(t, out[..smax + 1], lines, cur, s);
      n := nst[s];
    }

    /** A state newly added is the last node and has no arc yet. */
    lemma NewIsBare(c: byte)
      requires Shape() && First(word, smax) && inp[smax] == 0 && c != 0
      ensures NoArc(Nodes(), word[smax], c)
    {
      var t := Nodes();
      assert t.inp[smax] == inp[smax];
    }

    /** The arc a continuation is entered at: an empty one, if need be a new one. */
    method BareArc(s0: nat, c: byte, ghost lines: seq<Text>, ghost cur: Text) returns (ok: bool, s: nat)
      requires BuiltFor(lines, cur) && s0 <= smax && word[s0] == cur && link[s0] == NULL && c != 0 && NoArc(Nodes(), cur, c)
      modifies this`smax, this`word, this`from, link
      ensures ok ==> BuiltFor(lines, cur) && s <= smax && word[s] == cur && inp[s] == 0 && NoArc(Nodes(), cur, c)
      ensures if ok then smax <= old(smax) + 1 else old(smax) >= MAXSIZ - 1
    {
      s := s0;
      if inp[s] != 0 {
        if smax >= MAXSIZ - 1 {
          return false, s;
        }
        NewArc(s, lines, cur);
        s := smax;
        assert Nodes().inp[s] == inp[s];
      }
      ok := true;
    }

    /** Ready to enter c below the state of s, which spells cur. */
    ghost predicate Bare(s: nat, c: byte, lines: seq<Text>, cur: Text)
      reads this, inp, out, nst, link
    {
      BuiltFor(lines, cur) && s <= smax && word[s] == cur && inp[s] == 0 && NoArc(Nodes(), cur, c)
    }

    /** In the loop that enters the rest of a line: t[i] is still to be entered, or the line is done. */
    ghost predicate Entering(t: Text, i: nat, more: bool, s: nat, lines: seq<Text>, cur: Text)
      reads this, inp, out, nst, link
    {
      && i <= |t| && Split(t, i, lines, cur) == ReadAll(t)
      && if more then i < |t| && t[i] != NEWLINE && t[i] != 0 && Bare(s, t[i], lines, cur)
         else (i < |t| ==> t[i] == NEWLINE) && Entered(lines, cur)
    }

    /** The newest node spells the line. */
    ghost predicate Entered(lines: seq<Text>, cur: Text)
      reads this, inp, out, nst, link
    {
      BuiltFor(lines, cur) && First(word, smax) && word[smax] == cur && !PrefixOfSome(cur, lines) && cur != []
    }

    /** One pass of the loop that enters the rest of a line. */
    method EnterByte(t: Text, i: nat, s: nat, ghost lines: seq<Text>, ghost cur: Text, ghost cur': Text)
      returns (ok: bool, more: bool)
      requires Entering(t, i, true, s, lines, cur) && cur' == cur + [t[i]]
      modifies this`smax, this`word, this`from, inp, nst
      ensures ok ==> Entering(t, i + 1, more, smax, lines, cur')
      ensures if ok then smax == old(smax) + 1 else old(smax) >= MAXSIZ - 1
    {
      more := i + 1 < |t| && t[i + 1] != NEWLINE;
      if smax >= MAXSIZ - 1 {
        return false, more;
      }
      SplitNext(t, i, lines, cur);
      NewState(s, t[i], lines, cur);
      ok := true;
      if more {
        assert t[i + 1] in t;
        NewIsBare(t[i + 1]);
      }
    }

    /** The loop that enters the rest of a line, from t[i0] on, below s0. */
    method Enter(t: Text, i0: nat, s0: nat, ghost lines: seq<Text>, ghost cur0: Text)
      returns (ok: bool, i: nat, ghost cur: Text)
      requires i0 < |t| && t[i0] != NEWLINE && t[i0] != 0 && BuiltFor(lines, cur0)
      requires Split(t, i0, lines, cur0) == ReadAll(t)
      requires s0 <= smax && word[s0] == cur0 && link[s0] == NULL && NoArc(Nodes(), cur0, t[i0])
      modifies this`smax, this`word, this`from, inp, nst, link
      ensures ok ==> i0 < i <= |t| && (i < |t| ==> t[i] == NEWLINE) && Split(t, i, lines, cur) == ReadAll(t)
      ensures ok ==> Entered(lines, cur)
      ensures if ok then smax <= old(smax) + 1 + (i - i0) else old(smax) + 1 + (|t| - i0) >= MAXSIZ
    {
      var s: nat;
      i, cur := i0, cur0;
      ok, s := BareArc(s0, t[i0], lines, cur);
      var more := ok;
      while more
        invariant i0 <= i && (more ==> ok) && (ok && !more ==> i0 < i)
        invariant ok ==> Entering(t, i, more, s, lines, cur)
        invariant if ok then smax <= old(smax) + 1 + (i - i0) else old(smax) + 1 + (|t| - i0) >= MAXSIZ
        decreases |t| - i, more
      {
        ghost var longer := cur + [t[i]];
        ok, more := EnterByte(t, i, s, lines, cur, longer);
        cur, s, i := longer, smax, i + 1;
        more := ok && more;
      }
    }

    /** Between two bytes: the state of s spells the part of a line that was read. */
    ghost predicate Reading(t: Text, i: nat, s: nat, lines: seq<Text>, cur: Text)
      reads this, inp, out, nst, link
    {
      && i <= |t| && Split(t, i, lines, cur) == ReadAll(t) && BuiltFor(lines, cur)
      && s <= smax && First(word, s) && word[s] == cur && (cur == [] || PrefixOfSome(cur, lines))
    }

    /** A byte that is part of a keyword; without an arc for it, the rest of the line is entered. */
    method Letter(t: Text, i0: nat, s0: nat, ghost lines0: seq<Text>, ghost cur0: Text)
      returns (ok: bool, ended: bool, i: nat, s: nat, ghost lines: seq<Text>, ghost cur: Text)
      requires i0 < |t| && t[i0] != NEWLINE && Reading(t, i0, s0, lines0, cur0)
      modifies this`smax, this`word, this`from, inp, out, nst, link
      ensures ok && ended ==> Spells(t)
      ensures ok && !ended ==> i0 < i && Reading(t, i, s, lines, cur)
      ensures ok ==> i0 < i <= |t| && smax <= old(smax) + 2 * (i - i0)
      ensures !ok ==> old(smax) + 2 * (|t| - i0) >= MAXSIZ
    {
      var found;
      found, s := FindArc(s0, t[i0]);
      if found {
        SplitNext(t, i0, lines0, cur0);
        s := Step(s, t[i0], lines0, cur0);
        ok, ended, i, lines, cur := true, false, i0 + 1, lines0, cur0 + [t[i0]];
      } else {
        ok, ended, i, s, lines, cur := Rest(t, i0, s, lines0, cur0);
      }
    }

    /** The rest of a line, from a byte for which the state of s has no arc. */
    method Rest(t: Text, i0: nat, s0: nat, ghost lines0: seq<Text>, ghost cur0: Text)
      returns (ok: bool, ended: bool, i: nat, s: nat, ghost lines: seq<Text>, ghost cur: Text)
      requires i0 < |t| && t[i0] != NEWLINE && BuiltFor(lines0, cur0) && Split(t, i0, lines0, cur0) == ReadAll(t)
      requires s0 <= smax && word[s0] == cur0 && link[s0] == NULL && t[i0] != 0 && NoArc(Nodes(), cur0, t[i0])
      modifies this`smax, this`word, this`from, inp, out, nst, link
      ensures ok && ended ==> Spells(t)
      ensures ok && !ended ==> i0 < i && Reading(t, i, s, lines, cur)
      ensures ok ==> i0 < i <= |t| && smax <= old(smax) + 2 * (i - i0)
      ensures !ok ==> old(smax) + 2 * (|t| - i0) >= MAXSIZ
    {
      ended, lines, s := false, lines0, 0;
      ok, i, cur := Enter(t, i0, s0, lines0, cur0);
      if ok {
        ended, i, lines, cur := LineEntered(t, i, lines0, cur);
      }
    }

    /** smax->out = 1, s = w */
    method LineEntered(t: Text, i0: nat, ghost lines0: seq<Text>, ghost cur0: Text)
      returns (ended: bool, i: nat, ghost lines: seq<Text>, ghost cur: Text)
      requires i0 <= |t| && (i0 < |t| ==> t[i0] == NEWLINE) && Split(t, i0, lines0, cur0) == ReadAll(t)
      requires Entered(lines0, cur0)
      modifies out
      ensures if ended then i == i0 && Spells(t) else i == i0 + 1 <= |t| && Reading(t, i, 0, lines, cur)
    {
      MarkState(smax, lines0, cur0);
      i, lines, cur := i0, lines0 + [cur0], [];
      ended := i == |t|;
      if ended {
        Finished(t, lines, []);
      } else {
        SplitNext(t, i, lines0, cur0);
        i := i + 1;
      }
    }

    /** Builds the tree from the keywords in t; false if there is no room, which there is if there are
        two nodes for each character. */
    method CGotoFn(t: Text) returns (ok: bool)
      requires BuiltFor([], [])
      modifies this`smax, this`word, this`from, inp, out, nst, link
      ensures if ok then Spells(t) && smax <= old(smax) + 2 * |t| else old(smax) + 2 * |t| >= MAXSIZ
    {
      var s: nat, i: nat := 0, 0;
      ghost var lines: seq<Text>, cur: Text := [], [];
      while i < |t|
        invariant Reading(t, i, s, lines, cur) && smax <= old(smax) + 2 * i
        decreases |t| - i
      {
        if t[i] == NEWLINE {
          SplitNext(t, i, lines, cur);
          MarkState(s, lines, cur);
          i, s, lines, cur := i + 1, 0, lines + [cur], [];
        } else {
          var ended;
          ok, ended, i, s, lines, cur := Letter(t, i, s, lines, cur);
          if !ok || ended {
            return;
          }
        }
      }
      Finished(t, lines, cur);
      ok := true;
    }

    /** Failure links lead to proper suffixes, and a marked state ends with a keyword. */
    ghost predicate Sound(t: Text)
      reads this, inp, out, nst, link, fail
    {
      Links() && Outs(t)
    }

    ghost predicate Links()
      reads this, inp, nst, link, fail
    {
      Shape() && Ok(Nodes()) && forall n :: 0 <= n <= smax ==> FailOk(word, n, fail[n])
    }

    ghost predicate Outs(t: Text)
      requires Shape()
      reads this, out
    {
      && (forall n :: 0 <= n <= smax ==> OutOk(t, word, n, out[n]))
      && (forall w: Text :: Keyword(t, w) ==> HasNode(word, w))
    }

    /** What arc n says. */
    lemma Arc(n: nat)
      requires Shape() && Ok(Nodes()) && n <= smax
      ensures inp[n] != 0 ==> 0 <= nst[n] <= smax && word[nst[n]] == word[n] + [inp[n]]
      ensures link[n] == NULL || (n < link[n] <= smax && word[link[n]] == word[n])
    {
      var t := Nodes();
      assert ArcOk(t, n) && LinkOk(t, n) && t.inp[n] == inp[n] && t.nst[n] == nst[n] && t.link[n] == link[n];
    }

    /** The tree is too small for the ring to be filled or left. */
    predicate Small()
      reads this`smax
    {
      smax < QSIZE - 2
    }

    /** Every link is the one Fall gives, and the marks of the states are those of Marked. */
    ghost predicate Exact(t: Text)
      reads this, inp, out, nst, link, fail
    {
      Sound(t) && Known(t) && forall n :: 0 <= n <= smax ==> NodeExact(t, word, n, fail[n], out[n])
    }

    /** The tree, the links and marks, and the queue are these. */
    ghost predicate Shows(queue: array<int>, tree: Tree, st: Search)
      reads this, inp, out, nst, link, fail, queue
    {
      Shape() && Nodes() == tree && fail[..] == st.fs && out[..] == st.os && queue[..] == st.q && Own(queue)
    }

    /** The queue shares nothing with the tree. */
    ghost predicate Own(queue: array<int>) {
      var q: object := queue;
      q != inp && q != out && queue !in {nst, link, fail}
    }

    /** Puts the states below the first one into the queue. */
    method FirstStates(queue: array<int>, ghost t: Text, ghost tree: Tree, ghost st0: Search)
      returns (ok: bool, rear: nat, ghost st: Search)
      requires Shows(queue, tree, st0) && Beginning(t, tree, st0, 0) && st0.rear == 0
      modifies queue
      ensures Shows(queue, tree, st) && rear == st.rear && st.front == st.f == 0
      ensures if ok then Turning(t, tree, st, []) else GivenUp(t, tree, st)
    {
      var s: nat := 0;
      rear, st := 0, st0;
      while true
        invariant Shows(queue, tree, st) && rear == st.rear && st.front == st.f == 0
        invariant s < |tree.word| && tree.word[s] == [] && Beginning(t, tree, st, s)
        decreases |tree.word| - s
      {
        rear, st := FirstArc(queue, s, rear, t, tree, st);
        if rear >= QSIZE - 1 {
          return false, rear, st;
        }
        FirstNext(t, tree, st, s);
        assert tree.link[s] == link[s];
        if link[s] == NULL {
          return true, rear, st;
        }
        s := link[s];
      }
    }

    /** *rear++ = s->nst, if there is an arc */
    method FirstArc(queue: array<int>, s: nat, rear0: nat, ghost t: Text, ghost tree: Tree, ghost st0: Search)
      returns (rear: nat, ghost st: Search)
      requires Shows(queue, tree, st0) && rear0 == st0.rear
      requires s < |tree.word| && tree.word[s] == [] && Beginning(t, tree, st0, s)
      modifies queue
      ensures Shows(queue, tree, st) && rear == st.rear && st.front == st0.front && st.f == st0.f
      ensures if rear < QSIZE - 1 then Beginning(t, tree, st, s + 1) else GivenUp(t, tree, st)
    {
      rear, st := rear0, st0;
      assert tree.inp[s] == inp[s] && tree.nst[s] == nst[s];
      if inp[s] != 0 {
        FirstKeeps(t, tree, st0, s);
        st := Pushed(tree, st0, s).0;
        queue[rear] := nst[s];
        rear := rear + 1;
      } else {
        FirstSkips(t, tree, st0, s);
      }
    }

    /** rear is moved on, unless the ring is found to be full. */
    method MoveRear(front: nat, rear0: nat) returns (ok: bool, rear: nat)
      ensures (rear, ok) == NextRear(front, rear0)
    {
      rear, ok := rear0, true;
      if front < rear {
        if rear >= QSIZE - 1 {
          if front == 0 {
            ok := false;
          } else {
            rear := 0;
          }
        } else {
          rear := rear + 1;
        }
      } else {
        rear := rear + 1;
        ok := rear != front;
      }
    }

    /** Puts the state that arc s leads to into the ring, or past its end. */
    method Push(queue: array<int>, s: nat, front: nat, rear0: nat, ghost tree: Tree, ghost st0: Search)
      returns (ok: bool, rear: nat, ghost st: Search)
      requires Shows(queue, tree, st0) && s < |tree.word| && tree.inp[s] != 0
      requires front == st0.front && rear0 == st0.rear < |st0.q|
      modifies queue
      ensures Shows(queue, tree, st) && (st, ok) == Pushed(tree, st0, s) && rear == st.rear
    {
      assert tree.nst[s] == nst[s];
      st := Pushed(tree, st0, s).0;
      queue[rear0] := nst[s];
      ok, rear := MoveRear(front, rear0);
    }

    /** The loop over the arcs of the state to fall back to. */
    method FindFallBack(c: byte, state0: int, ghost tree: Tree) returns (found: bool, state: nat)
      requires Shape() && Nodes() == tree && Ok(tree) && c != 0 && 0 <= Start(state0) <= smax
      ensures state <= smax && tree.word[state] == tree.word[Start(state0)]
      ensures found ==> tree.inp[state] == c
      ensures !found && First(tree.word, Start(state0)) ==> NoArc(tree, tree.word[Start(state0)], c)
    {
      state := if state0 == NULL then 0 else state0;
      ghost var first := state;
      while inp[state] != c
        invariant state <= smax && tree.word[state] == tree.word[first]
        invariant First(tree.word, first) ==> NoArcBefore(tree, tree.word[first], c, state)
        decreases smax - state
      {
        Arc(state);
        LastArc(state, c);
        if link[state] == NULL {
          return false, state;
        }
        state := link[state];
      }
      found := true;
    }

    /** The loop over the arcs of q, which all fall back to f. */
    method SetFail(q0: nat, f: nat, ghost tree: Tree, ghost fs: seq<int>, ghost os: seq<bool>)
      requires Shape() && Nodes() == tree && Ok(tree) && fail[..] == fs && out[..] == os
      requires q0 <= smax && f <= smax && First(tree.word, q0) && tree.word[f] != tree.word[q0]
      modifies fail, out
      ensures Shape() && Nodes() == tree
      ensures Relinked(tree.word, fs, os, fail[..], out[..], tree.word[q0], f, |tree.word|)
    {
      var q := q0;
      while true
        invariant Shape() && Nodes() == tree && q <= smax && tree.word[q] == tree.word[q0]
        invariant Relinked(tree.word, fs, os, fail[..], out[..], tree.word[q0], f, q)
        decreases smax - q
      {
        RelinkOne(tree.word, fs, os, fail[..], out[..], tree.word[q0], f, q);
        FailOne(q, f, tree);
        assert LinkOk(tree, q) && tree.link[q] == link[q];
        RelinkPast(tree.word, fs, os, fail[..], out[..], tree.word[q0], f, q + 1, if link[q] == NULL then |tree.word| else link[q]);
        if link[q] == NULL {
          return;
        }
        q := link[q];
      }
    }

    /** q->fail = f, and the mark of f */
    method FailOne(q: nat, f: nat, ghost tree: Tree)
      requires Shape() && Nodes() == tree && q <= smax && f <= smax
      modifies fail, out
      ensures Shape() && Nodes() == tree
      ensures fail[..] == old(fail[..])[q := f] && out[..] == old(out[..])[q := old(out[q]) || old(out[f])]
    {
      fail[q] := f;
      if out[f] {
        out[q] := true;
      }
    }

    /** The link of the state that arc s leads to; st is the search before it was stored. */
    method FallBack(s: nat, ghost t: Text, ghost tree: Tree, ghost st: Search, ghost orderly: bool)
      requires Shape() && Nodes() == tree && fail[..] == st.fs && out[..] == st.os && Good(t, tree, st.fs, st.os)
      requires s < |tree.word| && tree.inp[s] != 0 && tree.word[s] != [] && (orderly ==> Ready(t, tree, st, s))
      modifies fail, out
      ensures Shape() && Nodes() == tree && Good(t, tree, fail[..], out[..])
      ensures orderly ==> AllSettled(t, tree.word, st.ws + [Below(tree, s)], fail[..], out[..])
    {
      assert FailOk(tree.word, s, st.fs[s]) && tree.inp[s] == inp[s] && tree.nst[s] == nst[s];
      var found, state;
      found, state := FindFallBack(inp[s], fail[s], tree);
      if orderly {
        FallsTo(t, tree, st, s);
      }
      if found {
        FailSearch.ArcNode(tree, s);
        FailSearch.ArcNode(tree, state);
        assert tree.nst[state] == nst[state];
        SetFail(nst[s], nst[state], tree, st.fs, st.os);
        GoodRelinked(t, tree, st.fs, st.os, fail[..], out[..], s, state);
        if orderly {
          LinkSettled(t, tree, st, fail[..], out[..], s, state);
        }
      } else if orderly {
        NoLink(t, tree, st, s);
      }
    }

    /** One arc of w: the state it leads to enters the ring, and gets its failure link. */
    method FollowArc(queue: array<int>, s: nat, front: nat, rear0: nat, ghost t: Text, ghost tree: Tree, ghost st0: Search, ghost w: Text)
      returns (ok: bool, rear: nat, ghost st: Search)
      requires Shows(queue, tree, st0) && front == st0.front && rear0 == st0.rear && Passing(t, tree, st0, w, s)
      modifies queue, fail, out
      ensures Shows(queue, tree, st) && rear == st.rear && st.front == front && st.f == st0.f
      ensures if ok then Taken(t, tree, st, w, s) else GivenUp(t, tree, st)
    {
      ok, rear, st := true, rear0, st0;
      assert tree.inp[s] == inp[s];
      if inp[s] != 0 {
        if st0.course.Orderly? {
          PassingReady(t, tree, st0, w, s);
        }
        ok, rear, st := Push(queue, s, front, rear0, tree, st0);
        if ok {
          FallBack(s, t, tree, st0, st0.course.Orderly?);
          PushKeeps(t, tree, st0, w, s, fail[..], out[..]);
          st := st.(fs := fail[..], os := out[..]);
        } else {
          PushEnds(t, tree, st0, w, s);
        }
      } else {
        SkipKeeps(t, tree, st0, w, s);
      }
    }

    /** One pass of the loop over the queue. */
    method Pass(queue: array<int>, front0: nat, rear0: nat, ghost t: Text, ghost tree: Tree, ghost st0: Search, ghost w0: Text)
      returns (ok: bool, front: nat, rear: nat, ghost st: Search, ghost w: Text)
      requires Shows(queue, tree, st0) && front0 == st0.front && rear0 == st0.rear && front0 != rear0
      requires Turning(t, tree, st0, w0)
      modifies queue, fail, out
      ensures Shows(queue, tree, st) && front == st.front && rear == st.rear && st.f == st0.f + 1
      ensures if ok then Turning(t, tree, st, w) else GivenUp(t, tree, st)
    {
      PopKeeps(t, tree, st0, w0);
      assert st0.q[front0] == queue[front0];
      var s: nat := queue[front0];
      front := if front0 == QSIZE - 1 then 0 else front0 + 1;
      rear, st, w := rear0, Popped(st0), tree.word[s];
      while true
        invariant Shows(queue, tree, st) && front == st.front && rear == st.rear && st.f == st0.f + 1
        invariant Passing(t, tree, st, w, s)
        decreases |tree.word| - s
      {
        ok, rear, st := FollowArc(queue, s, front, rear, t, tree, st, w);
        if !ok {
          return;
        }
        NextKeeps(t, tree, st, w, s);
        assert tree.link[s] == link[s];
        if link[s] == NULL {
          return;
        }
        s := link[s];
      }
    }

    /** Any number of passes; whatever the order in which states come out of the queue, and
        whether or not the ring is left, the tree stays sound.  The states listed say whether rear
        leaves the ring.  As long as it does not, every link and every mark in the end is the one
        Fall and Marked give, and as many passes as there are nodes are enough.  If it does, another
        QSIZE passes store a state past the end. */
    method CFail(passes: nat, ghost t: Text) returns (r: Outcome, ghost course: Course, ghost ws: seq<Text>)
      requires Spells(t) && forall n :: 0 <= n < MAXSIZ ==> fail[n] == NULL
      modifies fail, out
      ensures Sound(t) && Listing(Nodes(), ws) && (course.Orderly? <==> !Strays(ws))
      ensures course.Orderly? && r == Complete ==> Exact(t) && ListsAll(Nodes(), ws)
      ensures course.Orderly? && r == TooLarge ==> Crowded(ws)
      ensures course.Orderly? && passes > smax ==> r != Unfinished
      ensures !course.Orderly? && passes > smax + QSIZE ==> course.Over?
      ensures Small() && passes > smax ==> r == Complete && course.Orderly?
    {
      ghost var tree := Nodes();
      SpellsIsGood(t);
      var queue := new int[QSIZE + 1];
      var ok, front: nat, rear: nat := true, 0, 0;
      ghost var st, w: Text := Search(queue[..], 0, 0, 0, fail[..], out[..], Orderly, [], 0), [];
      Begins(t, tree, st);
      ok, rear, st := FirstStates(queue, t, tree, st);
      var k := 0;
      while ok && k < passes && rear != front
        invariant fresh(queue) && Shows(queue, tree, st) && front == st.front && rear == st.rear && st.f == k <= passes
        invariant if ok then Turning(t, tree, st, w) else GivenUp(t, tree, st)
      {
        ok, front, rear, st, w := Pass(queue, front, rear, t, tree, st, w);
        k := k + 1;
      }
      r := if !ok then TooLarge else if rear == front then Complete else Unfinished;
      course, ws := st.course, st.ws;
      SearchEnds(t, tree, st, ok, w);
      if ok && course.Orderly? && rear == front {
        AllDone(t, tree, st, w);
      }
      GoodIsSound(t);
    }

    lemma SpellsIsGood(t: Text)
      requires Spells(t) && forall n :: 0 <= n < MAXSIZ ==> fail[n] == NULL
      ensures Good(t, Nodes(), fail[..], out[..]) && AllStates(t, Nodes()) && AllSettled(t, word, [], fail[..], out[..])
    {
      forall n | 0 <= n < |word|
        ensures OutOk(t, word, n, out[..][n]) && NodeSettled(t, word, [], n, fail[..][n], out[..][n])
      {
        FreshSettled(t, word, n, fail[..][n], out[..][n]);
        assert SuffixOf(word[n], word[n]);
      }
    }

    lemma GoodIsSound(t: Text)
      requires Shape() && Good(t, Nodes(), fail[..], out[..])
      ensures Sound(t)
    {
      forall n | 0 <= n <= smax
        ensures FailOk(word, n, fail[n]) && OutOk(t, word, n, out[n])
      {
        assert FailOk(word, n, fail[..][n]) && OutOk(t, word, n, out[..][n]);
      }
    }

    /** When the ring is empty everything is done. */
    lemma AllDone(t: Text, tree: Tree, st: Search, w: Text)
      requires Shape() && Nodes() == tree && fail[..] == st.fs && out[..] == st.os
      requires Turning(t, tree, st, w) && st.course.Orderly? && st.front == st.rear
      ensures Exact(t) && ListsAll(tree, st.ws)
    {
      GoodIsSound(t);
      forall n | 0 <= n <= smax
        ensures (word[n] == [] || word[n] in st.ws) && NodeExact(t, word, n, fail[n], out[n])
      {
        WalkEnds(tree, st.ws, w, n);
        assert NodeSettled(t, word, st.ws, n, fail[..][n], out[..][n]);
      }
    }

    /** The state after one more character: the arc for it, or that of the nearest state to fall
        back to; without any, the last arc of the first state. */
    method Transition(c0: nat, b: byte, ghost cur: Text, ghost t: Text, ghost exact: bool) returns (c: nat)
      requires Links() && c0 <= smax && b != 0 && SuffixOf(word[c0], cur) && (exact ==> Exact(t) && Entry(c0))
      ensures c <= smax && SuffixOf(word[c], cur + [b])
      ensures First(word, c0) && word[c0] == cur && !NoArc(Nodes(), cur, b) ==> First(word, c) && word[c] == cur + [b]
      ensures exact ==> word[c] == Delta(t, word[c0], b) && Entry(c)
    {
      ghost var d, nodes := Delta(t, word[c0], b), Nodes();
      ghost var goesOn := First(nodes.word, c0) && nodes.word[c0] == cur && !NoArc(nodes, cur, b);
      var found, more;
      found, more, c := TryOrFallBack(c0, b, cur, t, exact, d);
      while more
        invariant Nodes() == nodes && Sought(found, more, c, b, cur, t, exact, d)
        invariant goesOn ==> found && First(word, c) && word[c] == cur + [b]
        decreases more, |word[c]|
      {
        found, more, c := TryOrFallBack(c, b, cur, t, exact, d);
      }
      if !found {
        c := FirstState(b, cur, t, exact);
      }
    }

    /** The first node of a state, or any of the first state. */
    ghost predicate Entry(c: nat)
      requires c < |word|
      reads this
    {
      First(word, c) || word[c] == []
    }

    /** Looking for an arc for b from c on; in an exact tree it is to lead to d. */
    ghost predicate Seeking(c: nat, b: byte, cur: Text, t: Text, exact: bool, d: Text)
      requires b != 0
      reads this, inp, out, nst, link, fail
    {
      && Links() && c <= smax && SuffixOf(word[c], cur)
      && (exact ==> Exact(t) && Entry(c) && Delta(t, word[c], b) == d)
    }

    /** The arc has been found, or there is more to try, or only the first state is left. */
    ghost predicate Sought(found: bool, more: bool, c: nat, b: byte, cur: Text, t: Text, exact: bool, d: Text)
      requires b != 0
      reads this, inp, out, nst, link, fail
    {
      && Links() && c <= smax && !(found && more)
      && (found ==> SuffixOf(word[c], cur + [b]) && First(word, c) && (exact ==> word[c] == d))
      && (more ==> Seeking(c, b, cur, t, exact, d))
      && (!found && !more && exact ==> Exact(t) && Delta(t, [], b) == d)
    }

    /** One state: the arc for b, or the failure link of its last arc. */
    method TryOrFallBack(c: nat, b: byte, ghost cur: Text, ghost t: Text, ghost exact: bool, ghost d: Text)
      returns (found: bool, more: bool, next: nat)
      requires b != 0 && Seeking(c, b, cur, t, exact, d)
      ensures Sought(found, more, next, b, cur, t, exact, d)
      ensures found ==> word[next] == word[c] + [b]
      ensures !found && First(word, c) ==> NoArc(Nodes(), word[c], b)
      ensures more ==> |word[next]| < |word[c]|
    {
      found, next := TryState(c, b);
      more := false;
      if exact {
        FallingBack(t, c, b, found, next);
      }
      if found {
        SuffixGrows(word[c], cur, b);
        return;
      }
      assert FailOk(word, next, fail[next]);
      if fail[next] != NULL {
        SuffixTrans(word[fail[next]], word[next], cur);
        more, next := true, fail[next];
      }
    }

    lemma FallingBack(t: Text, c: nat, b: byte, found: bool, next: nat)
      requires Exact(t) && c <= smax && next <= smax && b != 0 && Entry(c)
      requires if found then word[next] == word[c] + [b] else word[next] == word[c]
      requires !found && First(word, c) ==> NoArc(Nodes(), word[c], b)
      ensures found ==> Delta(t, word[c], b) == word[next]
      ensures !found ==> LinkIs(word, Fall(t, word[c]), fail[next]) && Delta(t, word[c], b) == Delta(t, Fall(t, word[c]), b)
    {
      assert NodeExact(t, word, next, fail[next], out[next]);
      if found {
        assert State(t, word[next]);
      } else if First(word, c) {
        ArcIsState(t, Nodes(), word[c], b);
      }
    }

    /** The loop over the arcs of a state, from arc c0 on: the state that the arc for b leads to,
        or else the last arc. */
    method TryState(c0: nat, b: byte) returns (found: bool, c: nat)
      requires Links() && c0 <= smax && b != 0
      ensures c <= smax && word[c] == if found then word[c0] + [b] else word[c0]
      ensures found ==> First(word, c)
      ensures !found && First(word, c0) ==> NoArc(Nodes(), word[c0], b)
    {
      c := c0;
      ghost var t := Nodes();
      while inp[c] != b
        invariant c <= smax && word[c] == word[c0]
        invariant First(word, c0) ==> NoArcBefore(t, word[c0], b, c)
        decreases smax - c
      {
        Arc(c);
        LastArc(c, b);
        if link[c] == NULL {
          return false, c;
        }
        c := link[c];
      }
      Arc(c);
      LastArc(c, b);
      return true, nst[c];
    }

    /** Arcs are linked in the order of their numbers. */
    lemma LastArc(c: nat, b: byte)
      requires Shape() && Ok(Nodes()) && c <= smax && b != 0
      ensures inp[c] != 0 ==> 0 <= nst[c] <= smax && First(word, nst[c])
      ensures inp[c] != b && NoArcBefore(Nodes(), word[c], b, c) ==>
        if link[c] == NULL then NoArc(Nodes(), word[c], b) else 0 <= link[c] <= smax && NoArcBefore(Nodes(), word[c], b, link[c])
    {
      var t := Nodes();
      assert LinkOk(t, c) && ArcOk(t, c) && t.inp[c] == inp[c] && t.link[c] == link[c] && t.nst[c] == nst[c];
    }

    /** The loop over the arcs of the first state. */
    method FirstState(b: byte, ghost cur: Text, ghost t: Text, ghost exact: bool) returns (c: nat)
      requires Links() && b != 0 && (exact ==> Exact(t))
      ensures c <= smax && SuffixOf(word[c], cur + [b])
      ensures exact ==> word[c] == Delta(t, [], b) && Entry(c)
    {
      c := 0;
      ghost var nodes := Nodes();
      while inp[c] != b
        invariant c <= smax && word[c] == [] && NoArcBefore(nodes, [], b, c)
        decreases smax - c
      {
        Arc(c);
        LastArc(c, b);
        if link[c] == NULL {
          if exact {
            ArcIsState(t, Nodes(), [], b);
          }
          return;
        }
        c := link[c];
      }
      Arc(c);
      LastArc(c, b);
      SuffixGrows([], cur, b);
      c := nst[c];
    }

    /** The scanner, in state c, has read cur of the current line. */
    ghost predicate At(t: Text, c: nat, cur: Text)
      requires Shape()
      reads this
    {
      && c <= smax && SuffixOf(word[c], cur) && !BeginsWithKey(t, cur)
      && (BeginsKey(t, cur) ==> First(word, c) && word[c] == cur)
    }

    /** In an exact tree without an empty keyword: the state is that of Run, and no marked one was met. */
    ghost predicate AtExactly(t: Text, c: nat, cur: Text)
      requires Shape()
      reads this
    {
      c <= smax && word[c] == Run(t, cur) && Entry(c) && !Reported(t, cur)
    }

    ghost predicate Decides(t: Text)
      reads this, inp, out, nst, link, fail
    {
      Exact(t) && !Keyword(t, [])
    }

    /** One character of the text. */
    method Read1(c0: nat, b: byte, ghost cur: Text, ghost t: Text, ghost exact: bool) returns (c: nat, marked: bool)
      requires Sound(t) && b != 0 && At(t, c0, cur) && (exact ==> Decides(t) && AtExactly(t, c0, cur))
      ensures marked ==> EndsWithKey(t, cur + [b])
      ensures !marked ==> At(t, c, cur + [b])
      ensures exact ==> if marked then Reported(t, cur + [b]) else AtExactly(t, c, cur + [b])
    {
      c := Transition(c0, b, cur, t, exact);
      marked := out[c];
      ReadAt(t, c0, c, cur, b);
      if exact {
        ReadExactly(t, c, cur, b);
      }
    }

    lemma ReadAt(t: Text, c0: nat, c: nat, cur: Text, b: byte)
      requires Sound(t) && b != 0 && At(t, c0, cur) && c <= smax && SuffixOf(word[c], cur + [b])
      requires First(word, c0) && word[c0] == cur && !NoArc(Nodes(), cur, b) ==> First(word, c) && word[c] == cur + [b]
      ensures if out[c] then EndsWithKey(t, cur + [b]) else At(t, c, cur + [b])
    {
      assert OutOk(t, word, c, out[c]);
      if out[c] {
        EndsLonger(t, word[c], cur + [b]);
      } else {
        if BeginsKey(t, cur + [b]) {
          ArcForKey(t, Nodes(), cur, b);
          Shorter(t, cur, b);
        }
        if BeginsWithKey(t, cur + [b]) {
          OnlyNow(t, cur, b);
        }
      }
    }

    lemma ReadExactly(t: Text, c: nat, cur: Text, b: byte)
      requires Decides(t) && c <= smax && b != 0 && word[c] == Delta(t, Run(t, cur), b) && Entry(c) && !Reported(t, cur)
      ensures if out[c] then Reported(t, cur + [b]) else AtExactly(t, c, cur + [b])
    {
      ReportedNow(t, cur, b);
      assert NodeExact(t, word, c, fail[c], out[c]);
    }

    /** The lines of the text that are reported: each holds a keyword, and each line that begins
        with one is among them.  In an exact tree they are those that Reported says. */
    method Scan(text: Text, ghost t: Text) returns (hits: seq<(nat, nat)>)
      requires Sound(t)
      ensures forall h :: h in hits ==> LineAt(text, h.0, h.1) && HoldsKey(t, text[h.0..h.1])
      ensures forall a: nat, e: nat :: LineAt(text, a, e) && BeginsWithKey(t, text[a..e]) ==> (a, e) in hits
      ensures Decides(t) ==>
        forall a: nat, e: nat :: LineAt(text, a, e) ==> ((a, e) in hits <==> Reported(t, text[a..e]))
    {
      var p: nat, nlp: nat, c: nat := 0, 0, 0;
      ghost var cur: Text, exact := [], Decides(t);
      hits := [];
      LineBegins(t, text, hits, p, exact);
      while p < |text|
        invariant Sound(t) && (exact ==> Decides(t)) && Scanning(t, text, hits, p, nlp, c, cur, exact)
        decreases |text| - p
      {
        p, nlp, c, cur, hits := ScanByte(text, p, nlp, c, hits, t, cur, exact);
      }
      if p == |text| {
        PassedLine(t, text, hits, nlp, p, exact);
      }
    }

    /** Within a line, or past the end of the text. */
    ghost predicate Scanning(t: Text, text: Text, hits: seq<(nat, nat)>, p: nat, nlp: nat, c: nat, cur: Text, exact: bool)
      requires Shape()
      reads this
    {
      && nlp <= p <= |text| + 1 && Hits(t, text, hits, nlp, exact)
      && if p > |text| then nlp == p
         else cur == text[nlp..p] && LineFrom(text, nlp, p) && At(t, c, cur) && (exact ==> AtExactly(t, c, cur))
    }

    lemma LineBegins(t: Text, text: Text, hits: seq<(nat, nat)>, p: nat, exact: bool)
      requires Sound(t) && p <= |text| + 1 && Hits(t, text, hits, p, exact) && (p <= |text| ==> LineFrom(text, p, p))
      ensures Scanning(t, text, hits, p, p, 0, [], exact)
    {
      NothingYet(t);
    }

    /** One character, and what follows from it for the line. */
    method ScanByte(text: Text, p0: nat, nlp0: nat, c0: nat, hits0: seq<(nat, nat)>, ghost t: Text, ghost cur0: Text, ghost exact: bool)
      returns (p: nat, nlp: nat, c: nat, ghost cur: Text, hits: seq<(nat, nat)>)
      requires Sound(t) && (exact ==> Decides(t)) && p0 < |text| && Scanning(t, text, hits0, p0, nlp0, c0, cur0, exact)
      ensures p > p0 && Scanning(t, text, hits, p, nlp, c, cur, exact)
    {
      var marked;
      OneMore(text, nlp0, p0);
      c, marked := Read1(c0, text[p0], cur0, t, exact);
      p, nlp, cur, hits := p0 + 1, nlp0, cur0 + [text[p0]], hits0;
      if marked || text[p0] == NEWLINE {
        p, hits := LineDone(text, nlp0, p0, marked, hits0, t, cur0, exact);
        nlp, c, cur := p, 0, [];
        LineBegins(t, text, hits, p, exact);
      }
    }

    /** What follows for the line from a character that is marked or ends it. */
    method LineDone(text: Text, nlp: nat, p0: nat, marked: bool, hits0: seq<(nat, nat)>, ghost t: Text, ghost cur: Text, ghost exact: bool)
      returns (p: nat, hits: seq<(nat, nat)>)
      requires p0 < |text| && LineFrom(text, nlp, p0) && text[p0] != 0 && (marked || text[p0] == NEWLINE)
      requires cur == text[nlp..p0] && text[nlp..p0 + 1] == cur + [text[p0]] && Hits(t, text, hits0, nlp, exact)
      requires !BeginsWithKey(t, cur) && (marked ==> EndsWithKey(t, cur + [text[p0]]))
      requires exact ==> !Keyword(t, []) && !Reported(t, cur) && (marked ==> Reported(t, cur + [text[p0]]))
      ensures p0 < p <= |text| + 1 && Hits(t, text, hits, p, exact) && (p <= |text| ==> LineFrom(text, p, p))
    {
      if marked {
        p, hits := Report(text, nlp, p0, hits0, t, cur, exact);
      } else {
        PassedLine(t, text, hits0, nlp, p0, exact);
        p, hits := p0 + 1, hits0;
      }
    }

    /** Notes the line and passes over the rest of it; past the end if no newline ends it. */
    method Report(text: Text, nlp: nat, p: nat, hits: seq<(nat, nat)>, ghost t: Text, ghost cur: Text, ghost exact: bool)
      returns (p': nat, hits': seq<(nat, nat)>)
      requires p < |text| && LineFrom(text, nlp, p) && text[p] != 0 && EndsWithKey(t, cur + [text[p]])
      requires text[nlp..p + 1] == cur + [text[p]] && Hits(t, text, hits, nlp, exact)
      requires exact ==> !Keyword(t, []) && Reported(t, cur + [text[p]]) && !Reported(t, cur)
      ensures p < p' <= |text| + 1 && Hits(t, text, hits', p', exact) && (p' <= |text| ==> LineFrom(text, p', p'))
    {
      var e := LineEnd(text, p);
      MarkedLine(t, text, nlp, p, e, cur + [text[p]]);
      if exact {
        ReportedLine(t, text, nlp, p, e, cur);
      }
      HitLine(t, text, hits, nlp, e, exact);
      hits' := hits + [(nlp, e)];
      p' := e + 1;
    }
  }

  /** A line begins at a and goes on at least to p. */
  predicate LineFrom(text: Text, a: nat, p: nat) {
    a <= p <= |text| && (a == 0 || text[a - 1] == NEWLINE) && NEWLINE !in text[a..p]
  }

  predicate LineAt(text: Text, a: nat, e: nat) {
    LineFrom(text, a, e) && (e == |text| || text[e] == NEWLINE)
  }

  /** What is reported when the lines before nlp are done. */
  ghost predicate Hits(t: Text, text: Text, hits: seq<(nat, nat)>, nlp: nat, exact: bool) {
    && (forall h :: h in hits ==> LineAt(text, h.0, h.1) && HoldsKey(t, text[h.0..h.1]) && h.1 < nlp)
    && (forall a: nat, e: nat :: LineAt(text, a, e) && e < nlp && BeginsWithKey(t, text[a..e]) ==> (a, e) in hits)
    && (exact ==> forall a: nat, e: nat :: LineAt(text, a, e) && e < nlp && Reported(t, text[a..e]) ==> (a, e) in hits)
    && (exact ==> forall h :: h in hits ==> Reported(t, text[h.0..h.1]))
  }

  /** The only line from nlp to e or beyond that ends before e + 1 is the one at nlp. */
  lemma OneLine(text: Text, nlp: nat, e: nat, a: nat, e': nat)
    requires LineAt(text, nlp, e) && LineAt(text, a, e') && nlp <= e' <= e
    ensures a == nlp && e' == e
  {
    if e' < e {
      Inside(text, nlp, e, e');
    } else if a < nlp {
      Inside(text, a, e', nlp - 1);
    } else if a > nlp {
      Inside(text, nlp, e, a - 1);
    }
  }

  lemma Inside(text: Text, a: nat, e: nat, k: int)
    requires a <= k < e <= |text| && NEWLINE !in text[a..e]
    ensures text[k] != NEWLINE
  {
    assert text[a..e][k - a] == text[k];
  }

  lemma HitLine(t: Text, text: Text, hits: seq<(nat, nat)>, nlp: nat, e: nat, exact: bool)
    requires Hits(t, text, hits, nlp, exact) && LineAt(text, nlp, e) && HoldsKey(t, text[nlp..e])
    requires exact ==> Reported(t, text[nlp..e])
    ensures Hits(t, text, hits + [(nlp, e)], e + 1, exact)
  {
    LaterLine(text, nlp, e);
  }

  lemma PassedLine(t: Text, text: Text, hits: seq<(nat, nat)>, nlp: nat, e: nat, exact: bool)
    requires Hits(t, text, hits, nlp, exact) && LineAt(text, nlp, e) && !BeginsWithKey(t, text[nlp..e])
    requires exact ==> !Reported(t, text[nlp..e])
    ensures Hits(t, text, hits, e + 1, exact)
  {
    LaterLine(text, nlp, e);
  }

  lemma LaterLine(text: Text, nlp: nat, e: nat)
    requires LineAt(text, nlp, e)
    ensures forall a: nat, e': nat :: LineAt(text, a, e') && nlp <= e' < e + 1 ==> a == nlp && e' == e
  {
    forall a: nat, e': nat | LineAt(text, a, e') && nlp <= e' < e + 1
      ensures a == nlp && e' == e
    {
      OneLine(text, nlp, e, a, e');
    }
  }

  /** A line whose beginning is reported is reported. */
  lemma ReportedLine(t: Text, text: Text, nlp: nat, p: nat, e: nat, cur: Text)
    requires nlp <= p <= e <= |text| && p < |text| && text[p] != 0 && text[nlp..p + 1] == cur + [text[p]]
    requires (e == |text| || text[e] == NEWLINE) && !Keyword(t, [])
    requires Reported(t, cur + [text[p]]) && !Reported(t, cur)
    ensures Reported(t, text[nlp..e])
  {
    if text[p] == NEWLINE {
      ReportedNow(t, cur, text[p]);
      NewlineFails(t, Run(t, cur));
    }
    assert p < e;
    assert cur + [text[p]] == text[nlp..e][..p + 1 - nlp];
    AlarmedMore(Alarm(t), cur + [text[p]], text[nlp..e]);
  }

  /** The end of the line that p is in. */
  method LineEnd(text: Text, p: nat) returns (e: nat)
    requires p < |text|
    ensures p <= e <= |text| && NEWLINE !in text[p..e] && (e == |text| || text[e] == NEWLINE)
  {
    e := p;
    while e < |text| && text[e] != NEWLINE
      invariant p <= e <= |text| && NEWLINE !in text[p..e]
    {
      assert text[p..e + 1] == text[p..e] + [text[e]];
      e := e + 1;
    }
  }

  /** A keyword that ends what was read up to p is in the line. */
  lemma MarkedLine(t: Text, text: Text, nlp: nat, p: nat, e: nat, cur: Text)
    requires LineFrom(text, nlp, p) && p < |text| && p <= e <= |text| && cur == text[nlp..p + 1]
    requires NEWLINE !in text[p..e] && (e == |text| || text[e] == NEWLINE) && EndsWithKey(t, cur)
    ensures LineAt(text, nlp, e) && HoldsKey(t, text[nlp..e])
  {
    assert text[nlp..e] == text[nlp..p] + text[p..e];
    var key: Text :| Keyword(t, key) && SuffixOf(key, cur);
    KeysAreLines(t, key);
    KeyInLine(key, text, nlp, p, e, cur);
  }

  lemma KeyInLine(key: Text, text: Text, nlp: nat, p: nat, e: nat, cur: Text)
    requires nlp <= p <= e <= |text| && p < |text| && cur == text[nlp..p + 1] && SuffixOf(key, cur)
    requires NEWLINE !in key && (e == |text| || text[e] == NEWLINE)
    ensures Occurs(key, text[nlp..e])
  {
    var line := text[nlp..e];
    if key == [] {
      assert line[0..0] == key;
    } else {
      assert key[|key| - 1] == cur[|cur| - 1] == text[p];
      assert cur <= line;
      OccursBefore(key, cur, line);
    }
  }

  lemma OneMore(text: Text, nlp: nat, p: nat)
    requires nlp <= p < |text|
    ensures text[p] != 0 && text[nlp..p + 1] == text[nlp..p] + [text[p]]
  {
    assert text[p] in text;
  }

  lemma NothingYet(t: Text)
    ensures !BeginsWithKey(t, [])
  {
  }

  lemma OnlyNow(t: Text, cur: Text, b: byte)
    requires b != 0 && !BeginsWithKey(t, cur) && BeginsWithKey(t, cur + [b])
    ensures Keyword(t, cur + [b]) && BeginsKey(t, cur + [b])
  {
    var key: Text :| key != [] && Keyword(t, key) && key <= cur + [b];
    assert |key| <= |cur| ==> key <= cur;
    assert key == cur + [b];
  }
}
