/** fgrep: cfail as a run on values: the ring, the states listed so far, and the links and marks. */
module FailSearch {
  import opened Common
  import opened Keywords
  import opened KeywordTree
  import opened Automaton
  import opened Breadth
  import opened Ring
  import opened FailLinks

  /** q is the ring and one slot more, of which the first `full` have been used; fs and os are the
      links and marks; ws are the states listed, of which f have been taken up. */
  datatype Search = Search(q: seq<int>, front: nat, rear: nat, full: nat, fs: seq<int>, os: seq<bool>,
                           course: Course, ws: seq<Text>, f: nat)

  /** Links lead to proper suffixes, marked states end with a keyword, and those of keywords are marked. */
  ghost predicate Good(t: Text, tree: Tree, fs: seq<int>, os: seq<bool>) {
    && Ok(tree) && |tree.word| <= |fs| && |tree.word| <= |os|
    && (forall n :: 0 <= n < |tree.word| ==> FailOk(tree.word, n, fs[n]))
    && (forall n :: 0 <= n < |tree.word| ==> OutOk(t, tree.word, n, os[n]))
    && (forall w: Text :: Keyword(t, w) ==> HasNode(tree.word, w))
  }

  /** Every node belongs to a state, which spells a beginning of a keyword. */
  ghost predicate AllStates(t: Text, tree: Tree) {
    forall n :: 0 <= n < |tree.word| ==> State(t, tree.word[n])
  }

  /** The slots that hold states other than the first one.  The ring has QSIZE slots; when rear is
      moved on from its last slot while the ring is empty, the next state is written one place
      past the end, and is not taken out again.  The one slot more stands for that place. */
  ghost predicate Queued(tree: Tree, q: seq<int>, full: nat) {
    |q| == QSIZE + 1 && full <= |q| && forall j :: 0 <= j < full ==> 0 <= q[j] < |tree.word| && tree.word[q[j]] != []
  }

  /** front and rear as positions in the ring, of which the first `full` slots have been used. */
  predicate InRing(front: nat, rear: nat, full: nat) {
    front < QSIZE && rear <= QSIZE && rear <= full && (front > rear ==> full >= QSIZE) && (front == rear || front < full)
  }

  /** An arc of the state w, node s or a later one, leads on. */
  ghost predicate BranchesFrom(tree: Tree, w: Text, s: nat) {
    Sized(tree) && exists n :: s <= n < |tree.word| && tree.word[n] == w && tree.inp[n] != 0
  }

  ghost predicate Branches(tree: Tree, x: int) {
    0 <= x < |tree.word| && First(tree.word, x) && BranchesFrom(tree, tree.word[x], x)
  }

  /** While the ring is in order: so many states have been listed and taken up, those listed are done,
      and the arcs of w are followed up to s. */
  ghost predicate Sorted(t: Text, tree: Tree, st: Search, w: Text, s: nat) {
    && AllStates(t, tree) && AllSettled(t, tree.word, st.ws, st.fs, st.os)
    && Walk(tree, st.ws, st.f, w, s) && Slots(tree.word, st.q, st.ws) && Places(st.front, st.rear, st.f, |st.ws|)
  }

  /** The states listed say whether rear has left the ring. */
  ghost predicate Counted(tree: Tree, st: Search) {
    Listing(tree, st.ws) && (st.course.Orderly? <==> !Strays(st.ws))
  }

  ghost predicate InPlay(t: Text, tree: Tree, st: Search, w: Text, s: nat) {
    && Good(t, tree, st.fs, st.os) && Counted(tree, st)
    && Queued(tree, st.q, st.full) && InRing(st.front, st.rear, st.full)
    && (st.course.Orderly? ==> Sorted(t, tree, st, w, s))
    && (st.course.Adrift? ==> st.rear == QSIZE && Branches(tree, st.q[QSIZE - 2]))
  }

  /** The ring has been found to be full. */
  ghost predicate GivenUp(t: Text, tree: Tree, st: Search) {
    && Good(t, tree, st.fs, st.os) && Counted(tree, st)
    && !st.course.Adrift? && (st.course.Orderly? ==> Crowded(st.ws))
  }

  /** How many passes it takes until the state in the last slot but one is taken up again. */
  function ToLastButOne(front: nat): nat {
    if front < QSIZE - 1 then QSIZE - 1 - front else QSIZE
  }

  predicate Soon(tree: Tree, st: Search) {
    st.f + ToLastButOne(st.front) < |tree.word| + QSIZE
  }

  /** Between two passes. */
  ghost predicate Turning(t: Text, tree: Tree, st: Search, w: Text) {
    InPlay(t, tree, st, w, |tree.word|) && (st.course.Adrift? ==> Soon(tree, st))
  }

  /** In a pass over the arcs of w, before arc s. */
  ghost predicate Passing(t: Text, tree: Tree, st: Search, w: Text, s: nat) {
    && InPlay(t, tree, st, w, s) && s < |tree.word| && tree.word[s] == w != [] && st.f > 0
    && (st.course.Adrift? ==> BranchesFrom(tree, w, s) || Soon(tree, st))
  }

  /** After arc s. */
  ghost predicate Taken(t: Text, tree: Tree, st: Search, w: Text, s: nat) {
    && InPlay(t, tree, st, w, s + 1) && s < |tree.word| && tree.word[s] == w != [] && st.f > 0
    && (st.course.Adrift? ==> Soon(tree, st))
  }

  // ---- A state is taken up ----

  function Popped(st: Search): Search {
    st.(front := if st.front == QSIZE - 1 then 0 else st.front + 1, f := st.f + 1)
  }

  lemma PopKeeps(t: Text, tree: Tree, st: Search, w: Text)
    requires Turning(t, tree, st, w) && st.front != st.rear
    ensures 0 <= st.q[st.front] < |tree.word|
    ensures Passing(t, tree, Popped(st), tree.word[st.q[st.front]], st.q[st.front])
  {
    if st.course.Orderly? {
      PopOrderly(t, tree, st, w);
    }
  }

  lemma PopOrderly(t: Text, tree: Tree, st: Search, w: Text)
    requires Ok(tree) && Sorted(t, tree, st, w, |tree.word|) && st.front != st.rear
    ensures 0 <= st.q[st.front] < |tree.word|
    ensures Sorted(t, tree, Popped(st), tree.word[st.q[st.front]], st.q[st.front])
  {
    assert InSlot(tree.word, st.q, st.ws, st.f);
    FrontMoves(st.front, st.rear, st.f, |st.ws|);
    WalkDown(tree, st.ws, st.f, w, st.q[st.front]);
  }

  // ---- A state is stored ----

  /** *rear = s->nst, and rear is moved on, unless the ring is found to be full. */
  function Pushed(tree: Tree, st: Search, s: nat): (Search, bool)
    requires Sized(tree) && s < |tree.word| && tree.inp[s] != 0 && st.rear < |st.q|
  {
    var next := NextRear(st.front, st.rear);
    (st.(q := st.q[st.rear := tree.nst[s]],
         rear := next.0,
         full := if st.rear == st.full then st.full + 1 else st.full,
         course := if st.course.Over? || st.rear == QSIZE then Over else if next.0 == QSIZE then Adrift else Orderly,
         ws := if st.course.Orderly? then st.ws + [Below(tree, s)] else st.ws),
     next.1)
  }

  /** What holds between storing a state and giving it its link. */
  ghost predicate Stored(t: Text, tree: Tree, st: Search, ws: seq<Text>, w: Text, s: nat) {
    && Good(t, tree, st.fs, st.os) && Counted(tree, st)
    && Queued(tree, st.q, st.full) && InRing(st.front, st.rear, st.full)
    && (st.course.Orderly? ==> Sorted(t, tree, st.(ws := ws), w, s))
  }

  lemma ArcNode(tree: Tree, s: nat)
    requires Ok(tree) && s < |tree.word| && tree.inp[s] != 0
    ensures NodeFor(tree.word, tree.nst[s], Below(tree, s)) && Below(tree, s) != []
  {
    assert ArcOk(tree, s);
  }

  lemma PushQueued(tree: Tree, st: Search, s: nat)
    requires Ok(tree) && s < |tree.word| && tree.inp[s] != 0 && Queued(tree, st.q, st.full) && InRing(st.front, st.rear, st.full)
    ensures var (st', ok) := Pushed(tree, st, s);
      ok ==> Queued(tree, st'.q, st'.full) && InRing(st'.front, st'.rear, st'.full)
  {
    ArcNode(tree, s);
  }

  /** While the ring is in order. */
  lemma PushOrderly(t: Text, tree: Tree, st: Search, w: Text, s: nat)
    requires Good(t, tree, st.fs, st.os) && Counted(tree, st) && st.course.Orderly? && Sorted(t, tree, st, w, s)
    requires InRing(st.front, st.rear, st.full) && s < |tree.word| && tree.word[s] == w && tree.inp[s] != 0
    ensures var (st', ok) := Pushed(tree, st, s);
      && Counted(tree, st')
      && (!ok ==> st'.course.Orderly? && Crowded(st'.ws))
      && (ok && st'.course.Orderly? ==>
            Walk(tree, st'.ws, st.f, w, s + 1) && Slots(tree.word, st'.q, st'.ws) && Places(st.front, st'.rear, st.f, |st'.ws|))
      && (ok && !st'.course.Orderly? ==> st'.course.Adrift? && Leaves(st'.ws, st.front, st'.rear, w) && Slots(tree.word, st'.q, st'.ws))
  {
    ArcNode(tree, s);
    Enters(tree, st.q, st.ws, st.front, st.rear, st.f, w, s, tree.nst[s]);
  }

  /** When rear leaves the ring, the state in the last slot but one is the one just taken up. */
  lemma LeavingBranches(tree: Tree, q: seq<int>, ws: seq<Text>, front: nat, rear: nat, w: Text, s: nat)
    requires Ok(tree) && Slots(tree.word, q, ws) && Leaves(ws, front, rear, w)
    requires s < |tree.word| && tree.word[s] == w && tree.inp[s] != 0
    ensures Branches(tree, q[QSIZE - 2])
  {
    assert InSlot(tree.word, q, ws, |ws| - 2);
    assert (|ws| - 2) % QSIZE == QSIZE - 2;
  }

  /** The links and marks once the state has its link. */
  ghost predicate Relink(t: Text, tree: Tree, st: Search, fs: seq<int>, os: seq<bool>) {
    Good(t, tree, fs, os) && (st.course.Orderly? ==> AllSettled(t, tree.word, st.ws, fs, os))
  }

  lemma PushKeeps(t: Text, tree: Tree, st: Search, w: Text, s: nat, fs: seq<int>, os: seq<bool>)
    requires Passing(t, tree, st, w, s) && tree.inp[s] != 0
    requires Pushed(tree, st, s).1 && Relink(t, tree, Pushed(tree, st, s).0, fs, os)
    ensures Taken(t, tree, Pushed(tree, st, s).0.(fs := fs, os := os), w, s)
  {
    var (st', ok) := Pushed(tree, st, s);
    PushQueued(tree, st, s);
    if st.course.Orderly? {
      PushOrderly(t, tree, st, w, s);
      FewStates(tree, st'.ws);
      if st'.course.Adrift? {
        LeavingBranches(tree, st'.q, st'.ws, st.front, st'.rear, w, s);
      }
    }
  }

  lemma PushEnds(t: Text, tree: Tree, st: Search, w: Text, s: nat)
    requires Passing(t, tree, st, w, s) && tree.inp[s] != 0 && !Pushed(tree, st, s).1
    ensures GivenUp(t, tree, Pushed(tree, st, s).0)
  {
    if st.course.Orderly? {
      PushOrderly(t, tree, st, w, s);
    }
  }

  /** An arc for nothing is passed over. */
  lemma SkipKeeps(t: Text, tree: Tree, st: Search, w: Text, s: nat)
    requires Passing(t, tree, st, w, s) && tree.inp[s] == 0
    ensures Taken(t, tree, st, w, s)
  {
    NoBranch(tree, s);
    if st.course.Orderly? {
      WalkPast(tree, st.ws, st.f, w, s, s + 1);
    }
  }

  /** An arc for nothing is the last one of its state. */
  lemma NoBranch(tree: Tree, s: nat)
    requires Ok(tree) && s < |tree.word| && tree.inp[s] == 0
    ensures !BranchesFrom(tree, tree.word[s], s)
  {
    assert LinkOk(tree, s);
  }

  // ---- On to the next arc ----

  lemma NextKeeps(t: Text, tree: Tree, st: Search, w: Text, s: nat)
    requires Taken(t, tree, st, w, s)
    ensures if tree.link[s] == NULL then Turning(t, tree, st, w) else s < tree.link[s] && Passing(t, tree, st, w, tree.link[s])
  {
    assert LinkOk(tree, s);
    if st.course.Orderly? {
      WalkPast(tree, st.ws, st.f, w, s + 1, if tree.link[s] == NULL then |tree.word| else tree.link[s]);
    }
  }

  // ---- The states below the first one ----

  /** Before arc s of the first state; rear has not come to the last slot. */
  ghost predicate Beginning(t: Text, tree: Tree, st: Search, s: nat) {
    && InPlay(t, tree, st, [], s) && st.course.Orderly? && st.f == 0 && st.front == 0
    && st.rear == |st.ws| == st.full < QSIZE - 1
  }

  lemma Begins(t: Text, tree: Tree, st: Search)
    requires Good(t, tree, st.fs, st.os) && AllStates(t, tree) && AllSettled(t, tree.word, [], st.fs, st.os)
    requires |st.q| == QSIZE + 1 && st == Search(st.q, 0, 0, 0, st.fs, st.os, Orderly, [], 0)
    ensures Beginning(t, tree, st, 0)
  {
    WalkBegins(tree);
  }

  lemma FirstKeeps(t: Text, tree: Tree, st: Search, s: nat)
    requires Beginning(t, tree, st, s) && s < |tree.word| && tree.word[s] == [] && tree.inp[s] != 0
    ensures var st' := Pushed(tree, st, s).0;
      if st'.rear < QSIZE - 1 then Beginning(t, tree, st', s + 1) else GivenUp(t, tree, st')
  {
    var (st', ok) := Pushed(tree, st, s);
    PushQueued(tree, st, s);
    PushOrderly(t, tree, st, [], s);
    AllUnlinked(t, tree.word, st.ws, Below(tree, s), st.fs, st.os);
    assert !Strays(st'.ws) by {
      StraysNow(tree, st.ws, 0, [], s);
    }
    if st'.rear >= QSIZE - 1 {
      FullIsCrowded(tree, st'.ws, 0, [], s + 1, st'.ws);
    }
  }

  lemma FirstSkips(t: Text, tree: Tree, st: Search, s: nat)
    requires Beginning(t, tree, st, s) && s < |tree.word| && tree.word[s] == [] && tree.inp[s] == 0
    ensures Beginning(t, tree, st, s + 1)
  {
    WalkPast(tree, st.ws, 0, [], s, s + 1);
  }

  lemma FirstNext(t: Text, tree: Tree, st: Search, s: nat)
    requires Beginning(t, tree, st, s + 1) && s < |tree.word| && tree.word[s] == []
    ensures if tree.link[s] == NULL then Turning(t, tree, st, [])
            else s < tree.link[s] < |tree.word| && tree.word[tree.link[s]] == [] && Beginning(t, tree, st, tree.link[s])
  {
    assert LinkOk(tree, s);
    WalkPast(tree, st.ws, 0, [], s + 1, if tree.link[s] == NULL then |tree.word| else tree.link[s]);
  }

  // ---- The end ----

  /** After st.f passes. */
  lemma SearchEnds(t: Text, tree: Tree, st: Search, ok: bool, w: Text)
    requires if ok then Turning(t, tree, st, w) else GivenUp(t, tree, st)
    ensures Good(t, tree, st.fs, st.os) && Counted(tree, st)
    ensures ok && st.course.Orderly? ==> st.f < |tree.word|
    ensures ok && st.course.Adrift? ==> st.f < |tree.word| + QSIZE && st.front != st.rear
    ensures !ok ==> !st.course.Adrift? && (st.course.Orderly? ==> Crowded(st.ws))
    ensures |tree.word| < QSIZE - 1 ==> ok && st.course.Orderly?
  {
    FewStates(tree, st.ws);
  }

  // ---- A state is given its link ----

  /** The state of node s is done, and so are all that are no longer; that of its arc is not. */
  ghost predicate Ready(t: Text, tree: Tree, st: Search, s: nat) {
    AllStates(t, tree) && AllSettled(t, tree.word, st.ws, st.fs, st.os) && Ripe(tree, st.ws, s)
  }

  lemma PassingReady(t: Text, tree: Tree, st: Search, w: Text, s: nat)
    requires Passing(t, tree, st, w, s) && tree.inp[s] != 0 && st.course.Orderly?
    ensures Ready(t, tree, st, s)
  {
    WalkRipe(tree, st.ws, st.f, s);
  }

  /** A state goes on with a character exactly if it has an arc for it. */
  lemma ArcIsState(t: Text, tree: Tree, v: Text, c: byte)
    requires Ok(tree) && AllStates(t, tree) && c != 0 && forall w: Text :: Keyword(t, w) ==> HasNode(tree.word, w)
    ensures State(t, v + [c]) <==> !NoArc(tree, v, c)
  {
    if State(t, v + [c]) {
      ArcForKey(t, tree, v, c);
    }
    if !NoArc(tree, v, c) {
      var m :| 0 <= m < |tree.word| && tree.word[m] == v && tree.inp[m] == c;
      assert ArcOk(tree, m);
      assert State(t, tree.word[tree.nst[m]]);
    }
  }

  /** A word that begins a keyword has a state, and the state before it an arc. */
  lemma ArcForKey(t: Text, tree: Tree, cur: Text, b: byte)
    requires Ok(tree) && b != 0 && BeginsKey(t, cur + [b]) && forall w: Text :: Keyword(t, w) ==> HasNode(tree.word, w)
    ensures !NoArc(tree, cur, b)
  {
    var key: Text :| Keyword(t, key) && cur + [b] <= key;
    assert HasNode(tree.word, key);
    var n :| 0 <= n < |tree.word| && tree.word[n] == key;
    PrefixHasNode(tree, n, cur + [b]);
    if NoArc(tree, cur, b) {
      NoSuchState(tree, cur, b);
    }
  }

  /** The state to fall back to is that of the link. */
  lemma FallsTo(t: Text, tree: Tree, st: Search, s: nat)
    requires Good(t, tree, st.fs, st.os) && s < |tree.word| && tree.inp[s] != 0 && tree.word[s] != [] && Ready(t, tree, st, s)
    ensures LinkIs(tree.word, Fall(t, tree.word[s]), st.fs[s])
    ensures var v := Fall(t, tree.word[s]); Fall(t, Below(tree, s)) == if NoArc(tree, v, tree.inp[s]) then [] else v + [tree.inp[s]]
  {
    assert NodeSettled(t, tree.word, st.ws, s, st.fs[s], st.os[s]);
    FallNext(t, tree.word[s], tree.inp[s]);
    ArcIsState(t, tree, Fall(t, tree.word[s]), tree.inp[s]);
  }

  /** Where the search for an arc begins. */
  function Start(f: int): int {
    if f == NULL then 0 else f
  }

  /** There is no arc for the character: nothing is changed. */
  lemma NoLink(t: Text, tree: Tree, st: Search, s: nat)
    requires Good(t, tree, st.fs, st.os) && s < |tree.word| && tree.inp[s] != 0 && tree.word[s] != [] && Ready(t, tree, st, s)
    requires NodeFor(tree.word, Start(st.fs[s]), tree.word[Start(st.fs[s])]) ==> NoArc(tree, tree.word[Start(st.fs[s])], tree.inp[s])
    requires 0 <= Start(st.fs[s]) < |tree.word|
    ensures AllSettled(t, tree.word, st.ws + [Below(tree, s)], st.fs, st.os)
  {
    FallsTo(t, tree, st, s);
    AllUnlinked(t, tree.word, st.ws, Below(tree, s), st.fs, st.os);
  }

  /** Arc g0 is found, and the state that s leads to gets a link to where g0 leads. */
  lemma GoodRelinked(t: Text, tree: Tree, fs: seq<int>, os: seq<bool>, fs': seq<int>, os': seq<bool>, s: nat, g0: nat)
    requires Good(t, tree, fs, os) && s < |tree.word| && g0 < |tree.word| && tree.inp[s] == tree.inp[g0] != 0
    requires |tree.word[g0]| < |tree.word[s]| && SuffixOf(tree.word[g0], tree.word[s])
    requires tree.nst[g0] >= 0 && Relinked(tree.word, fs, os, fs', os', Below(tree, s), tree.nst[g0], |tree.word|)
    ensures Good(t, tree, fs', os')
  {
    var w, g := Below(tree, s), tree.nst[g0];
    ArcNode(tree, g0);
    SuffixGrows(tree.word[g0], tree.word[s], tree.inp[s]);
    assert OutOk(t, tree.word, g, os[g]);
    forall n | 0 <= n < |tree.word|
      ensures FailOk(tree.word, n, fs'[n]) && OutOk(t, tree.word, n, os'[n])
    {
      assert NodeRelinked(tree.word, fs, os, fs', os', w, g, |tree.word|, n);
      assert OutOk(t, tree.word, n, os[n]) && FailOk(tree.word, n, fs[n]);
      if os[g] && tree.word[n] == w {
        EndsLonger(t, tree.word[g], w);
      }
    }
  }

  lemma LinkSettled(t: Text, tree: Tree, st: Search, fs': seq<int>, os': seq<bool>, s: nat, g0: nat)
    requires Good(t, tree, st.fs, st.os) && s < |tree.word| && g0 < |tree.word| && tree.inp[s] == tree.inp[g0] != 0
    requires tree.word[s] != [] && Ready(t, tree, st, s) && tree.word[g0] == Fall(t, tree.word[s])
    requires tree.nst[g0] >= 0 && Relinked(tree.word, st.fs, st.os, fs', os', Below(tree, s), tree.nst[g0], |tree.word|)
    ensures AllSettled(t, tree.word, st.ws + [Below(tree, s)], fs', os')
  {
    var g := tree.nst[g0];
    ArcNode(tree, g0);
    FallsTo(t, tree, st, s);
    assert |tree.word[g]| <= |tree.word[s]|;
    assert NodeSettled(t, tree.word, st.ws, g, st.fs[g], st.os[g]);
    AllLinked(t, tree.word, st.ws, Below(tree, s), g, st.fs, st.os, fs', os');
  }
}
