/** fgrep: the ring of states in cfail, and when its rear leaves it. */
module Ring {
  import opened Common
  import opened Keywords
  import opened KeywordTree
  import opened Automaton
  import opened Breadth

  const QSIZE := 400

  /** x is the first node of the state w. */
  ghost predicate NodeFor(word: seq<Text>, x: int, w: Text) {
    0 <= x < |word| && word[x] == w && First(word, x)
  }

  /** The last QSIZE states listed are in their slots. */
  ghost predicate Slots(word: seq<Text>, q: seq<int>, ws: seq<Text>) {
    |q| == QSIZE + 1 && forall k :: 0 <= k < |ws| && |ws| - QSIZE <= k ==> InSlot(word, q, ws, k)
  }

  ghost predicate InSlot(word: seq<Text>, q: seq<int>, ws: seq<Text>, k: nat)
    requires |q| == QSIZE + 1 && k < |ws|
  {
    NodeFor(word, q[k % QSIZE], ws[k])
  }

  lemma SlotsMore(word: seq<Text>, q: seq<int>, ws: seq<Text>, x: int, w: Text)
    requires Slots(word, q, ws) && NodeFor(word, x, w)
    ensures Slots(word, q[|ws| % QSIZE := x], ws + [w])
  {
    var q', ws' := q[|ws| % QSIZE := x], ws + [w];
    forall k | 0 <= k < |ws'| && |ws'| - QSIZE <= k
      ensures InSlot(word, q', ws', k)
    {
      if k < |ws| {
        assert InSlot(word, q, ws, k);
        OtherSlot(k, |ws|);
      }
    }
  }

  lemma OtherSlot(k: nat, r: nat)
    requires k < r < k + QSIZE
    ensures k % QSIZE != r % QSIZE
  {
  }

  /** Of r states listed, f have been taken up. */
  predicate Places(front: nat, rear: nat, f: nat, r: nat) {
    f <= r < f + QSIZE && front == f % QSIZE && rear == r % QSIZE
  }

  /** Where rear moves to, and whether the ring is found to be full. */
  function NextRear(front: nat, rear: nat): (nat, bool) {
    if front < rear then
      if rear >= QSIZE - 1 then if front == 0 then (rear, false) else (0, true)
      else (rear + 1, true)
    else (rear + 1, rear + 1 != front)
  }

  /** The ring is found to be full when it is.  Rear stays in the ring unless the ring was empty and
      rear was on its last slot. */
  lemma RearMoves(front: nat, rear: nat, f: nat, r: nat)
    requires Places(front, rear, f, r)
    ensures NextRear(front, rear).1 <==> r + 1 < f + QSIZE
    ensures var next := NextRear(front, rear);
      next.1 ==> next.0 == if f == r && r % QSIZE == QSIZE - 1 then QSIZE else (r + 1) % QSIZE
  {
  }

  lemma FrontMoves(front: nat, rear: nat, f: nat, r: nat)
    requires Places(front, rear, f, r) && f < r
    ensures Places(if front == QSIZE - 1 then 0 else front + 1, rear, f + 1, r) && front != rear
  {
  }

  // ---- When rear leaves the ring ----

  /** State k comes to stand in the last slot, and was alone when it entered the ring. */
  predicate Alone(ws: seq<Text>, k: nat)
    requires k < |ws|
  {
    0 < k && k % QSIZE == QSIZE - 1 && ws[k] != [] && Front(ws[k]) == ws[k - 1]
  }

  predicate Strays(ws: seq<Text>) {
    exists k: nat :: k < |ws| && Alone(ws, k)
  }

  lemma StraysLate(ws: seq<Text>)
    requires Strays(ws)
    ensures |ws| >= QSIZE
  {
  }

  /** Arc s is followed: rear leaves the ring just when the state it leads to is alone. */
  lemma StraysNow(t: Tree, ws: seq<Text>, front: nat, w: Text, s: nat)
    requires Ok(t) && Walk(t, ws, front, w, s) && !Strays(ws) && s < |t.word| && t.word[s] == w && t.inp[s] != 0
    ensures Strays(ws + [Below(t, s)]) <==> front == |ws| && |ws| % QSIZE == QSIZE - 1
  {
    var ws', n := ws + [Below(t, s)], |ws|;
    FrontOf(w, t.inp[s]);
    forall k: nat | k < n
      ensures !Alone(ws', k)
    {
      assert !Alone(ws, k);
    }
    if n > 0 {
      assert Listed(t, ws, n - 1);
      assert Alone(ws', n) <==> n % QSIZE == QSIZE - 1 && w == ws[n - 1];
      assert w == ws[n - 1] <==> front == n;
    }
  }

  /** All but one of as many states as the ring has slots, one after the other, differ in length by
      one at most. */
  predicate Crowded(ws: seq<Text>) {
    exists k: nat :: k + QSIZE - 1 <= |ws| && CrowdedAt(ws, k)
  }

  predicate CrowdedAt(ws: seq<Text>, k: nat)
    requires k + QSIZE - 1 <= |ws|
  {
    |ws[k + QSIZE - 2]| <= |ws[k]| + 1
  }

  /** The ring is full only then. */
  lemma FullIsCrowded(t: Tree, ws: seq<Text>, front: nat, w: Text, s: nat, more: seq<Text>)
    requires Walk(t, ws, front, w, s) && |ws| >= front + QSIZE - 1 && ws <= more
    ensures Crowded(more)
  {
    NotLonger(t, ws, front, w, s, front + QSIZE - 2);
    assert front > 0 ==> |ws[front - 1]| <= |ws[front]|;
    assert CrowdedAt(more, front);
  }

  /** Node x, for the state that arc s leads to, is stored at rear, and rear is moved on. */
  lemma Enters(t: Tree, q: seq<int>, ws: seq<Text>, front: nat, rear: nat, f: nat, w: Text, s: nat, x: int)
    requires Ok(t) && Walk(t, ws, f, w, s) && !Strays(ws) && Slots(t.word, q, ws) && Places(front, rear, f, |ws|)
    requires s < |t.word| && t.word[s] == w && t.inp[s] != 0 && NodeFor(t.word, x, Below(t, s))
    ensures var ws', next := ws + [Below(t, s)], NextRear(front, rear);
      && Walk(t, ws', f, w, s + 1) && Slots(t.word, q[rear := x], ws')
      && (!next.1 ==> Crowded(ws') && !Strays(ws') && next.0 < QSIZE)
      && (next.1 && !Strays(ws') ==> Places(front, next.0, f, |ws'|))
      && (next.1 && Strays(ws') ==> Leaves(ws', front, next.0, w))
  {
    WalkOn(t, ws, f, w, s);
    StraysNow(t, ws, f, w, s);
    SlotsMore(t.word, q, ws, x, Below(t, s));
    RearMoves(front, rear, f, |ws|);
    if !NextRear(front, rear).1 {
      FullIsCrowded(t, ws, f, w, s, ws + [Below(t, s)]);
    }
  }

  /** Rear has just left the ring, and w, the state before the last one listed, has just been taken up. */
  predicate Leaves(ws: seq<Text>, front: nat, rear: nat, w: Text) {
    rear == QSIZE && front == QSIZE - 1 && |ws| >= QSIZE && |ws| % QSIZE == 0 && ws[|ws| - 2] == w
  }

  /** Orderly: what the ring holds is what it should hold.  Adrift: rear stands past the last slot.
      Over: a state has been stored there. */
  datatype Course = Orderly | Adrift | Over
}
