/** Patterns as they are written, and the items they are read as. */
module WrittenItems {
  import opened Common
  import opened Patterns
  import opened Written

  /** The atom takes what the sign stands for. */
  ghost predicate AtomOk(tool: Tool, a: Atom, s: Sign) {
    forall b: byte :: b != 0 ==> (a.Takes(b) <==> Stands(tool, s, b))
  }

  ghost predicate ItemOk(tool: Tool, it: Item, p: Piece) {
    match p
    case Once(s) => it.One? && AtomOk(tool, it.atom, s)
    case Repeat(s) => it.Many? && AtomOk(tool, it.atom, s)
    case Begin => it.Open?
    case End => it.Close?
  }

  /** These are the items of the first k pieces. */
  ghost predicate Means(tool: Tool, body: seq<Item>, ps: seq<Piece>, k: nat) {
    |body| == k <= |ps| && forall t :: 0 <= t < k ==> ItemOk(tool, body[t], ps[t])
  }

  lemma MeansMore(tool: Tool, body: seq<Item>, ps: seq<Piece>, k: nat, it: Item)
    requires Means(tool, body, ps, k) && k < |ps| && ItemOk(tool, it, ps[k])
    ensures Means(tool, body + [it], ps, k + 1)
  {
  }

  /** The items denote what the pieces stand for. */
  lemma {:induction false} DenotesReads(tool: Tool, body: seq<Item>, ps: seq<Piece>, k: nat, w: Text)
    requires Means(tool, body, ps, |ps|) && k <= |ps|
    ensures Denotes(body[k..], w) <==> Reads(tool, ps, k, w)
    decreases |ps| - k
  {
    if k < |ps| {
      var next := k + 1;
      var it, rest := body[k], body[next..];
      assert body[k..][1..] == rest && ItemOk(tool, it, ps[k]);
      forall v: Text
        ensures Agree(tool, rest, ps, next, v)
      {
        DenotesReads(tool, body, ps, next, v);
      }
      FirstAgrees(tool, it, rest, body[k..], ps, k, next, w);
    }
  }

  ghost predicate Agree(tool: Tool, body: seq<Item>, ps: seq<Piece>, k: nat, w: Text)
    requires k <= |ps|
  {
    Denotes(body, w) <==> Reads(tool, ps, k, w)
  }

  lemma FirstAgrees(tool: Tool, it: Item, rest: seq<Item>, body: seq<Item>, ps: seq<Piece>, k: nat, next: nat, w: Text)
    requires k < |ps| && next == k + 1 && ItemOk(tool, it, ps[k]) && body != [] && body[0] == it && body[1..] == rest
    requires forall v: Text :: Agree(tool, rest, ps, next, v)
    ensures Agree(tool, body, ps, k, w)
  {
    assert w[0..] == w && Agree(tool, rest, ps, next, w);
    match ps[k] {
      case Once(s) =>
        DenotesOne(it.atom, body, w);
        if w != [] {
          assert w[0] in w && Agree(tool, rest, ps, next, w[1..]);
        }
      case Repeat(s) => RepeatAgrees(tool, it.atom, rest, body, ps, k, next, w);
      case _ => DenotesGroup(it, body, w);
    }
  }

  lemma RepeatAgrees(tool: Tool, a: Atom, rest: seq<Item>, body: seq<Item>, ps: seq<Piece>, k: nat, next: nat, w: Text)
    requires k < |ps| && next == k + 1 && ps[k].Repeat? && AtomOk(tool, a, ps[k].sign) && body != [] && body[0] == Many(a) && body[1..] == rest
    requires forall v: Text :: Agree(tool, rest, ps, next, v)
    ensures Agree(tool, body, ps, k, w)
  {
    if Denotes(body, w) {
      var n: nat :| n <= |w| && ItemDenotes(Many(a), w[..n]) && Denotes(rest, w[n..]);
      assert Agree(tool, rest, ps, next, w[n..]);
      RepeatAt(tool, a, rest, ps, k, w, w[..n], w[n..]);
    }
    if Reads(tool, ps, k, w) {
      var n: nat :| n <= |w| && AllStand(tool, ps[k].sign, w[..n]) && Reads(tool, ps, k + 1, w[n..]);
      assert Agree(tool, rest, ps, next, w[n..]);
      RepeatAt(tool, a, rest, ps, k, w, w[..n], w[n..]);
    }
  }

  lemma RepeatAt(tool: Tool, a: Atom, rest: seq<Item>, ps: seq<Piece>, k: nat, w: Text, u: Text, v: Text)
    requires k < |ps| && ps[k].Repeat? && AtomOk(tool, a, ps[k].sign) && Agree(tool, rest, ps, k + 1, v)
    ensures ItemDenotes(Many(a), u) && Denotes(rest, v) <==> AllStand(tool, ps[k].sign, u) && Reads(tool, ps, k + 1, v)
  {
    ManyStands(tool, a, ps[k].sign, u);
  }

  lemma ManyStands(tool: Tool, a: Atom, s: Sign, w: Text)
    requires AtomOk(tool, a, s)
    ensures ItemDenotes(Many(a), w) <==> AllStand(tool, s, w)
  {
    forall i | 0 <= i < |w|
      ensures a.Takes(w[i]) <==> Stands(tool, s, w[i])
    {
      assert w[i] in w;
    }
  }

  lemma DenotesOne(a: Atom, body: seq<Item>, w: Text)
    requires body != [] && body[0] == One(a)
    ensures Denotes(body, w) <==> w != [] && a.Takes(w[0]) && Denotes(body[1..], w[1..])
  {
    if w != [] && a.Takes(w[0]) && Denotes(body[1..], w[1..]) {
      assert ItemDenotes(body[0], w[..1]);
    }
  }

  lemma DenotesGroup(it: Item, body: seq<Item>, w: Text)
    requires body != [] && body[0] == it && (it.Open? || it.Close?)
    ensures Denotes(body, w) <==> Denotes(body[1..], w)
  {
    assert w[0..] == w;
    if Denotes(body[1..], w) {
      assert ItemDenotes(it, w[..0]);
    }
  }

  lemma {:induction false} MeansUnanchored(tool: Tool, body: seq<Item>, ps: seq<Piece>)
    requires Means(tool, body, ps, |ps|)
    ensures Unanchored(body)
  {
    assert forall t :: 0 <= t < |ps| ==> ItemOk(tool, body[t], ps[t]);
  }
}
