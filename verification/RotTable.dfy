/** The rotational table of the superblock: for each cylinder of the cycle and each rotational
    position, a chain through the blocks that lie there. */
module RotTable {
  import opened Common
  import opened CylCounts

  const NRPOS: nat := 8

  predicate Lies(sh: Shape, blk: nat, c: nat, r: nat) {
    sh.cyl(blk * sh.frag) == c && sh.rpos(blk * sh.frag) == r
  }

  /** The blocks from..n - 1 at the position, in increasing order. */
  function BlocksAt(sh: Shape, c: nat, r: nat, from: nat, n: nat): seq<nat>
    requires from <= n
    decreases n - from
  {
    if from == n then [] else (if Lies(sh, from, c, r) then [from] else []) + BlocksAt(sh, c, r, from + 1, n)
  }

  lemma {:induction false} BlocksAtExactly(sh: Shape, c: nat, r: nat, from: nat, n: nat)
    requires from <= n
    ensures forall blk: nat :: blk in BlocksAt(sh, c, r, from, n) <==> from <= blk < n && Lies(sh, blk, c, r)
    ensures forall i, j :: 0 <= i < j < |BlocksAt(sh, c, r, from, n)| ==>
      BlocksAt(sh, c, r, from, n)[i] < BlocksAt(sh, c, r, from, n)[j]
    decreases n - from
  {
    if from < n {
      BlocksAtExactly(sh, c, r, from + 1, n);
      var rest := BlocksAt(sh, c, r, from + 1, n);
      assert forall i :: 0 <= i < |rest| ==> rest[i] in rest;
    }
  }

  /** What following the table of offsets from blk visits; 0 ends a chain. */
  function Chain(offsets: seq<int>, blk: nat): seq<nat>
    decreases |offsets| - blk
  {
    if blk >= |offsets| then []
    else [blk] + if offsets[blk] <= 0 then [] else Chain(offsets, blk + offsets[blk])
  }

  /** A chain looks only at entries from its start on. */
  lemma {:induction false} ChainSame(offsets: seq<int>, offsets': seq<int>, blk: nat)
    requires |offsets| == |offsets'| && forall i :: blk <= i < |offsets| ==> offsets[i] == offsets'[i]
    ensures Chain(offsets, blk) == Chain(offsets', blk)
    decreases |offsets| - blk
  {
    if blk < |offsets| {
      var step := offsets[blk];
      assert step == offsets'[blk];
      if step > 0 {
        ChainSame(offsets, offsets', blk + step);
      }
    }
  }

  class RotTable {
    const postbl: array2<int>
    const rotbl: array<int>
    const shape: Shape

    constructor (cylinders: nat, blocks: nat, shape: Shape)
      ensures fresh(postbl) && fresh(rotbl) && this.shape == shape
      ensures postbl.Length0 == cylinders && postbl.Length1 == NRPOS && rotbl.Length == blocks
    {
      postbl := new int[cylinders, NRPOS];
      rotbl := new int[blocks];
      this.shape := shape;
    }

    /** Following the chain of a position visits exactly the blocks from `blk` on that lie there. */
    ghost predicate Heads(blk: nat)
      requires blk <= rotbl.Length
      reads this, postbl, rotbl
    {
      forall c: nat, r: nat {:trigger postbl[c, r]} :: c < postbl.Length0 && r < postbl.Length1 ==>
        Head(postbl[c, r], rotbl[..], c, r, blk)
    }

    ghost predicate Head(head: int, offsets: seq<int>, c: nat, r: nat, blk: nat)
      requires blk <= |offsets|
    {
      var there := BlocksAt(shape, c, r, blk, |offsets|);
      if head == -1 then there == [] else 0 <= head < |offsets| && blk <= head && Chain(offsets, head) == there
    }

    method Empty()
      modifies postbl
      ensures forall c, r :: 0 <= c < postbl.Length0 && 0 <= r < postbl.Length1 ==> postbl[c, r] == -1
    {
      var cylno := 0;
      while cylno < postbl.Length0
        invariant 0 <= cylno <= postbl.Length0
        invariant forall c, r :: 0 <= c < cylno && 0 <= r < postbl.Length1 ==> postbl[c, r] == -1
      {
        var rpos := 0;
        while rpos < postbl.Length1
          invariant 0 <= rpos <= postbl.Length1
          invariant forall c, r :: 0 <= c < cylno && 0 <= r < postbl.Length1 ==> postbl[c, r] == -1
          invariant forall r :: 0 <= r < rpos ==> postbl[cylno, r] == -1
        {
          postbl[cylno, rpos] := -1;
          rpos := rpos + 1;
        }
        cylno := cylno + 1;
      }
    }

    /** The table, built from the last block down. */
    method Build()
      requires shape.frag > 0
      requires forall blk: nat :: blk < rotbl.Length ==> Positioned(blk)
      modifies postbl, rotbl
      ensures Heads(0)
    {
      Empty();
      var blk := rotbl.Length;
      while blk > 0
        invariant 0 <= blk <= rotbl.Length && Heads(blk)
      {
        blk := blk - 1;
        assert Positioned(blk);
        Link(blk);
      }
    }

    /** Block blk lies somewhere in the table. */
    predicate Positioned(blk: nat) {
      shape.cyl(blk * shape.frag) < postbl.Length0 && shape.rpos(blk * shape.frag) < postbl.Length1
    }

    method Link(blk: nat)
      requires blk < rotbl.Length && Positioned(blk) && Heads(blk + 1)
      modifies postbl, rotbl
      ensures Heads(blk)
    {
      var cylno, rpos := shape.cyl(blk * shape.frag), shape.rpos(blk * shape.frag);
      ghost var was := rotbl[..];
      var head := postbl[cylno, rpos];
      assert Head(head, was, cylno, rpos, blk + 1);
      rotbl[blk] := if head == -1 then 0 else head - blk;
      postbl[cylno, rpos] := blk;
      forall c: nat, r: nat | c < postbl.Length0 && r < postbl.Length1
        ensures Head(postbl[c, r], rotbl[..], c, r, blk)
      {
        if c == cylno && r == rpos {
          NewHead(head, was, rotbl[..], c, r, blk);
        } else {
          assert Head(old(postbl[c, r]), was, c, r, blk + 1);
          OldHead(old(postbl[c, r]), was, rotbl[..], c, r, blk);
        }
      }
    }

    lemma NewHead(head: int, was: seq<int>, offsets: seq<int>, c: nat, r: nat, blk: nat)
      requires blk < |was| == |offsets| && Lies(shape, blk, c, r) && Head(head, was, c, r, blk + 1)
      requires offsets == was[blk := if head == -1 then 0 else head - blk]
      ensures Head(blk, offsets, c, r, blk)
    {
      if head != -1 {
        ChainSame(was, offsets, head);
      }
    }

    lemma OldHead(head: int, was: seq<int>, offsets: seq<int>, c: nat, r: nat, blk: nat)
      requires blk < |was| == |offsets| && !Lies(shape, blk, c, r) && Head(head, was, c, r, blk + 1)
      requires forall i :: blk < i < |was| ==> was[i] == offsets[i]
      ensures Head(head, offsets, c, r, blk)
    {
      if head != -1 {
        ChainSame(was, offsets, head);
      }
    }
  }

  // How many cylinders until the blocks come round again

  /** `cycle` cylinders of spc sectors are a whole number of blocks of nspb sectors. */
  predicate WholeBlocks(cycle: nat, spc: nat, nspb: nat)
    requires nspb > 0
  {
    cycle * spc % nspb == 0
  }

  /** nspb is a power of two. */
  method CyclesToAlign(spc: nat, nspb: nat, ghost k: nat) returns (cpc: nat)
    requires nspb == Pow2(k)
    ensures cpc > 0 && WholeBlocks(cpc, spc, nspb)
    ensures forall n: nat :: 0 < n && WholeBlocks(n, spc, nspb) ==> cpc <= n
  {
    var i := spc;
    ghost var j: nat := k;
    cpc := nspb;
    while cpc > 1 && i % 2 == 0
      invariant j <= k && cpc == Pow2(j) && cpc > 0
      invariant forall n: nat :: WholeBlocks(n, spc, nspb) <==> WholeBlocks(n, i, cpc)
      decreases cpc
    {
      Halved(i, cpc);
      cpc, i, j := cpc / 2, i / 2, j - 1;
    }
    forall n: nat | WholeBlocks(n, i, cpc)
      ensures n % cpc == 0
    {
      if cpc > 1 {
        OddFactor(n, i, j);
      }
    }
    Multiple(cpc, i);
  }

  lemma Halved(i: nat, cpc: nat)
    requires cpc > 1 && cpc % 2 == 0 && i % 2 == 0
    ensures forall n: nat :: WholeBlocks(n, i, cpc) <==> WholeBlocks(n, i / 2, cpc / 2)
  {
    forall n: nat
      ensures WholeBlocks(n, i, cpc) <==> WholeBlocks(n, i / 2, cpc / 2)
    {
      HalvedOnce(n, i / 2, cpc / 2);
    }
  }

  lemma HalvedOnce(n: nat, i: nat, c: nat)
    requires c > 0
    ensures WholeBlocks(n, 2 * i, 2 * c) <==> WholeBlocks(n, i, c)
  {
    assert n * (2 * i) == 2 * (n * i);
    DoubleMod(n * i, c);
  }

  lemma DoubleMod(x: nat, c: nat)
    requires c > 0
    ensures 2 * x % (2 * c) == 0 <==> x % c == 0
  {
    if x % c == 0 {
      assert 2 * x == (x / c) * (2 * c);
      MultipleMod(x / c, 2 * c);
    }
    if 2 * x % (2 * c) == 0 {
      var q := 2 * x / (2 * c);
      assert 2 * x == q * (2 * c) == 2 * (q * c);
      MultipleMod(q, c);
    }
  }

  lemma MultipleMod(q: nat, c: nat)
    requires c > 0
    ensures q * c % c == 0
  {
    var x := q * c;
    var d: int := q - x / c;
    assert c * d == x % c;
    if d < 0 {
      MulMono(1, -d, c);
    } else if d > 0 {
      MulMono(1, d, c);
    }
  }

  lemma Multiple(c: nat, i: nat)
    requires c > 0
    ensures WholeBlocks(c, i, c)
    ensures forall n: nat :: 0 < n && n % c == 0 ==> c <= n
  {
    MultipleMod(i, c);
  }

  /** An odd factor does not help towards a power of two. */
  lemma {:induction false} OddFactor(n: nat, i: nat, k: nat)
    requires i % 2 == 1 && n * i % Pow2(k) == 0
    ensures n % Pow2(k) == 0
  {
    if k > 0 {
      var p := Pow2(k - 1);
      DoubleMod(n * i, p);
      assert n * i == 2 * p * (n * i / (2 * p));
      Even(n, i, p * (n * i / (2 * p)));
      var m := n / 2;
      assert n * i == 2 * (m * i);
      DoubleMod(m * i, p);
      OddFactor(m, i, k - 1);
      DoubleMod(m, p);
    }
  }

  lemma Even(n: nat, i: nat, h: nat)
    requires i % 2 == 1 && n * i == 2 * h
    ensures n % 2 == 0
  {
    var m, r := n / 2, n % 2;
    assert n * i == 2 * (m * i) + r * i;
    assert r * i == if r == 0 then 0 else i;
  }
}
