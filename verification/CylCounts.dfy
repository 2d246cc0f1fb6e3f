/** What the summary counters of a cylinder group count, block by block. */
module CylCounts {

  /** One of the redundant counters of a cylinder group. */
  datatype Measure =
    | Whole                     // cs_nbfree: blocks that are free throughout
    | Loose                     // cs_nffree: free fragments in the other blocks
    | Run(k: nat)               // cg_frsum[k]: maximal runs of k free fragments in the other blocks
    | InCyl(c: nat)             // cg_btot[c]: whole blocks in cylinder c
    | AtPos(c: nat, r: nat)     // cg_b[c][r]: whole blocks at position r of cylinder c

  /** Fragments per block, and where on the disk a block of the group lies. */
  datatype Shape = Shape(frag: nat, cyl: nat -> nat, rpos: nat -> nat)

  predicate AllFree(bits: seq<bool>) {
    forall i :: 0 <= i < |bits| ==> bits[i]
  }

  function CountFree(bits: seq<bool>): nat {
    if bits == [] then 0 else (if bits[0] then 1 else 0) + CountFree(bits[1..])
  }

  /** Maximal runs of exactly k free fragments, when run of them come just before. */
  function RunsOf(bits: seq<bool>, k: nat, run: nat): nat {
    if bits == [] then if run == k && k > 0 then 1 else 0
    else if bits[0] then RunsOf(bits[1..], k, run + 1)
    else (if run == k && k > 0 then 1 else 0) + RunsOf(bits[1..], k, 0)
  }

  /** What block h, with these fragments free, adds to a counter. */
  function Weight(sh: Shape, m: Measure, h: nat, bits: seq<bool>): nat {
    match m
    case Whole => if AllFree(bits) then 1 else 0
    case Loose => if AllFree(bits) then 0 else CountFree(bits)
    case Run(k) => if AllFree(bits) then 0 else RunsOf(bits, k, 0)
    case InCyl(c) => if AllFree(bits) && sh.cyl(h * sh.frag) == c then 1 else 0
    case AtPos(c, r) => if AllFree(bits) && sh.cyl(h * sh.frag) == c && sh.rpos(h * sh.frag) == r then 1 else 0
  }

  /** The fragments of block h. */
  function BlockBits(free: seq<bool>, frag: nat, h: nat): (bits: seq<bool>)
    requires h * frag + frag <= |free|
    ensures |bits| == frag
  {
    free[h * frag..h * frag + frag]
  }

  lemma BlockFits(frag: nat, h: nat, n: nat)
    requires h < n
    ensures h * frag + frag <= n * frag && (h + 1) * frag == h * frag + frag
  {
    assert h * frag + frag == (h + 1) * frag;
    MulMono(h + 1, n, frag);
  }

  lemma MulMono(a: nat, b: nat, c: nat)
    requires a <= b
    ensures a * c <= b * c
  {
  }

  /** The counter over the first n blocks. */
  function Total(sh: Shape, m: Measure, free: seq<bool>, n: nat): nat
    requires n * sh.frag <= |free|
  {
    if n == 0 then 0
    else
      BlockFits(sh.frag, n - 1, n);
      Total(sh, m, free, n - 1) + Weight(sh, m, n - 1, BlockBits(free, sh.frag, n - 1))
  }

  lemma {:induction false} TotalSame(sh: Shape, m: Measure, free: seq<bool>, free': seq<bool>, n: nat)
    requires n * sh.frag <= |free| && n * sh.frag <= |free'|
    requires forall i :: 0 <= i < n * sh.frag ==> free[i] == free'[i]
    ensures Total(sh, m, free, n) == Total(sh, m, free', n)
  {
    if n > 0 {
      BlockFits(sh.frag, n - 1, n);
      assert BlockBits(free, sh.frag, n - 1) == BlockBits(free', sh.frag, n - 1);
      TotalSame(sh, m, free, free', n - 1);
    }
  }

  /** Changing one block changes a counter by the difference of that block's weights. */
  lemma {:induction false} TotalChange(sh: Shape, m: Measure, free: seq<bool>, free': seq<bool>, n: nat, h: nat)
    requires n * sh.frag <= |free| && n * sh.frag <= |free'| && h < n
    requires h * sh.frag + sh.frag <= |free| && h * sh.frag + sh.frag <= |free'|
    requires forall i :: 0 <= i < n * sh.frag && !(h * sh.frag <= i < h * sh.frag + sh.frag) ==> free[i] == free'[i]
    ensures Total(sh, m, free', n) + Weight(sh, m, h, BlockBits(free, sh.frag, h))
            == Total(sh, m, free, n) + Weight(sh, m, h, BlockBits(free', sh.frag, h))
  {
    BlockFits(sh.frag, n - 1, n);
    if h == n - 1 {
      TotalSame(sh, m, free, free', n - 1);
    } else {
      BlockFits(sh.frag, h, n - 1);
      assert BlockBits(free, sh.frag, n - 1) == BlockBits(free', sh.frag, n - 1);
      TotalChange(sh, m, free, free', n - 1, h);
    }
  }

  lemma {:induction false} IntervalCounts(bits: seq<bool>, lo: nat, hi: nat, k: nat, run: nat)
    requires lo <= hi <= |bits| && (lo > 0 ==> run == 0)
    requires forall i :: 0 <= i < |bits| ==> (bits[i] <==> lo <= i < hi)
    ensures CountFree(bits) == hi - lo
    ensures RunsOf(bits, k, run) == if k > 0 && (if lo == 0 then run + hi else hi - lo) == k then 1 else 0
    decreases |bits|
  {
    if bits != [] {
      var rest := bits[1..];
      if lo > 0 {
        IntervalCounts(rest, lo - 1, hi - 1, k, 0);
      } else if hi > 0 {
        IntervalCounts(rest, 0, hi - 1, k, run + 1);
      } else {
        IntervalCounts(rest, 0, 0, k, 0);
      }
    }
  }

  /** The weight of a block whose free fragments are lo..hi - 1. */
  lemma IntervalWeight(sh: Shape, m: Measure, h: nat, bits: seq<bool>, lo: nat, hi: nat)
    requires |bits| == sh.frag && lo <= hi <= sh.frag && hi - lo < sh.frag
    requires forall i :: 0 <= i < |bits| ==> (bits[i] <==> lo <= i < hi)
    ensures Weight(sh, m, h, bits) ==
            match m
            case Loose => hi - lo
            case Run(k) => if k > 0 && hi - lo == k then 1 else 0
            case _ => 0
  {
    assert !bits[if lo > 0 then 0 else hi];
    IntervalCounts(bits, lo, hi, if m.Run? then m.k else 0, 0);
  }

  lemma WholeWeight(sh: Shape, m: Measure, h: nat, bits: seq<bool>)
    requires |bits| == sh.frag && AllFree(bits)
    ensures Weight(sh, m, h, bits) ==
            match m
            case Whole => 1
            case InCyl(c) => if sh.cyl(h * sh.frag) == c then 1 else 0
            case AtPos(c, r) => if sh.cyl(h * sh.frag) == c && sh.rpos(h * sh.frag) == r then 1 else 0
            case _ => 0
  {
  }

  /** Whole blocks and loose fragments account for every free fragment. */
  lemma {:induction false} TotalsAreAllFree(sh: Shape, free: seq<bool>, n: nat)
    requires n * sh.frag <= |free|
    ensures Total(sh, Whole, free, n) * sh.frag + Total(sh, Loose, free, n) == CountFree(free[..n * sh.frag])
  {
    if n == 0 {
      assert free[..n * sh.frag] == [];
    } else {
      BlockFits(sh.frag, n - 1, n);
      TotalsAreAllFree(sh, free, n - 1);
      var bits := BlockBits(free, sh.frag, n - 1);
      SplitLast(free, sh.frag, n);
      CountFreeConcat(free[..(n - 1) * sh.frag], bits);
      BlockCount(sh, n - 1, bits);
      Distribute(Total(sh, Whole, free, n - 1), Weight(sh, Whole, n - 1, bits), sh.frag);
    }
  }

  lemma SplitLast(free: seq<bool>, frag: nat, n: nat)
    requires n > 0 && n * frag <= |free| && (n - 1) * frag + frag == n * frag
    ensures free[..n * frag] == free[..(n - 1) * frag] + BlockBits(free, frag, n - 1)
  {
  }

  lemma BlockCount(sh: Shape, h: nat, bits: seq<bool>)
    requires |bits| == sh.frag
    ensures Weight(sh, Whole, h, bits) * sh.frag + Weight(sh, Loose, h, bits) == CountFree(bits)
  {
    if AllFree(bits) {
      CountAllFree(bits);
    }
  }

  lemma Distribute(a: nat, b: nat, c: nat)
    ensures (a + b) * c == a * c + b * c
  {
  }

  lemma {:induction false} CountFreeConcat(a: seq<bool>, b: seq<bool>)
    ensures CountFree(a + b) == CountFree(a) + CountFree(b)
  {
    if a == [] {
      assert a + b == b;
    } else {
      assert (a + b)[1..] == a[1..] + b;
      CountFreeConcat(a[1..], b);
    }
  }

  lemma {:induction false} CountAllFree(bits: seq<bool>)
    requires AllFree(bits)
    ensures CountFree(bits) == |bits|
  {
    if bits != [] {
      CountAllFree(bits[1..]);
    }
  }
}
