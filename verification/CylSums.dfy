/** The redundant counters of a cylinder group add up to one another. */
module CylSums {
  import opened CylCounts

  // ---- Runs ----

  /** The runs of up to most free fragments, each counted as often as it is long. */
  function RunLengths(bits: seq<bool>, run: nat, most: nat): nat {
    if most == 0 then 0 else RunLengths(bits, run, most - 1) + most * RunsOf(bits, most, run)
  }

  lemma Spread(m: nat, a: nat, b: nat)
    ensures m * (a + b) == m * a + m * b
  {
  }

  lemma {:induction false} RunLengthsStep(bits: seq<bool>, run: nat, most: nat)
    ensures var one := if run <= most then run else 0;
      RunLengths(bits, run, most) ==
        if bits == [] then one
        else if bits[0] then RunLengths(bits[1..], run + 1, most)
        else one + RunLengths(bits[1..], 0, most)
  {
    if most > 0 {
      RunLengthsStep(bits, run, most - 1);
      var there, more := if run == most then 1 else 0, if bits == [] then 0 else RunsOf(bits[1..], most, 0);
      assert bits == [] || !bits[0] ==> RunsOf(bits, most, run) == there + more;
      Spread(most, there, more);
    }
  }

  lemma {:induction false} RunLengthsAre(bits: seq<bool>, run: nat, most: nat)
    requires run + |bits| <= most
    ensures RunLengths(bits, run, most) == CountFree(bits) + run
  {
    RunLengthsStep(bits, run, most);
    if bits != [] {
      RunLengthsAre(bits[1..], if bits[0] then run + 1 else 0, most);
    }
  }

  lemma {:induction false} NoLongerRun(bits: seq<bool>, k: nat, run: nat)
    requires k > run + |bits| || (k == run + |bits| && !AllFree(bits))
    ensures RunsOf(bits, k, run) == 0
  {
    if bits != [] {
      assert bits[0] && AllFree(bits[1..]) ==> AllFree(bits);
      NoLongerRun(bits[1..], k, if bits[0] then run + 1 else 0);
    }
  }

  /** What a block that is not free throughout adds to the counts of runs. */
  lemma RunsOfBlock(bits: seq<bool>)
    requires !AllFree(bits)
    ensures |bits| > 0 && RunLengths(bits, 0, |bits| - 1) == CountFree(bits)
  {
    RunLengthsAre(bits, 0, |bits|);
    NoLongerRun(bits, |bits|, 0);
  }

  function RunTotals(sh: Shape, free: seq<bool>, n: nat, most: nat): nat
    requires n * sh.frag <= |free|
  {
    if most == 0 then 0 else RunTotals(sh, free, n, most - 1) + most * Total(sh, Run(most), free, n)
  }

  lemma {:induction false} RunTotalsStep(sh: Shape, free: seq<bool>, n: nat, most: nat, bits: seq<bool>)
    requires n > 0 && n * sh.frag <= |free| && (n - 1) * sh.frag + sh.frag <= n * sh.frag
    requires bits == BlockBits(free, sh.frag, n - 1)
    ensures RunTotals(sh, free, n, most) ==
      RunTotals(sh, free, n - 1, most) + if AllFree(bits) then 0 else RunLengths(bits, 0, most)
  {
    if most > 0 {
      RunTotalsStep(sh, free, n, most - 1, bits);
      var before, here := Total(sh, Run(most), free, n - 1), Weight(sh, Run(most), n - 1, bits);
      assert Total(sh, Run(most), free, n) == before + here;
      Spread(most, before, here);
    }
  }

  lemma {:induction false} NoRuns(sh: Shape, free: seq<bool>, most: nat)
    ensures RunTotals(sh, free, 0, most) == 0
  {
    if most > 0 {
      NoRuns(sh, free, most - 1);
    }
  }

  /** The lengths of all runs add up to the loose fragments. */
  lemma {:induction false} RunsAddUp(sh: Shape, free: seq<bool>, n: nat)
    requires sh.frag > 0 && n * sh.frag <= |free|
    ensures RunTotals(sh, free, n, sh.frag - 1) == Total(sh, Loose, free, n)
  {
    if n == 0 {
      NoRuns(sh, free, sh.frag - 1);
    } else {
      BlockFits(sh.frag, n - 1, n);
      var bits := BlockBits(free, sh.frag, n - 1);
      RunTotalsStep(sh, free, n, sh.frag - 1, bits);
      RunsAddUp(sh, free, n - 1);
      if !AllFree(bits) {
        RunsOfBlock(bits);
      }
    }
  }

  // ---- Cylinders and positions ----

  function CylTotals(sh: Shape, free: seq<bool>, n: nat, cyls: nat): nat
    requires n * sh.frag <= |free|
  {
    if cyls == 0 then 0 else CylTotals(sh, free, n, cyls - 1) + Total(sh, InCyl(cyls - 1), free, n)
  }

  function PosTotals(sh: Shape, free: seq<bool>, n: nat, c: nat, positions: nat): nat
    requires n * sh.frag <= |free|
  {
    if positions == 0 then 0 else PosTotals(sh, free, n, c, positions - 1) + Total(sh, AtPos(c, positions - 1), free, n)
  }

  lemma {:induction false} CylStep(sh: Shape, free: seq<bool>, n: nat, cyls: nat)
    requires n > 0 && n * sh.frag <= |free| && (n - 1) * sh.frag + sh.frag <= n * sh.frag
    ensures CylTotals(sh, free, n, cyls) == CylTotals(sh, free, n - 1, cyls) +
      if AllFree(BlockBits(free, sh.frag, n - 1)) && sh.cyl((n - 1) * sh.frag) < cyls then 1 else 0
  {
    if cyls > 0 {
      CylStep(sh, free, n, cyls - 1);
    }
  }

  lemma {:induction false} PosStep(sh: Shape, free: seq<bool>, n: nat, c: nat, positions: nat)
    requires n > 0 && n * sh.frag <= |free| && (n - 1) * sh.frag + sh.frag <= n * sh.frag
    ensures PosTotals(sh, free, n, c, positions) == PosTotals(sh, free, n - 1, c, positions) +
      if AllFree(BlockBits(free, sh.frag, n - 1)) && sh.cyl((n - 1) * sh.frag) == c && sh.rpos((n - 1) * sh.frag) < positions
      then 1 else 0
  {
    if positions > 0 {
      PosStep(sh, free, n, c, positions - 1);
    }
  }

  lemma {:induction false} NoneCounted(sh: Shape, free: seq<bool>, c: nat, k: nat)
    ensures CylTotals(sh, free, 0, k) == 0 && PosTotals(sh, free, 0, c, k) == 0
  {
    if k > 0 {
      NoneCounted(sh, free, c, k - 1);
    }
  }

  /** The whole blocks of all cylinders are the whole blocks, and those at all positions of a cylinder are those of the cylinder. */
  lemma {:induction false} CylindersAddUp(sh: Shape, free: seq<bool>, n: nat, cyls: nat, positions: nat, c: nat)
    requires n * sh.frag <= |free|
    requires forall h: nat {:trigger sh.cyl(h * sh.frag)} :: h < n ==> sh.cyl(h * sh.frag) < cyls && sh.rpos(h * sh.frag) < positions
    ensures CylTotals(sh, free, n, cyls) == Total(sh, Whole, free, n)
    ensures PosTotals(sh, free, n, c, positions) == Total(sh, InCyl(c), free, n)
  {
    if n == 0 {
      NoneCounted(sh, free, c, cyls);
      NoneCounted(sh, free, c, positions);
    } else {
      BlockFits(sh.frag, n - 1, n);
      assert sh.cyl((n - 1) * sh.frag) < cyls;
      CylStep(sh, free, n, cyls);
      PosStep(sh, free, n, c, positions);
      CylindersAddUp(sh, free, n - 1, cyls, positions, c);
    }
  }
}
