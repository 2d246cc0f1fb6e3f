/** pstat's estimate of the largest process: allocate ever larger blocks until one
    is refused, then free them all. */
module SwapSweep {
  import opened Common
  import opened SwapSpec
  import opened SwapMap

  // ---- Cluster alignment ----

  lemma AddMultiples(x: int, y: int, c: int)
    requires c > 0 && x % c == 0 && y % c == 0
    ensures (x + y) % c == 0 && (x - y) % c == 0
  {
    var p, q := x / c, y / c;
    assert x == p * c && y == q * c;
    assert x + y == (p + q) * c && x - y == (p - q) * c;
    MultipleOf(p + q, c);
    MultipleOf(p - q, c);
  }

  lemma MultipleOf(q: int, c: int)
    requires c > 0
    ensures (q * c) % c == 0
  {
    DivisionIs(q * c, c, q);
  }

  /** Stripe boundaries are cluster boundaries when the stripe is a whole number of clusters. */
  lemma StartAligned(g: Geometry, e: Segment)
    requires g.Valid() && e.addr % g.cluster == 0 && g.dmmax % g.cluster == 0
    ensures g.Start(e) % g.cluster == 0
  {
    if g.Crosses(e) {
      var q, k := e.addr / g.dmmax, g.dmmax / g.cluster;
      assert g.Start(e) == (q + 1) * g.dmmax && g.dmmax == k * g.cluster;
      assert (q + 1) * (k * g.cluster) == ((q + 1) * k) * g.cluster;
      MultipleOf((q + 1) * k, g.cluster);
    }
  }

  lemma SplicedAligned(segs: seq<Segment>, from: nat, to: nat, one: Segment, c: int)
    requires c > 0 && Aligned(segs, c) && from <= to <= |segs|
    requires one.addr % c == 0 && one.End() % c == 0
    ensures Aligned(Spliced(segs, from, to, one), c)
  {
    var r := Spliced(segs, from, to, one);
    assert forall i :: from < i < |r| ==> r[i] == segs[i - 1 - from + to];
  }

  lemma ReleasedAligned(segs: seq<Segment>, k: nat, size: int, addr: int, c: int)
    requires c > 0 && Aligned(segs, c) && k <= |segs| && !OverlapsAt(segs, k, size, addr)
    requires addr % c == 0 && (addr + size) % c == 0
    ensures Aligned(ReleasedAt(segs, k, size, addr), c)
  {
    var left, right := TouchesLeft(segs, k, addr), TouchesRight(segs, k, size, addr);
    var from, to := if left then k - 1 else k, if right then k + 1 else k;
    var start := if left then segs[k - 1].addr else addr;
    var end := if right then segs[k].End() else addr + size;
    SplicedAligned(segs, from, to, Segment(end - start, start), c);
  }

  /** On an aligned map rmalloc never leaks, and the map stays aligned. */
  lemma TakeAligned(g: Geometry, segs: seq<Segment>, limit: nat, size: int)
    requires g.Valid() && 2 <= limit && |segs| <= limit && Canonical(segs)
    requires 0 < size <= g.dmmax && FirstUsable(g, segs, size) < |segs|
    requires Aligned(segs, g.cluster) && g.dmmax % g.cluster == 0 && size % g.cluster == 0
    ensures Take(g, segs, limit, size).addr == g.Start(segs[FirstUsable(g, segs, size)])
    ensures !Take(g, segs, limit, size).lost ==> Aligned(Take(g, segs, limit, size).segs, g.cluster)
  {
    var i := FirstUsable(g, segs, size);
    var e := segs[i];
    var a := g.Start(e);
    TakeReturnsStart(g, segs, limit, size);
    StartAligned(g, e);
    Stripes(g, e, size);
    AddMultiples(a, size, g.cluster);
    if g.Crosses(e) {
      if !Take(g, segs, limit, size).lost {
        TakePastAligned(segs, limit, size, i, a, g.cluster, TakePast(segs, limit, size, i, a));
      }
    } else {
      TakeFrontAligned(segs, i, size, g.cluster);
    }
  }

  lemma TakeFrontAligned(segs: seq<Segment>, i: nat, size: int, c: int)
    requires i < |segs| && c > 0 && Aligned(segs, c) && (segs[i].addr + size) % c == 0
    ensures Aligned(FrontTaken(segs, i, size), c)
  {
  }

  lemma TakePastAligned(segs: seq<Segment>, limit: nat, size: int, i: nat, a: int, c: int, t: TakeResult)
    requires 2 <= limit && |segs| <= limit && Canonical(segs) && i < |segs|
    requires size > 0 && segs[i].addr < a && a + size <= segs[i].End()
    requires c > 0 && Aligned(segs, c) && a % c == 0 && (a + size) % c == 0
    requires t == TakePast(segs, limit, size, i, a) && !t.lost
    ensures Aligned(t.segs, c)
  {
    var first := a - segs[i].addr;
    var cut := segs[i := Segment(first, segs[i].addr)];
    var rest := segs[i].End() - a - size;
    var f := AfterTheCut(segs, cut, limit, size, i, a, first, rest);
    CutStaysCanonical(segs, i, Segment(first, segs[i].addr));
    CutAligned(segs, i, first, c);
    if rest > 0 {
      assert i + 1 < |cut| ==> a + size + rest < cut[i + 1].addr;
      RestAligned(cut, limit, rest, i, a + size, c, f);
    }
  }

  lemma CutAligned(segs: seq<Segment>, i: nat, first: int, c: int)
    requires i < |segs| && c > 0 && Aligned(segs, c) && (segs[i].addr + first) % c == 0
    ensures Aligned(segs[i := Segment(first, segs[i].addr)], c)
    ensures segs[i].End() % c == 0
  {
  }

  /** Freeing what lies past the allocation, beyond the cut segment i. */
  lemma RestAligned(cut: seq<Segment>, limit: nat, rest: int, i: nat, addr: int, c: int, f: FreeResult)
    requires 2 <= limit && |cut| <= limit && Canonical(cut) && i < |cut| && rest > 0 && cut[i].End() < addr
    requires i + 1 < |cut| ==> addr + rest < cut[i + 1].addr
    requires c > 0 && Aligned(cut, c) && addr % c == 0 && (addr + rest) % c == 0
    requires f == FreeInto(cut, limit, rest, addr) && !f.lost
    ensures Aligned(f.segs, c)
  {
    AfterCut(cut, i, limit, rest, addr);
    ReleasedAligned(cut, After(cut, addr), rest, addr, c);
  }

  // ---- The sweep ----

  ghost predicate Apart(taken: seq<Segment>) {
    forall i, j, x :: 0 <= i < j < |taken| && taken[i].Holds(x) ==> !taken[j].Holds(x)
  }

  /** now is the free space of orig, less the blocks in taken. */
  ghost predicate Lacks(orig: seq<Segment>, now: seq<Segment>, taken: seq<Segment>, lost: bool) {
    && (!lost ==> forall x :: Free(now, x) <==> Free(orig, x) && !Free(taken, x))
    && (forall x :: Free(now, x) ==> Free(orig, x) && !Free(taken, x))
    && (forall x :: Free(taken, x) ==> Free(orig, x))
    && (forall i :: 0 <= i < |taken| ==> taken[i].size > 0 && taken[i].addr > 0)
    && Apart(taken)
  }

  lemma FreeOfAppend(taken: seq<Segment>, one: Segment, x: int)
    ensures Free(taken + [one], x) <==> Free(taken, x) || one.Holds(x)
  {
    if Free(taken, x) {
      var i :| 0 <= i < |taken| && taken[i].Holds(x);
      assert (taken + [one])[i].Holds(x);
    }
    if one.Holds(x) {
      assert (taken + [one])[|taken|].Holds(x);
    }
  }

  lemma FreeOfRest(taken: seq<Segment>, x: int)
    requires taken != []
    ensures Free(taken, x) <==> Free(taken[1..], x) || taken[0].Holds(x)
  {
    if Free(taken, x) && !taken[0].Holds(x) {
      var i :| 0 <= i < |taken| && taken[i].Holds(x);
      assert taken[1..][i - 1].Holds(x);
    }
    if Free(taken[1..], x) {
      var i :| 0 <= i < |taken[1..]| && taken[1..][i].Holds(x);
      assert taken[i + 1].Holds(x);
    }
  }

  lemma LacksMore(orig: seq<Segment>, now: seq<Segment>, taken: seq<Segment>, lost: bool, one: Segment, now': seq<Segment>, lost': bool)
    requires Lacks(orig, now, taken, lost) && one.size > 0 && one.addr > 0
    requires RunFree(now, one.size, one.addr)
    requires !lost' ==> forall x :: Free(now', x) <==> Free(now, x) && !(one.addr <= x < one.addr + one.size)
    requires forall x :: Free(now', x) ==> Free(now, x) && !(one.addr <= x < one.addr + one.size)
    ensures Lacks(orig, now', taken + [one], lost || lost')
  {
    forall x
      ensures Free(taken + [one], x) <==> Free(taken, x) || one.Holds(x)
    {
      FreeOfAppend(taken, one, x);
    }
    forall i, x | 0 <= i < |taken| && taken[i].Holds(x)
      ensures !one.Holds(x)
    {
      assert Free(taken, x);
    }
  }

  lemma LacksLess(orig: seq<Segment>, now: seq<Segment>, taken: seq<Segment>, lost: bool, now': seq<Segment>, lost': bool)
    requires Lacks(orig, now, taken, lost) && taken != []
    requires !lost' ==> forall x :: Free(now', x) <==> Free(now, x) || taken[0].addr <= x < taken[0].addr + taken[0].size
    requires forall x :: Free(now', x) ==> Free(now, x) || taken[0].addr <= x < taken[0].addr + taken[0].size
    ensures Lacks(orig, now', taken[1..], lost || lost')
  {
    forall x
      ensures Free(taken, x) <==> Free(taken[1..], x) || taken[0].Holds(x)
      ensures taken[0].Holds(x) ==> !Free(taken[1..], x)
    {
      FreeOfRest(taken, x);
      assert forall i :: 0 <= i < |taken[1..]| ==> taken[1..][i] == taken[i + 1];
    }
  }

  /** The size of the next block to ask for. */
  function Doubled(block: int, dmmax: int): int {
    if block < dmmax then 2 * block else block
  }

  /** The map and the block are made of whole clusters. */
  ghost predicate InClusters(m: SwapMap, block: int, lost: bool)
    requires m.Valid()
    reads m, m.ents
  {
    m.dmmax % m.clsize == 0 && block % m.clsize == 0 && (!lost ==> Aligned(m.Segs(), m.clsize))
  }

  /** What rmalloc took without returning it: nothing, or one block that is not at a cluster. */
  predicate Leaked(leaked: seq<Segment>, clsize: int)
    requires clsize > 0
  {
    |leaked| <= 1 && forall k :: 0 <= k < |leaked| ==> leaked[k].addr % clsize != 0
  }

  /** A request that was granted, and the map it left. */
  ghost predicate Grants(g: Geometry, limit: nat, size: int, before: seq<Segment>, addr: int, after: seq<Segment>) {
    && g.Valid() && 2 <= limit && |before| <= limit && addr != 0
    && Take(g, before, limit, size).addr == addr && Take(g, before, limit, size).segs == after
  }

  ghost predicate Refuses(g: Geometry, limit: nat, size: int, before: seq<Segment>) {
    g.Valid() && 2 <= limit && |before| <= limit && Take(g, before, limit, size).addr == 0
  }

  /** One allocation of the sweep. */
  method TryBlock(m: SwapMap, block: int, ghost orig: seq<Segment>, ghost taken: seq<Segment>, ghost lost: bool, ghost whole: bool)
    returns (addr: int, ghost taken': seq<Segment>, ghost leaked: seq<Segment>, ghost lost': bool)
    requires m.Valid() && block > 0 && Lacks(orig, m.Segs(), taken, lost) && (whole ==> InClusters(m, block, lost))
    modifies m.ents, m`mapfree, m`n
    ensures m.Valid() && Leaked(leaked, m.clsize)
    ensures taken' == (if addr == 0 then taken else taken + [Segment(block, addr)]) && (addr != 0 ==> leaked == [])
    ensures m.Limit() == old(m.Limit())
    ensures if addr == 0 then Refuses(m.Geo(), m.Limit(), block, old(m.Segs())) else Grants(m.Geo(), m.Limit(), block, old(m.Segs()), addr, m.Segs())
    ensures Lacks(orig, m.Segs(), taken' + leaked, lost') && (leaked == [] ==> Lacks(orig, m.Segs(), taken', lost'))
    ensures whole ==> InClusters(m, Doubled(block, m.dmmax), lost') && (!lost' ==> leaked == [])
  {
    ghost var segs, limit, g := m.Segs(), m.Limit(), m.Geo();
    taken', leaked := taken, [];
    addr, lost' := m.RmAlloc(block);
    lost' := lost || lost';
    assert taken + [] == taken;
    if whole {
      AddMultiples(block, block, m.clsize);
    }
    if block <= m.dmmax && FirstUsable(g, segs, block) < |segs| {
      ghost var start := g.Start(segs[FirstUsable(g, segs, block)]);
      TakeWasFree(g, segs, block);
      TakeRemovesRange(g, segs, limit, block);
      TakeReturnsStart(g, segs, limit, block);
      if whole && !lost {
        TakeAligned(g, segs, limit, block);
      }
      LacksMore(orig, segs, taken, lost, Segment(block, start), m.Segs(), lost');
      if addr == 0 {
        leaked := [Segment(block, start)];
      } else {
        taken' := taken + [Segment(block, start)];
        assert taken' + [] == taken';
      }
    }
  }

  /** Frees the first block that is still taken. */
  method GiveBack(m: SwapMap, ghost dmmin: int, block: int, addr: int, ghost orig: seq<Segment>, ghost all: seq<Segment>, ghost j: nat, ghost lost: bool)
    returns (block': int, ghost lost': bool)
    requires j < |all| && all[j] == Segment(block, addr) && block == BlockSize(dmmin, m.dmmax, j)
    requires StillTaken(m, orig, all[j..], lost)
    modifies m.ents, m`mapfree, m`n
    ensures StillTaken(m, orig, all[j + 1..], lost') && (lost ==> lost')
    ensures block' == BlockSize(dmmin, m.dmmax, j + 1)
  {
    block' := if block < m.dmmax then block * 2 else block;
    ghost var taken := all[j..];
    assert taken[1..] == all[j + 1..];
    ghost var segs, limit := m.Segs(), m.Limit();
    forall x | addr <= x < addr + block
      ensures !Free(segs, x)
    {
      assert taken[0].Holds(x);
      assert Free(taken, x);
    }
    RefusedExactly(segs, limit, block, addr);
    FreeLaw(segs, limit, block, addr);
    var bad;
    bad, lost' := m.RmFree(block, addr);
    lost' := lost || lost';
    LacksLess(orig, segs, taken, lost, m.Segs(), FreeInto(segs, limit, block, addr).lost);
  }

  function BlockSize(dmmin: int, dmmax: int, k: nat): int {
    if k == 0 then dmmin else Doubled(BlockSize(dmmin, dmmax, k - 1), dmmax)
  }

  /** The taken blocks are at the addresses in dmap, each of its turn's size. */
  ghost predicate Blocks(taken: seq<Segment>, dmap: seq<int>, dmmin: int, dmmax: int) {
    |taken| == |dmap| && forall k :: 0 <= k < |taken| ==> taken[k] == Segment(BlockSize(dmmin, dmmax, k), dmap[k])
  }

  lemma NoneTaken(orig: seq<Segment>, dmmin: int, dmmax: int) returns (taken: seq<Segment>, lost: bool)
    ensures taken == [] && !lost && Lacks(orig, orig, taken, lost) && Blocks(taken, [], dmmin, dmmax)
  {
    taken, lost := [], false;
  }

  lemma BlocksMore(taken: seq<Segment>, dmap: seq<int>, dmap': seq<int>, dmmin: int, dmmax: int, block: int, addr: int)
    requires Blocks(taken, dmap, dmmin, dmmax) && block == BlockSize(dmmin, dmmax, |dmap|) && dmap' == dmap + [addr]
    ensures Blocks(taken + [Segment(block, addr)], dmap', dmmin, dmmax)
  {
  }

  /** The first requests of the sweep, each granted: maps[k] is the map before request k. */
  ghost predicate Granted(g: Geometry, limit: nat, dmmin: int, maps: seq<seq<Segment>>, dmap: seq<int>) {
    |maps| == |dmap| + 1 &&
    forall k :: 0 <= k < |dmap| ==> Grants(g, limit, BlockSize(dmmin, g.dmmax, k), maps[k], dmap[k], maps[k + 1])
  }

  function Total(taken: seq<Segment>): int {
    if taken == [] then 0 else Total(taken[..|taken| - 1]) + taken[|taken| - 1].size
  }

  lemma TotalMore(taken: seq<Segment>, one: Segment)
    ensures Total(taken + [one]) == Total(taken) + one.size
  {
    assert (taken + [one])[..|taken|] == taken;
  }

  /** Where the allocating is: the blocks taken, the maps on the way, and the total. */
  ghost predicate SoFar(g: Geometry, limit: nat, dmmin: int, orig: seq<Segment>, now: seq<Segment>, maps: seq<seq<Segment>>, dmap: seq<int>,
                        taken: seq<Segment>, total: int)
  {
    && Granted(g, limit, dmmin, maps, dmap) && maps[0] == orig && maps[|dmap|] == now
    && Blocks(taken, dmap, dmmin, g.dmmax) && total == Total(taken)
  }

  lemma OneGranted(g: Geometry, limit: nat, dmmin: int, orig: seq<Segment>, now: seq<Segment>, maps: seq<seq<Segment>>, dmap: seq<int>,
                   taken: seq<Segment>, total: int, block: int, addr: int, now': seq<Segment>)
    requires SoFar(g, limit, dmmin, orig, now, maps, dmap, taken, total)
    requires block == BlockSize(dmmin, g.dmmax, |dmap|) && Grants(g, limit, block, now, addr, now')
    ensures SoFar(g, limit, dmmin, orig, now', maps + [now'], dmap + [addr], taken + [Segment(block, addr)], total + block)
  {
    TotalMore(taken, Segment(block, addr));
  }

  /** The sizes double until they are no longer below dmmax. */
  lemma {:induction false} BlockSizeIs(dmmin: int, dmmax: int, k: nat) returns (doublings: nat)
    requires dmmin > 0
    ensures doublings <= k && BlockSize(dmmin, dmmax, k) == dmmin * Pow2(doublings)
    ensures doublings < k ==> dmmin * Pow2(doublings) >= dmmax
    ensures doublings > 0 ==> dmmin * Pow2(doublings - 1) < dmmax
  {
    if k == 0 {
      doublings := 0;
    } else {
      doublings := BlockSizeIs(dmmin, dmmax, k - 1);
      if dmmin * Pow2(doublings) < dmmax {
        assert dmmin * Pow2(doublings + 1) == 2 * (dmmin * Pow2(doublings));
        doublings := doublings + 1;
      }
    }
  }

  /** The map is now, with what is in taken gone from it, and the next request is for block units. */
  ghost predicate Ready(m: SwapMap, orig: seq<Segment>, now: seq<Segment>, limit: nat, taken: seq<Segment>, block: int, lost: bool, whole: bool)
    reads m, m.ents
  {
    && m.Valid() && m.Limit() == limit && m.Segs() == now && block > 0
    && (whole ==> InClusters(m, block, lost)) && Lacks(orig, now, taken, lost)
  }

  /** One turn of the allocating loop. */
  method Request(m: SwapMap, dmap: array<int>, i: nat, block: int, ghost orig: seq<Segment>, ghost now: seq<Segment>, ghost limit: nat,
                 ghost taken: seq<Segment>, ghost lost: bool, ghost whole: bool)
    returns (addr: int, ghost taken': seq<Segment>, ghost leaked: seq<Segment>, ghost lost': bool)
    requires i < dmap.Length && Ready(m, orig, now, limit, taken, block, lost, whole)
    modifies m.ents, m`mapfree, m`n, dmap
    ensures dmap[..i] == old(dmap[..i]) && dmap[i] == addr
    ensures addr == 0 ==> taken' == taken && m.Valid() && Leaked(leaked, m.clsize) && Lacks(orig, m.Segs(), taken + leaked, lost')
    ensures addr == 0 ==> Refuses(m.Geo(), limit, block, now) && (whole && !lost' ==> leaked == [])
    ensures addr != 0 ==> taken' == taken + [Segment(block, addr)] && leaked == [] && m.Valid()
    ensures addr != 0 ==> Ready(m, orig, m.Segs(), limit, taken', Doubled(block, m.dmmax), lost', whole)
    ensures addr != 0 ==> Grants(m.Geo(), limit, block, now, addr, m.Segs())
  {
    addr, taken', leaked, lost' := TryBlock(m, block, orig, taken, lost, whole);
    dmap[i] := addr;
  }

  /** Allocates ever larger blocks until none is returned, or dmap is full. */
  method AllocatePhase(m: SwapMap, dmmin: int, dmap: array<int>, ghost whole: bool)
    returns (i: nat, total: int, ghost maps: seq<seq<Segment>>, ghost taken: seq<Segment>, ghost leaked: seq<Segment>, ghost lost: bool)
    requires m.Valid() && dmmin > 0 && (whole ==> InClusters(m, dmmin, false))
    modifies m.ents, m`mapfree, m`n, dmap
    ensures m.Valid() && i <= dmap.Length && Leaked(leaked, m.clsize)
    ensures exists now :: SoFar(m.Geo(), old(m.Limit()), dmmin, old(m.Segs()), now, maps, dmap[..i], taken, total)
    ensures i < dmap.Length ==> Refuses(m.Geo(), old(m.Limit()), BlockSize(dmmin, m.dmmax, i), maps[i])
    ensures Lacks(old(m.Segs()), m.Segs(), taken + leaked, lost)
    ensures whole && !lost ==> leaked == []
  {
    ghost var orig, now, limit := m.Segs(), m.Segs(), m.Limit();
    taken, lost := NoneTaken(orig, dmmin, m.dmmax);
    total, i, leaked, maps := 0, 0, [], [orig];
    var block := dmmin;
    assert dmap[..i] == [];
    while i < dmap.Length
      invariant i <= dmap.Length && block == BlockSize(dmmin, m.dmmax, i) && leaked == []
      invariant Ready(m, orig, now, limit, taken, block, lost, whole)
      invariant SoFar(m.Geo(), limit, dmmin, orig, now, maps, dmap[..i], taken, total)
    {
      var addr;
      ghost var was := taken;
      addr, taken, leaked, lost := Request(m, dmap, i, block, orig, now, limit, taken, lost, whole);
      if addr == 0 {
        return;
      }
      OneGranted(m.Geo(), limit, dmmin, orig, now, maps, dmap[..i], was, total, block, addr, m.Segs());
      assert dmap[..i + 1] == dmap[..i] + [addr];
      now := m.Segs();
      maps := maps + [now];
      total := total + block;
      i := i + 1;
      block := if block < m.dmmax then block * 2 else block;
    }
    assert taken + leaked == taken;
  }

  /** Frees the blocks again, in the order they were allocated. */
  method FreePhase(m: SwapMap, dmmin: int, dmap: array<int>, i: nat, ghost orig: seq<Segment>, ghost taken0: seq<Segment>,
                   ghost leaked: seq<Segment>, ghost lost0: bool)
    returns (ghost lost: bool)
    requires i <= dmap.Length && Blocks(taken0, dmap[..i], dmmin, m.dmmax) && StillTaken(m, orig, taken0 + leaked, lost0)
    modifies m.ents, m`mapfree, m`n
    ensures StillTaken(m, orig, leaked, lost) && (lost0 ==> lost)
  {
    lost := lost0;
    var j, block := 0, dmmin;
    ghost var addrs, all := dmap[..i], taken0 + leaked;
    SuffixIs(taken0, leaked);
    while j < i
      invariant j <= i && block == BlockSize(dmmin, m.dmmax, j)
      invariant StillTaken(m, orig, all[j..], lost) && (lost0 ==> lost)
    {
      BlockAt(taken0, addrs, dmmin, m.dmmax, j);
      block, lost := GiveBack(m, dmmin, block, dmap[j], orig, all, j, lost);
      j := j + 1;
    }
  }

  ghost predicate StillTaken(m: SwapMap, orig: seq<Segment>, taken: seq<Segment>, lost: bool)
    reads m, m.ents
  {
    m.Valid() && Lacks(orig, m.Segs(), taken, lost)
  }

  lemma BlockAt(taken: seq<Segment>, addrs: seq<int>, dmmin: int, dmmax: int, j: nat)
    requires j < |taken| && Blocks(taken, addrs, dmmin, dmmax)
    ensures taken[j] == Segment(BlockSize(dmmin, dmmax, j), addrs[j])
  {
  }

  lemma SuffixIs(taken: seq<Segment>, leaked: seq<Segment>)
    ensures (taken + leaked)[0..] == taken + leaked && (taken + leaked)[|taken|..] == leaked
    ensures forall j :: 0 <= j < |taken| ==> (taken + leaked)[j] == taken[j]
  {
  }

  /** The sweep in doswap.  The total is the size of the blocks that were granted, one after the other and
      each twice as large as the one before up to dmmax, until dmap is full or a request is refused; dmap
      holds their addresses, and they are parts of what was free, apart from each other.
      At the end, unless the map overflowed on the way, it lacks exactly what the last
      request took and did not return: at most one block, which is not at a cluster.  If nothing did,
      the map is the very same, and nothing does in a map of whole clusters. */
  method Sweep(m: SwapMap, dmmin: int, dmap: array<int>)
    returns (total: int, ghost maps: seq<seq<Segment>>, ghost taken: seq<Segment>, ghost leaked: seq<Segment>, ghost lost: bool)
    requires m.Valid() && dmmin > 0
    modifies m.ents, m`mapfree, m`n, dmap
    ensures m.Valid() && Leaked(leaked, m.clsize)
    ensures total == Total(taken) && |taken| <= dmap.Length && Blocks(taken, dmap[..|taken|], dmmin, m.dmmax)
    ensures Granted(m.Geo(), old(m.Limit()), dmmin, maps, dmap[..|taken|]) && maps[0] == old(m.Segs())
    ensures |taken| < dmap.Length ==> Refuses(m.Geo(), old(m.Limit()), BlockSize(dmmin, m.dmmax, |taken|), maps[|taken|])
    ensures Apart(taken) && forall x :: Free(taken, x) ==> Free(old(m.Segs()), x)
    ensures !lost ==> forall x :: Free(m.Segs(), x) <==> Free(old(m.Segs()), x) && !Free(leaked, x)
    ensures forall x :: Free(leaked, x) ==> Free(old(m.Segs()), x)
    ensures !lost && leaked == [] ==> m.Segs() == old(m.Segs())
    ensures !lost && old(InClusters(m, dmmin, false)) ==> leaked == []
  {
    ghost var orig, whole := m.Segs(), InClusters(m, dmmin, false);
    var i;
    ghost var lost0;
    i, total, maps, taken, leaked, lost0 := AllocatePhase(m, dmmin, dmap, whole);
    FirstOfThem(orig, m.Segs(), taken, leaked, lost0);
    lost := FreePhase(m, dmmin, dmap, i, orig, taken, leaked, lost0);
    if !lost && leaked == [] {
      CanonicalIsUnique(m.Segs(), orig);
    }
  }

  lemma FirstOfThem(orig: seq<Segment>, now: seq<Segment>, taken: seq<Segment>, more: seq<Segment>, lost: bool)
    requires Lacks(orig, now, taken + more, lost)
    ensures Apart(taken) && forall x :: Free(taken, x) ==> Free(orig, x)
  {
    forall x | Free(taken, x)
      ensures Free(orig, x)
    {
      var i :| 0 <= i < |taken| && taken[i].Holds(x);
      assert (taken + more)[i].Holds(x);
    }
    forall i, j, x | 0 <= i < j < |taken| && taken[i].Holds(x)
      ensures !taken[j].Holds(x)
    {
      assert (taken + more)[i] == taken[i] && (taken + more)[j] == taken[j];
    }
  }

  /** For example: of 96 units blocks of 16 and 32 are granted, and one of 64 is refused. */
  lemma SweepExample(limit: nat, maps: seq<seq<Segment>>, taken: seq<Segment>, dmap: seq<int>)
    requires Granted(Geometry(64, false, 16), limit, 16, maps, dmap) && Blocks(taken, dmap, 16, 64)
    requires 2 <= limit && maps[0] == [Segment(96, 16)]
    requires Refuses(Geometry(64, false, 16), limit, BlockSize(16, 64, |dmap|), maps[|dmap|])
    ensures dmap == [16, 32] && Total(taken) == 48
  {
    var g := Geometry(64, false, 16);
    var all, less, least := [Segment(96, 16)], [Segment(80, 32)], [Segment(48, 64)];
    assert BlockSize(16, 64, 0) == 16 && BlockSize(16, 64, 1) == 32 && BlockSize(16, 64, 2) == 64;
    assert FrontTaken(all, 0, 16) == less && FrontTaken(less, 0, 32) == least;
    assert g.Usable(all[0], 16) && g.Usable(less[0], 32) && !g.Usable(least[0], 64) && FirstUsable(g, least, 64) == 1;
    assert Take(g, all, limit, 16) == TakeResult(16, false, less);
    assert Take(g, less, limit, 32) == TakeResult(32, false, least);
    assert Take(g, least, limit, 64) == TakeResult(0, false, least);
    assert |dmap| > 0 && dmap[0] == 16 && maps[1] == less;
    assert |dmap| > 1 && dmap[1] == 32 && maps[2] == least;
    assert |dmap| > 2 ==> Grants(g, limit, BlockSize(16, 64, 2), maps[2], dmap[2], maps[3]);
    assert dmap == [16, 32];
    TotalMore([], Segment(16, 16));
    TotalMore([] + [Segment(16, 16)], Segment(32, 32));
    assert taken == [] + [Segment(16, 16)] + [Segment(32, 32)];
  }
}
