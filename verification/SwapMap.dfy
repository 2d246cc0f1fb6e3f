/** pstat's copy of the kernel's swap resource map: a first-fit allocator and a
    coalescing free over a sorted array ended by a zero size. */
module SwapMap {
  import opened SwapSpec

  /** With one device, allocation fails exactly when no run of that length is free. */
  lemma FirstFitIsComplete(g: Geometry, segs: seq<Segment>, size: int)
    requires g.Valid() && Canonical(segs) && 0 < size && !g.interleaved
    ensures FirstUsable(g, segs, size) == |segs| <==>
            !(exists a :: RunFree(segs, size, a))
  {
    var i := FirstUsable(g, segs, size);
    if i < |segs| {
      var a := segs[i].addr;
      forall x | a <= x < a + size
        ensures Free(segs, x)
      {
        assert segs[i].Holds(x);
      }
      assert RunFree(segs, size, a);
    }
    if a :| RunFree(segs, size, a) {
      assert Free(segs, a);
      var k :| 0 <= k < |segs| && segs[k].Holds(a);
      RunInOneSegment(segs, k, a, size);
    }
  }

  /** A run of free units lies within one segment: there is a gap after each. */
  lemma RunInOneSegment(segs: seq<Segment>, k: nat, a: int, size: int)
    requires Canonical(segs) && k < |segs| && segs[k].Holds(a) && RunFree(segs, size, a)
    ensures a + size <= segs[k].End()
  {
    GapAfter(segs, k);
  }

  lemma GapAfter(segs: seq<Segment>, k: nat)
    requires Canonical(segs) && k < |segs|
    ensures !Free(segs, segs[k].End())
  {
    forall j | 0 <= j < |segs|
      ensures !segs[j].Holds(segs[k].End())
    {
    }
  }

  /** With interleaved devices a free run that fits one stripe can be refused: the
      part of a segment before the boundary is not tried. */
  lemma StripeRunRefused()
    ensures var g, segs := Geometry(8, true, 1), [Segment(9, 1)];
      && Canonical(segs) && FirstUsable(g, segs, 4) == |segs|
      && RunFree(segs, 4, 1) && !g.Straddles(4, 1)
  {
    var segs := [Segment(9, 1)];
    forall x | 1 <= x < 5
      ensures Free(segs, x)
    {
      assert segs[0].Holds(x);
    }
  }

  /** A run that could be given: free, and within one stripe if devices are interleaved. */
  ghost predicate Givable(g: Geometry, segs: seq<Segment>, size: int, a: int)
    requires g.Valid()
  {
    RunFree(segs, size, a) && (g.interleaved ==> !g.Straddles(size, a))
  }

  /** Part of segment k before a stripe boundary is large enough. */
  predicate RoomBefore(g: Geometry, segs: seq<Segment>, size: int, k: nat)
    requires g.Valid() && k < |segs|
  {
    g.Crosses(segs[k]) && g.First(segs[k]) >= size
  }

  /** A request is refused although it could be met exactly when no segment is usable and one of
      them has room before its first stripe boundary. */
  lemma RefusedThoughFree(g: Geometry, segs: seq<Segment>, size: int)
    requires g.Valid() && Canonical(segs) && 0 < size <= g.dmmax
    ensures FirstUsable(g, segs, size) == |segs| ==>
      ((exists a :: Givable(g, segs, size, a)) <==> exists k :: 0 <= k < |segs| && RoomBefore(g, segs, size, k))
    ensures FirstUsable(g, segs, size) < |segs| ==> exists a :: Givable(g, segs, size, a)
  {
    var i := FirstUsable(g, segs, size);
    if i < |segs| {
      TakeWasFree(g, segs, size);
      assert Givable(g, segs, size, g.Start(segs[i]));
    } else {
      if a :| Givable(g, segs, size, a) {
        assert Free(segs, a);
        var k :| 0 <= k < |segs| && segs[k].Holds(a);
        RunInOneSegment(segs, k, a, size);
        Boundary(g, segs[k], size, a);
        assert RoomBefore(g, segs, size, k);
      }
      if k :| 0 <= k < |segs| && RoomBefore(g, segs, size, k) {
        BeforeBoundary(g, segs, size, k);
      }
    }
  }

  /** A run in an unusable segment lies before the boundary, where it has room. */
  lemma Boundary(g: Geometry, e: Segment, size: int, a: int)
    requires g.Valid() && e.addr > 0 && 0 < size <= g.dmmax && !g.Usable(e, size)
    requires e.addr <= a && a + size <= e.End() && (g.interleaved ==> !g.Straddles(size, a))
    ensures g.Crosses(e) && g.First(e) >= size
  {
    var q := e.addr / g.dmmax;
    var b := e.addr + g.First(e);
    assert b == (q + 1) * g.dmmax;
    if a < b && b < a + size {
      DivisionIs(a, g.dmmax, q);
    }
  }

  /** The run at the beginning of such a segment does not reach the boundary. */
  lemma BeforeBoundary(g: Geometry, segs: seq<Segment>, size: int, k: nat)
    requires g.Valid() && Canonical(segs) && 0 < size <= g.dmmax && k < |segs| && RoomBefore(g, segs, size, k)
    ensures Givable(g, segs, size, segs[k].addr)
  {
    var e := segs[k];
    forall x | e.addr <= x < e.addr + size
      ensures Free(segs, x)
    {
      assert e.Holds(x);
    }
    OneStripe(g.dmmax, e.addr, size);
  }

  lemma OneStripe(d: int, a: int, size: int)
    requires d > 0 && 0 < size <= d - a % d
    ensures a / d == (a + size - 1) / d
  {
    var q := a / d;
    assert a == q * d + a % d;
    DivisionIs(a + size - 1, d, q);
  }

  /** Every segment starts and ends on a multiple of c. */
  ghost predicate Aligned(segs: seq<Segment>, c: int)
    requires c > 0
  {
    forall i :: 0 <= i < |segs| ==> segs[i].addr % c == 0 && segs[i].End() % c == 0
  }

  /** rmalloc returns the start of what it took, unless that is not a multiple of the
      cluster size; then it returns 0 and the space is gone from the map. */
  lemma TakeReturnsStart(g: Geometry, segs: seq<Segment>, limit: nat, size: int)
    requires g.Valid() && 2 <= limit && |segs| <= limit && Canonical(segs)
    requires 0 < size <= g.dmmax && FirstUsable(g, segs, size) < |segs|
    ensures var e := segs[FirstUsable(g, segs, size)];
      Take(g, segs, limit, size).addr == g.Start(e) <==> g.Crosses(e) || e.addr % g.cluster == 0
    ensures Take(g, segs, limit, size).addr in {0, g.Start(segs[FirstUsable(g, segs, size)])}
  {
    TakeWasFree(g, segs, size);
  }

  /** For example: of the units 2 to 7, with clusters of 4, three are taken and none is given. */
  lemma TakenButNotGiven()
    ensures var g, segs := Geometry(8, false, 4), [Segment(6, 2)];
      Canonical(segs) && Take(g, segs, 2, 3) == TakeResult(0, false, [Segment(3, 5)])
  {
    var segs := [Segment(6, 2)];
    assert segs[0 := Segment(3, 5)] == [Segment(3, 5)];
  }

  class SwapMap {
    const ents: array<Segment>
    const dmmax: int
    const nswdev: int
    const clsize: int
    var mapfree: nat
    ghost var n: nat

    /** A map as it is read from the kernel, with so many slots to spare. */
    constructor (segs: seq<Segment>, spare: nat, dmmax: int, nswdev: int, clsize: int)
      requires Canonical(segs) && |segs| + spare >= 2 && dmmax > 0 && clsize > 0
      ensures Valid() && Segs() == segs && mapfree == spare && fresh(ents)
      ensures this.dmmax == dmmax && this.nswdev == nswdev && this.clsize == clsize
    {
      this.dmmax, this.nswdev, this.clsize := dmmax, nswdev, clsize;
      ents := new Segment[|segs| + spare + 1](i => if 0 <= i < |segs| then segs[i] else Segment(0, 0));
      mapfree, n := spare, |segs|;
      new;
      assert ents[..n] == segs;
    }

    /** Entries 0..n - 1 are the segments; every later size is zero; mapfree counts
        the slots that are left, not counting the one that ends the list. */
    ghost predicate Rep()
      reads this, ents
    {
      && n + mapfree + 1 <= ents.Length && 2 <= n + mapfree
      && Geo().Valid()
      && (forall i :: 0 <= i < n ==> ents[i].size != 0)
      && (forall i :: n <= i < ents.Length ==> ents[i].size == 0)
    }

    ghost predicate Valid()
      reads this, ents
    {
      Rep() && Canonical(Segs())
    }

    function Geo(): Geometry { Geometry(dmmax, nswdev > 1, clsize) }

    ghost function Segs(): (s: seq<Segment>)
      requires Rep()
      reads this, ents
      ensures |s| == n
    {
      ents[..n]
    }

    ghost function Limit(): nat
      reads this
    {
      n + mapfree
    }

    /** The entry that starts after addr, or the end of the map. */
    method FindAfter(addr: int) returns (bp: nat)
      requires Valid()
      ensures bp == After(Segs(), addr)
    {
      bp := 0;
      while ents[bp].addr <= addr && ents[bp].size != 0
        invariant bp <= n
        invariant forall i :: 0 <= i < bp ==> ents[i].addr <= addr
        decreases n - bp
      {
        bp := bp + 1;
      }
      AfterIs(Segs(), addr, bp);
    }

    /** Moves the entries after bp down over it. */
    method Compress(bp0: nat)
      requires Rep() && bp0 < n
      modifies ents, `mapfree, `n
      ensures Rep() && Limit() == old(Limit()) && Segs() == old(Segs()[..bp0] + Segs()[bp0 + 1..])
    {
      ghost var was := ents[..];
      var bp := bp0;
      while ents[bp].size != 0
        invariant bp0 <= bp <= n && n == old(n) && mapfree == old(mapfree)
        invariant forall i :: 0 <= i < bp0 ==> ents[i] == was[i]
        invariant forall i :: bp0 <= i < bp ==> ents[i] == was[i + 1]
        invariant forall i :: bp <= i < ents.Length ==> ents[i] == was[i]
        decreases n - bp
      {
        bp := bp + 1;
        ents[bp - 1] := ents[bp];
      }
      mapfree := mapfree + 1;
      n := n - 1;
    }

    /** Makes a new entry at bp and pushes the others up. */
    method PushUp(bp0: nat, size0: int, addr0: int)
      requires Rep() && bp0 <= n && size0 != 0 && mapfree > 0
      modifies ents, `mapfree, `n
      ensures Rep() && Limit() == old(Limit()) && Segs() == old(Segs()[..bp0] + [Segment(size0, addr0)] + Segs()[bp0..])
    {
      ghost var was := ents[..];
      ghost var one := Segment(size0, addr0);
      var bp, size, addr := bp0, size0, addr0;
      while size != 0
        invariant bp0 <= bp <= n + 1 && n == old(n) && mapfree == old(mapfree)
        invariant Segment(size, addr) == if bp == bp0 then one else was[bp - 1]
        invariant forall i :: 0 <= i < bp0 ==> ents[i] == was[i]
        invariant bp > bp0 ==> ents[bp0] == one
        invariant forall i :: bp0 < i < bp ==> ents[i] == was[i - 1]
        invariant forall i :: bp <= i < ents.Length ==> ents[i] == was[i]
        decreases n + 1 - bp
      {
        var t := ents[bp];
        ents[bp] := Segment(size, addr);
        size, addr := t.size, t.addr;
        bp := bp + 1;
      }
      assert bp == n + 1;
      mapfree := mapfree - 1;
      n := n + 1;
      PushedUp(was, ents[..], bp0, n - 1, one);
    }

    /** One attempt to free a range; the map is untouched when it has no slot for it. */
    method FreeOnce(size: int, addr: int) returns (r: Attempt)
      requires Valid() && addr > 0 && size > 0
      modifies ents, `mapfree, `n
      ensures Rep() && Limit() == old(Limit())
      ensures r == NoSlot <==> TouchesNothing(old(Segs()), After(old(Segs()), addr), size, addr) && old(mapfree) == 0
      ensures r == NoSlot ==> Segs() == old(Segs()) && mapfree == 0
      ensures r != NoSlot ==> FreeAt(old(Segs()), After(old(Segs()), addr), size, addr) == FreeResult(r == Rejected, false, Segs())
    {
      ghost var segs := Segs();
      var bp := FindAfter(addr);
      if bp > 0 && ents[bp - 1].End() >= addr {
        r := JoinLeft(bp, size, addr);
        return;
      }
      if addr + size >= ents[bp].addr && ents[bp].size != 0 {
        r := JoinRight(bp, size, addr);
        return;
      }
      if mapfree == 0 {
        return NoSlot;
      }
      PushUp(bp, size, addr);
      return Accepted;
    }

    /** Frees a range that ends at, or past, the start of the segment on its right. */
    method JoinRight(bp: nat, size: int, addr: int) returns (r: Attempt)
      requires Rep() && bp < n && size > 0 && !TouchesLeft(Segs(), bp, addr) && TouchesRight(Segs(), bp, size, addr)
      requires ents[bp].size > 0
      modifies ents
      ensures Rep() && Limit() == old(Limit()) && r != NoSlot
      ensures FreeAt(old(Segs()), bp, size, addr) == FreeResult(r == Rejected, false, Segs())
    {
      ghost var segs := Segs();
      if addr + size > ents[bp].addr {
        return Rejected;
      }
      ents[bp] := Segment(ents[bp].size + size, ents[bp].addr - size);
      assert Segs() == segs[bp := Segment(segs[bp].size + size, segs[bp].addr - size)];
      assert Segs() == ReleasedAt(segs, bp, size, addr);
      return Accepted;
    }

    /** Frees a range that begins at, or before, the end of the segment on its left. */
    method JoinLeft(bp: nat, size: int, addr: int) returns (r: Attempt)
      requires Rep() && 0 < bp <= n && size > 0 && TouchesLeft(Segs(), bp, addr) && ents[bp - 1].size > 0
      requires bp < n ==> ents[bp].size > 0
      modifies ents, `mapfree, `n
      ensures Rep() && Limit() == old(Limit()) && r != NoSlot
      ensures FreeAt(old(Segs()), bp, size, addr) == FreeResult(r == Rejected, false, Segs())
    {
      ghost var segs := Segs();
      if ents[bp - 1].End() > addr {
        return Rejected;
      }
      ents[bp - 1] := Segment(ents[bp - 1].size + size, ents[bp - 1].addr);
      assert Segs() == segs[bp - 1 := Segment(segs[bp - 1].size + size, segs[bp - 1].addr)];
      if ents[bp].size != 0 && addr + size >= ents[bp].addr {
        if addr + size > ents[bp].addr {
          return Rejected;
        }
        ents[bp - 1] := Segment(ents[bp - 1].size + ents[bp].size, ents[bp - 1].addr);
        Compress(bp);
      }
      assert Segs() == ReleasedAt(segs, bp, size, addr);
      return Accepted;
    }

    /** Destroys the smaller of the last two entries. */
    method DropLast()
      requires Valid() && mapfree == 0
      modifies ents, `mapfree, `n
      ensures Valid() && Limit() == old(Limit()) && mapfree == 1 && Segs() == DropSmaller(old(Segs()))
    {
      DropFree(Segs());
      var firstbp := 0;
      while ents[firstbp].size != 0
        invariant firstbp <= n
        decreases n - firstbp
      {
        firstbp := firstbp + 1;
      }
      var bp := firstbp - 1;
      if ents[bp].size > ents[bp - 1].size {
        bp := bp - 1;
      }
      ghost var segs := Segs();
      ents[bp] := ents[bp + 1];
      ents[bp + 1] := Segment(0, ents[bp + 1].addr);
      mapfree := mapfree + 1;
      n := n - 1;
      DroppedIs(segs, Segs());
    }

    /** rmfree */
    method RmFree(size: int, addr: int) returns (bad: bool, ghost lost: bool)
      requires Valid()
      modifies ents, `mapfree, `n
      ensures Rep() && Limit() == old(Limit()) && (!bad ==> Canonical(Segs()))
      ensures FreeInto(old(Segs()), Limit(), size, addr) == FreeResult(bad, lost, Segs())
    {
      lost := false;
      if addr <= 0 || size <= 0 {
        return true, false;
      }
      ghost var segs := Segs();
      var r := FreeOnce(size, addr);
      while r == NoSlot
        invariant Rep() && Limit() == old(Limit())
        invariant r == NoSlot ==> !lost && mapfree == 0 && Segs() == segs && FreeInto(segs, Limit(), size, addr).lost
        invariant r != NoSlot ==> FreeInto(segs, Limit(), size, addr) == FreeResult(r == Rejected, lost, Segs())
        decreases r == NoSlot
      {
        DropLast();
        lost := true;
        AfterDrop(segs, After(segs, addr), After(Segs(), addr), size, addr);
        r := FreeOnce(size, addr);
      }
      bad := r == Rejected;
      if !bad {
        FreeLaw(segs, Limit(), size, addr);
      }
    }

    /** Takes the whole entry bp out of the map. */
    method RemoveEmpty(bp0: nat)
      requires bp0 < n && n + mapfree + 1 <= ents.Length && 2 <= n + mapfree && Geo().Valid() && ents[bp0].size == 0
      requires forall i :: 0 <= i < n && i != bp0 ==> ents[i].size != 0
      requires forall i :: n <= i < ents.Length ==> ents[i].size == 0
      modifies ents, `mapfree, `n
      ensures Rep() && Limit() == old(Limit()) && Segs() == old(ents[..bp0] + ents[bp0 + 1..n])
    {
      ghost var was := ents[..];
      var bp := bp0;
      var more := true;
      while more
        invariant bp0 <= bp <= n && n == old(n) && mapfree == old(mapfree) && (more || bp == n)
        invariant forall i :: 0 <= i < bp0 ==> ents[i] == was[i]
        invariant forall i :: bp0 <= i < bp ==> ents[i] == was[i + 1]
        invariant forall i :: bp <= i < ents.Length ==> ents[i] == was[i]
        invariant more ==> bp < n
        decreases n - bp, more
      {
        bp := bp + 1;
        ents[bp - 1] := ents[bp];
        more := ents[bp].size != 0;
      }
      assert ents[n - 1] == was[n] && was[n].size == 0;
      mapfree := mapfree + 1;
      n := n - 1;
    }

    /** Takes size units from the front of entry bp. */
    method TakeFromFront(bp: nat, size: int) returns (addr: int)
      requires Valid() && bp < n && 0 < size <= ents[bp].size
      modifies ents, `mapfree, `n
      ensures Rep() && Limit() == old(Limit()) && addr == old(ents[bp].addr)
      ensures Segs() == FrontTaken(old(Segs()), bp, size)
    {
      ghost var segs := Segs();
      addr := ents[bp].addr;
      ents[bp] := Segment(ents[bp].size - size, ents[bp].addr + size);
      if ents[bp].size == 0 {
        RemoveEmpty(bp);
      }
    }

    /** Takes size units past the stripe boundary in entry bp. */
    method TakePastBoundary(bp: nat, size: int, first: int, ghost limit: nat, ghost segs: seq<Segment>, ghost a: int)
      returns (addr: int, ghost lost: bool)
      requires Valid() && bp < n && size > 0 && 0 < first && first + size <= ents[bp].size
      requires segs == Segs() && limit == Limit() && a == ents[bp].addr + first
      modifies ents, `mapfree, `n
      ensures Rep() && Limit() == limit && addr == a
      ensures Segs() == TakePast(segs, limit, size, bp, a).segs && lost == TakePast(segs, limit, size, bp, a).lost
    {
      addr := ents[bp].addr + first;
      var rest := ents[bp].size - first - size;
      ghost var cut := segs[bp := Segment(first, segs[bp].addr)];
      ghost var f := AfterTheCut(segs, cut, limit, size, bp, a, first, rest);
      CutEntry(bp, first, cut);
      lost := false;
      if rest != 0 {
        lost := FreeRest(cut, rest, addr + size, limit, f);
      }
    }

    /** bp->m_size = first */
    method CutEntry(bp: nat, first: int, ghost cut: seq<Segment>)
      requires Valid() && bp < n && 0 < first <= ents[bp].size && cut == Segs()[bp := Segment(first, ents[bp].addr)]
      modifies ents
      ensures Valid() && Segs() == cut
    {
      CutStaysCanonical(Segs(), bp, Segment(first, ents[bp].addr));
      ents[bp] := Segment(first, ents[bp].addr);
    }

    /** The call of rmfree from rmalloc. */
    method FreeRest(ghost cut: seq<Segment>, rest: int, addr: int, ghost limit: nat, ghost f: FreeResult) returns (ghost lost: bool)
      requires Valid() && Segs() == cut && limit == Limit() && f == FreeInto(cut, limit, rest, addr)
      modifies ents, `mapfree, `n
      ensures Rep() && Limit() == limit && Segs() == f.segs && lost == f.lost
    {
      var bad;
      bad, lost := RmFree(rest, addr);
    }

    /** Allocates in entry bp, which is usable: past the boundary if it crosses one. */
    method AllocateIn(bp: nat, size: int) returns (addr: int, ghost lost: bool)
      requires Valid() && bp < n && 0 < size <= dmmax && Geo().Usable(ents[bp], size)
      modifies ents, `mapfree, `n
      ensures Valid() && Limit() == old(Limit())
      ensures TakeResult(addr, lost, Segs())
              == TakeAt(old(Segs()), Limit(), size, bp, Geo().Crosses(old(ents[bp])), Geo().Start(old(ents[bp])), clsize)
    {
      Stripes(Geo(), ents[bp], size);
      var first := dmmax - ents[bp].addr % dmmax;
      addr, lost := AllocateAt(bp, size, first, nswdev > 1 && first < ents[bp].size, Geo().Start(ents[bp]));
    }

    method AllocateAt(bp: nat, size: int, first: int, crosses: bool, ghost a: int) returns (addr: int, ghost lost: bool)
      requires Valid() && bp < n && size > 0 && ents[bp].addr <= a && a + size <= ents[bp].End()
      requires (crosses <==> ents[bp].addr < a) && (crosses ==> a == ents[bp].addr + first)
      modifies ents, `mapfree, `n
      ensures Valid() && Limit() == old(Limit())
      ensures TakeResult(addr, lost, Segs()) == TakeAt(old(Segs()), Limit(), size, bp, crosses, a, clsize)
    {
      ghost var segs, limit := Segs(), Limit();
      TakeAtCanonical(segs, limit, size, bp, crosses, a, clsize);
      if crosses {
        addr, lost := TakePastBoundary(bp, size, first, limit, segs, a);
        assert TakeResult(addr, lost, Segs()) == TakePast(segs, limit, size, bp, a);
      } else {
        lost := false;
        addr := TakeFromFront(bp, size);
        if addr % clsize != 0 {
          addr := 0;
        }
      }
    }

    /** Must the search pass over entry bp? */
    method Skips(bp: nat, size: int) returns (skip: bool)
      requires Geo().Valid() && bp < ents.Length
      ensures skip <==> !Geo().Usable(ents[bp], size)
    {
      if ents[bp].size >= size {
        var first := dmmax - ents[bp].addr % dmmax;
        skip := nswdev > 1 && first < ents[bp].size && ents[bp].size - first < size;
      } else {
        skip := true;
      }
    }

    /** rmalloc */
    method RmAlloc(size: int) returns (addr: int, ghost lost: bool)
      requires Valid()
      modifies ents, `mapfree, `n
      ensures Valid() && Limit() == old(Limit())
      ensures TakeResult(addr, lost, Segs()) == Take(Geo(), old(Segs()), Limit(), size)
    {
      lost := false;
      if size <= 0 || size > dmmax {
        return 0, false;
      }
      var bp := 0;
      while ents[bp].size != 0
        invariant Valid() && bp <= n && n == old(n) && mapfree == old(mapfree) && ents[..] == old(ents[..])
        invariant forall i :: 0 <= i < bp ==> !Geo().Usable(ents[i], size)
        decreases n - bp
      {
        var skip := Skips(bp, size);
        if !skip {
          FirstUsableIs(Geo(), Segs(), size, bp);
          addr, lost := AllocateIn(bp, size);
          return;
        }
        bp := bp + 1;
      }
      FirstUsableIs(Geo(), Segs(), size, bp);
      addr := 0;
    }
  }

  lemma TakeAtCanonical(segs: seq<Segment>, limit: nat, size: int, i: nat, crosses: bool, a: int, cluster: int)
    requires 2 <= limit && |segs| <= limit && Canonical(segs) && i < |segs| && cluster > 0
    requires size > 0 && segs[i].addr <= a && a + size <= segs[i].End()
    requires crosses <==> segs[i].addr < a
    ensures Canonical(TakeAt(segs, limit, size, i, crosses, a, cluster).segs)
  {
    TakeAtLaw(segs, limit, size, i, crosses, a, cluster);
  }

  /** One entry more, on the array contents. */
  lemma PushedUp(was: seq<Segment>, now: seq<Segment>, bp: nat, n: nat, one: Segment)
    requires bp <= n < |was| && |was| == |now| && now[bp] == one
    requires forall i :: 0 <= i < bp ==> now[i] == was[i]
    requires forall i :: bp < i <= n ==> now[i] == was[i - 1]
    ensures now[..n + 1] == was[..n][..bp] + [one] + was[..n][bp..]
  {
  }

  lemma DroppedIs(segs: seq<Segment>, now: seq<Segment>)
    requires |segs| >= 2 && |now| == |segs| - 1
    requires forall i :: 0 <= i < |now| - 1 ==> now[i] == segs[i]
    requires now[|now| - 1] == if segs[|now|].size > segs[|now| - 1].size then segs[|now|] else segs[|now| - 1]
    ensures now == DropSmaller(segs)
  {
  }

  /** What TakePast leaves, by whether anything lies past the allocation. */
  lemma AfterTheCut(segs: seq<Segment>, cut: seq<Segment>, limit: nat, size: int, i: nat, a: int, first: int, rest: int)
    returns (f: FreeResult)
    requires 2 <= limit && |segs| <= limit && i < |segs| && a == segs[i].addr + first && rest == segs[i].End() - a - size
    requires cut == segs[i := Segment(first, segs[i].addr)]
    ensures f == if rest == 0 then FreeResult(false, false, cut) else FreeInto(cut, limit, rest, a + size)
    ensures f.segs == TakePast(segs, limit, size, i, a).segs && f.lost == TakePast(segs, limit, size, i, a).lost
  {
    f := if rest == 0 then FreeResult(false, false, cut) else FreeInto(cut, limit, rest, a + size);
  }

  lemma CutStaysCanonical(segs: seq<Segment>, i: nat, one: Segment)
    requires Canonical(segs) && i < |segs| && one.size > 0
    requires segs[i].addr <= one.addr && one.End() <= segs[i].End()
    ensures Canonical(segs[i := one])
  {
  }

  lemma {:induction false} FirstUsableIs(g: Geometry, segs: seq<Segment>, size: int, i: nat)
    requires g.Valid() && i <= |segs| && (i < |segs| ==> g.Usable(segs[i], size))
    requires forall k :: 0 <= k < i ==> !g.Usable(segs[k], size)
    ensures FirstUsable(g, segs, size) == i
  {
    if i > 0 {
      FirstUsableIs(g, segs[1..], size, i - 1);
    }
  }

  datatype Attempt = Accepted | Rejected | NoSlot

  lemma {:induction false} AfterIs(segs: seq<Segment>, addr: int, k: nat)
    requires k <= |segs| && forall i :: 0 <= i < k ==> segs[i].addr <= addr
    requires k < |segs| ==> segs[k].addr > addr
    ensures After(segs, addr) == k
  {
    if k > 0 {
      AfterIs(segs[1..], addr, k - 1);
    }
  }
}
