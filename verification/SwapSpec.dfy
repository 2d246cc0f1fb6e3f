/** The free space of a resource map as a sorted list of segments, and what
    allocating and freeing do to it. */
module SwapSpec {

  datatype Segment = Segment(size: int, addr: int) {
    function End(): int { addr + size }

    predicate Holds(x: int) { addr <= x < End() }
  }

  /** Increasing, disjoint, and with a gap between neighbours. */
  ghost predicate Canonical(segs: seq<Segment>) {
    && (forall i :: 0 <= i < |segs| ==> segs[i].size > 0 && segs[i].addr > 0)
    && (forall i, j :: 0 <= i < j < |segs| ==> segs[i].End() < segs[j].addr)
  }

  /** The unit x is free. */
  ghost predicate Free(segs: seq<Segment>, x: int) {
    exists i :: 0 <= i < |segs| && segs[i].Holds(x)
  }

  /** All of [addr, addr + size) is free. */
  ghost predicate RunFree(segs: seq<Segment>, size: int, addr: int) {
    forall x :: addr <= x < addr + size ==> Free(segs, x)
  }

  /** Nothing in [addr, addr + size) is free. */
  ghost predicate Disjoint(segs: seq<Segment>, size: int, addr: int) {
    forall x :: addr <= x < addr + size ==> !Free(segs, x)
  }

  lemma FirstIsFree(a: seq<Segment>)
    requires Canonical(a)
    ensures a != [] ==> Free(a, a[0].addr)
  {
    if a != [] {
      assert a[0].Holds(a[0].addr);
    }
  }

  /** The sorted coalesced form of a free set is unique. */
  lemma {:induction false} CanonicalIsUnique(a: seq<Segment>, b: seq<Segment>)
    requires Canonical(a) && Canonical(b)
    requires forall x :: Free(a, x) <==> Free(b, x)
    ensures a == b
  {
    FirstIsFree(a);
    FirstIsFree(b);
    if a != [] && b != [] {
      FirstSegment(a, b);
      FirstSegment(b, a);
      RestIsSame(a, b);
      CanonicalIsUnique(a[1..], b[1..]);
      assert a == [a[0]] + a[1..] && b == [b[0]] + b[1..];
    }
  }

  lemma RestIsSame(a: seq<Segment>, b: seq<Segment>)
    requires Canonical(a) && Canonical(b) && a != [] && b != [] && a[0] == b[0]
    requires forall x :: Free(a, x) <==> Free(b, x)
    ensures Canonical(a[1..]) && Canonical(b[1..]) && forall x :: Free(a[1..], x) <==> Free(b[1..], x)
  {
    forall x
      ensures Free(a[1..], x) <==> Free(b[1..], x)
    {
      FreeAfterFirst(a, x);
      FreeAfterFirst(b, x);
    }
  }

  lemma FreeAfterFirst(a: seq<Segment>, x: int)
    requires Canonical(a) && a != []
    ensures Canonical(a[1..])
    ensures Free(a[1..], x) <==> Free(a, x) && !a[0].Holds(x)
  {
    if Free(a[1..], x) {
      var i :| 0 <= i < |a[1..]| && a[1..][i].Holds(x);
      assert a[i + 1].Holds(x);
    }
    if Free(a, x) && !a[0].Holds(x) {
      var i :| 0 <= i < |a| && a[i].Holds(x);
      assert a[1..][i - 1].Holds(x);
    }
  }

  /** The first segment of a starts no earlier than b's, and if they start together
      it is no longer. */
  lemma FirstSegment(a: seq<Segment>, b: seq<Segment>)
    requires Canonical(a) && Canonical(b) && a != [] && b != []
    requires forall x :: Free(a, x) <==> Free(b, x)
    ensures a[0].addr >= b[0].addr
    ensures a[0].addr == b[0].addr ==> a[0].End() <= b[0].End()
  {
    assert a[0].Holds(a[0].addr);
    assert Free(a, a[0].addr);
    var i :| 0 <= i < |b| && b[i].Holds(a[0].addr);
    if a[0].addr == b[0].addr && b[0].End() < a[0].End() {
      assert a[0].Holds(b[0].End());
      assert Free(a, b[0].End());
      var j :| 0 <= j < |b| && b[j].Holds(b[0].End());
      assert false;
    }
  }

  // ---- Freeing ----

  /** The first segment that starts after addr. */
  function After(segs: seq<Segment>, addr: int): (k: nat)
    ensures k <= |segs|
    ensures forall i :: 0 <= i < k ==> segs[i].addr <= addr
    ensures k < |segs| ==> segs[k].addr > addr
  {
    if segs == [] || segs[0].addr > addr then 0 else 1 + After(segs[1..], addr)
  }

  /** In the four predicates and functions below k is the first segment after addr. */
  predicate TouchesLeft(segs: seq<Segment>, k: nat, addr: int)
    requires k <= |segs|
  {
    k > 0 && segs[k - 1].End() >= addr
  }

  predicate TouchesRight(segs: seq<Segment>, k: nat, size: int, addr: int)
    requires k <= |segs|
  {
    k < |segs| && addr + size >= segs[k].addr
  }

  /** Overlap with a neighbour; the freeing protocol has broken down. */
  predicate OverlapsAt(segs: seq<Segment>, k: nat, size: int, addr: int)
    requires k <= |segs|
  {
    (k > 0 && segs[k - 1].End() > addr) || (k < |segs| && addr + size > segs[k].addr)
  }

  predicate Overlaps(segs: seq<Segment>, size: int, addr: int) {
    OverlapsAt(segs, After(segs, addr), size, addr)
  }

  /** Segments from..to - 1 replaced by one. */
  function Spliced(segs: seq<Segment>, from: nat, to: nat, one: Segment): seq<Segment>
    requires from <= to <= |segs|
  {
    segs[..from] + [one] + segs[to..]
  }

  /** The map with [addr, addr + size) added, joined to its neighbours. */
  function Released(segs: seq<Segment>, size: int, addr: int): seq<Segment> {
    ReleasedAt(segs, After(segs, addr), size, addr)
  }

  function ReleasedAt(segs: seq<Segment>, k: nat, size: int, addr: int): seq<Segment>
    requires k <= |segs|
  {
    if TouchesLeft(segs, k, addr) then
      if TouchesRight(segs, k, size, addr) then
        Spliced(segs, k - 1, k + 1, Segment(segs[k - 1].size + size + segs[k].size, segs[k - 1].addr))
      else Spliced(segs, k - 1, k, Segment(segs[k - 1].size + size, segs[k - 1].addr))
    else if TouchesRight(segs, k, size, addr) then
      Spliced(segs, k, k + 1, Segment(segs[k].size + size, segs[k].addr - size))
    else Spliced(segs, k, k, Segment(size, addr))
  }

  lemma SplicedCanonical(segs: seq<Segment>, from: nat, to: nat, one: Segment)
    requires Canonical(segs) && from <= to <= |segs| && one.size > 0 && one.addr > 0
    requires from > 0 ==> segs[from - 1].End() < one.addr
    requires to < |segs| ==> one.End() < segs[to].addr
    ensures Canonical(Spliced(segs, from, to, one))
  {
    var r := Spliced(segs, from, to, one);
    assert forall i :: 0 <= i < from ==> r[i] == segs[i] && r[i].End() <= segs[from - 1].End();
    assert forall i :: from < i < |r| ==> r[i] == segs[i - 1 - from + to] && segs[to].addr <= r[i].addr;
  }

  lemma SplicedFree(segs: seq<Segment>, from: nat, to: nat, one: Segment, x: int)
    requires from <= to <= |segs|
    requires forall i :: from <= i < to && segs[i].Holds(x) ==> one.Holds(x)
    ensures Free(Spliced(segs, from, to, one), x) <==> Free(segs, x) || one.Holds(x)
  {
    var r := Spliced(segs, from, to, one);
    if Free(r, x) {
      var i :| 0 <= i < |r| && r[i].Holds(x);
      assert i < from ==> segs[i].Holds(x);
      assert i > from ==> segs[i - 1 - from + to].Holds(x);
    }
    if one.Holds(x) {
      assert r[from].Holds(x);
    } else if Free(segs, x) {
      var i :| 0 <= i < |segs| && segs[i].Holds(x);
      assert i < from ==> r[i].Holds(x);
      assert i >= to ==> r[i + 1 + from - to].Holds(x);
    }
  }

  /** A free range overlaps the map exactly when some unit of it is free already. */
  lemma OverlapsIsNotDisjoint(segs: seq<Segment>, size: int, addr: int)
    requires Canonical(segs) && size > 0
    ensures Overlaps(segs, size, addr) <==> !Disjoint(segs, size, addr)
  {
    var k := After(segs, addr);
    if k > 0 && segs[k - 1].End() > addr {
      assert segs[k - 1].Holds(addr);
      assert Free(segs, addr);
    }
    if k < |segs| && addr + size > segs[k].addr {
      assert segs[k].Holds(segs[k].addr);
      assert Free(segs, segs[k].addr);
    }
    if !Disjoint(segs, size, addr) {
      var x :| addr <= x < addr + size && Free(segs, x);
      var i :| 0 <= i < |segs| && segs[i].Holds(x);
      if i < k {
        assert segs[i].End() <= segs[k - 1].End();
      } else {
        assert segs[k].addr <= segs[i].addr;
      }
    }
  }

  /** Where a freed range goes: it replaces segments from..to - 1, which it touches. */
  ghost predicate Goes(segs: seq<Segment>, size: int, addr: int, from: nat, to: nat, one: Segment) {
    && from <= to <= |segs| && one.size > 0 && one.addr > 0
    && one.addr <= addr && addr + size <= one.End()
    && (from > 0 ==> segs[from - 1].End() < one.addr)
    && (to < |segs| ==> one.End() < segs[to].addr)
    && (forall i :: from <= i < to ==> one.addr <= segs[i].addr && segs[i].End() <= one.End())
    && (one.addr < addr ==> from < to && one.addr == segs[from].addr && segs[from].End() == addr)
    && (addr + size < one.End() ==> from < to && one.End() == segs[to - 1].End() && segs[to - 1].addr == addr + size)
  }

  lemma ReleasedGoes(segs: seq<Segment>, k: nat, size: int, addr: int) returns (from: nat, to: nat, one: Segment)
    requires size > 0 && addr > 0 && k <= |segs|
    requires k > 0 ==> segs[k - 1].size > 0 && 0 < segs[k - 1].addr <= addr
    requires k < |segs| ==> segs[k].size > 0 && segs[k].addr > addr
    requires k > 1 ==> segs[k - 2].End() < segs[k - 1].addr
    requires k + 1 < |segs| ==> segs[k].End() < segs[k + 1].addr
    requires 0 < k < |segs| ==> segs[k - 1].End() < segs[k].addr
    requires !OverlapsAt(segs, k, size, addr)
    ensures Goes(segs, size, addr, from, to, one) && ReleasedAt(segs, k, size, addr) == Spliced(segs, from, to, one)
  {
    if TouchesLeft(segs, k, addr) {
      if TouchesRight(segs, k, size, addr) {
        from, to, one := k - 1, k + 1, Segment(segs[k - 1].size + size + segs[k].size, segs[k - 1].addr);
      } else {
        from, to, one := k - 1, k, Segment(segs[k - 1].size + size, segs[k - 1].addr);
      }
    } else if TouchesRight(segs, k, size, addr) {
      from, to, one := k, k + 1, Segment(segs[k].size + size, segs[k].addr - size);
    } else {
      from, to, one := k, k, Segment(size, addr);
    }
  }

  /** Freeing adds exactly the freed range and keeps the map canonical. */
  lemma ReleasedFrees(segs: seq<Segment>, size: int, addr: int)
    requires Canonical(segs) && size > 0 && addr > 0 && !Overlaps(segs, size, addr)
    ensures Canonical(Released(segs, size, addr))
    ensures forall x :: Free(Released(segs, size, addr), x) <==> Free(segs, x) || addr <= x < addr + size
  {
    var from, to, one := ReleasedGoes(segs, After(segs, addr), size, addr);
    SplicedCanonical(segs, from, to, one);
    forall x
      ensures Free(Released(segs, size, addr), x) <==> Free(segs, x) || addr <= x < addr + size
    {
      SplicedFree(segs, from, to, one, x);
      GoesAt(segs, size, addr, from, to, one, x);
    }
  }

  /** What the new segment holds beyond the freed range was free before. */
  lemma GoesAt(segs: seq<Segment>, size: int, addr: int, from: nat, to: nat, one: Segment, x: int)
    requires Goes(segs, size, addr, from, to, one)
    ensures one.Holds(x) && !(addr <= x < addr + size) ==> Free(segs, x)
  {
    if one.addr <= x < addr {
      assert segs[from].Holds(x);
    } else if addr + size <= x < one.End() {
      assert segs[to - 1].Holds(x);
    }
  }

  /** What rmfree does: it may refuse, and a map with no slot left loses a segment. */
  datatype FreeResult = FreeResult(bad: bool, lost: bool, segs: seq<Segment>)

  /** The map without the smaller of its last two segments. */
  function DropSmaller(segs: seq<Segment>): seq<Segment>
    requires |segs| >= 2
  {
    var n := |segs|;
    if segs[n - 1].size > segs[n - 2].size then segs[..n - 2] + [segs[n - 1]] else segs[..n - 1]
  }

  function FreeInto(segs: seq<Segment>, limit: nat, size: int, addr: int): FreeResult
    requires 2 <= limit && |segs| <= limit
  {
    if addr <= 0 || size <= 0 then FreeResult(true, false, segs)
    else if TouchesNothing(segs, After(segs, addr), size, addr) && |segs| == limit then
      FreeResult(false, true, Released(DropSmaller(segs), size, addr))
    else FreeAt(segs, After(segs, addr), size, addr)
  }

  predicate TouchesNothing(segs: seq<Segment>, k: nat, size: int, addr: int)
    requires k <= |segs|
  {
    !TouchesLeft(segs, k, addr) && !TouchesRight(segs, k, size, addr)
  }

  function FreeAt(segs: seq<Segment>, k: nat, size: int, addr: int): FreeResult
    requires k <= |segs|
  {
    if !OverlapsAt(segs, k, size, addr) then FreeResult(false, false, ReleasedAt(segs, k, size, addr))
    else if k > 0 && segs[k - 1].End() == addr then
      FreeResult(true, false, segs[k - 1 := Segment(segs[k - 1].size + size, segs[k - 1].addr)])
    else FreeResult(true, false, segs)
  }

  /** A free is refused exactly when it is malformed or some unit of it is free
      already.  A refused free leaves the map alone unless it abuts the segment on
      its left: then that segment grows over the one on its right. */
  lemma RefusedExactly(segs: seq<Segment>, limit: nat, size: int, addr: int)
    requires 2 <= limit && |segs| <= limit && Canonical(segs)
    ensures FreeInto(segs, limit, size, addr).bad <==> addr <= 0 || size <= 0 || !Disjoint(segs, size, addr)
    ensures FreeInto(segs, limit, size, addr).bad ==>
      (FreeInto(segs, limit, size, addr).segs == segs <==>
       !(addr > 0 && size > 0 && exists i :: 0 <= i < |segs| && segs[i].End() == addr))
  {
    var k := After(segs, addr);
    if addr > 0 && size > 0 {
      OverlapsIsNotDisjoint(segs, size, addr);
      if i :| 0 <= i < |segs| && segs[i].End() == addr {
        EndsAt(segs, k, i, addr);
      }
    }
  }

  /** For example: the units 1, 2 and 4 to 8 are free, and 3 and 4 are freed.  The free is refused, and
      the first segment has grown into the second. */
  lemma RefusedButChanged()
    ensures var segs, now := [Segment(2, 1), Segment(5, 4)], [Segment(4, 1), Segment(5, 4)];
      Canonical(segs) && FreeInto(segs, 2, 2, 3) == FreeResult(true, false, now) && !Canonical(now)
  {
    var segs, now := [Segment(2, 1), Segment(5, 4)], [Segment(4, 1), Segment(5, 4)];
    assert segs[1..][1..] == [];
    assert After(segs, 3) == 1;
    assert now[0].End() >= now[1].addr;
  }

  /** An accepted free with a slot to spare adds exactly the freed range. */
  lemma FreeAddsRange(segs: seq<Segment>, limit: nat, size: int, addr: int)
    requires 2 <= limit && |segs| <= limit && Canonical(segs)
    ensures var r := FreeInto(segs, limit, size, addr);
      !r.bad && !r.lost ==>
        && Canonical(r.segs) && |r.segs| <= limit
        && forall x :: Free(r.segs, x) <==> Free(segs, x) || addr <= x < addr + size
  {
    var r := FreeInto(segs, limit, size, addr);
    if !r.bad && !r.lost {
      ReleasedFrees(segs, size, addr);
    }
  }

  lemma EndsAt(segs: seq<Segment>, k: nat, i: nat, addr: int)
    requires Canonical(segs) && i < |segs| && segs[i].End() == addr && k == After(segs, addr)
    ensures k == i + 1
  {
    assert segs[i].size > 0;
    assert i + 1 < |segs| ==> segs[i].End() < segs[i + 1].addr;
  }

  /** The segment a map with no slot left gives up. */
  function LostSegment(segs: seq<Segment>): Segment
    requires |segs| >= 2
  {
    var n := |segs|;
    if segs[n - 1].size > segs[n - 2].size then segs[n - 2] else segs[n - 1]
  }

  /** A free that finds no slot loses one segment and nothing else. */
  lemma FreeLosesSegment(segs: seq<Segment>, limit: nat, size: int, addr: int)
    requires 2 <= limit && |segs| <= limit && Canonical(segs)
    ensures var r := FreeInto(segs, limit, size, addr);
      r.lost ==>
        && Canonical(r.segs) && |segs| == |r.segs| == limit
        && forall x :: Free(r.segs, x) <==> (Free(segs, x) && !LostSegment(segs).Holds(x)) || addr <= x < addr + size
  {
    if FreeInto(segs, limit, size, addr).lost {
      DropFree(segs);
      AfterDrop(segs, After(segs, addr), After(DropSmaller(segs), addr), size, addr);
      ReleasedFrees(DropSmaller(segs), size, addr);
    }
  }

  lemma DropFree(segs: seq<Segment>)
    requires |segs| >= 2 && Canonical(segs)
    ensures Canonical(DropSmaller(segs))
    ensures forall x :: Free(DropSmaller(segs), x) <==> Free(segs, x) && !LostSegment(segs).Holds(x)
  {
    var n := |segs|;
    var d := DropSmaller(segs);
    var gone := if segs[n - 1].size > segs[n - 2].size then n - 2 else n - 1;
    forall x
      ensures Free(d, x) <==> Free(segs, x) && !LostSegment(segs).Holds(x)
    {
      if Free(d, x) {
        var i :| 0 <= i < |d| && d[i].Holds(x);
        var j := if i == n - 2 then (if gone == n - 2 then n - 1 else n - 2) else i;
        assert segs[j].Holds(x);
      }
      if Free(segs, x) && !LostSegment(segs).Holds(x) {
        var i :| 0 <= i < |segs| && segs[i].Holds(x);
        assert d[if i == n - 1 then n - 2 else i].Holds(x);
      }
    }
  }

  /** Dropping a segment cannot make a free touch anything new. */
  lemma AfterDrop(segs: seq<Segment>, k: nat, k': nat, size: int, addr: int)
    requires |segs| >= 2 && Canonical(segs)
    requires k == After(segs, addr) && k' == After(DropSmaller(segs), addr)
    requires TouchesNothing(segs, k, size, addr)
    ensures TouchesNothing(DropSmaller(segs), k', size, addr)
  {
    AfterDropLeft(segs, k, k', addr);
    AfterDropRight(segs, k, k', size, addr);
  }

  lemma AfterDropLeft(segs: seq<Segment>, k: nat, k': nat, addr: int)
    requires |segs| >= 2 && Canonical(segs)
    requires k == After(segs, addr) && k' == After(DropSmaller(segs), addr)
    requires !TouchesLeft(segs, k, addr)
    ensures !TouchesLeft(DropSmaller(segs), k', addr)
  {
    if k' > 0 {
      var j := KeptFrom(segs, k' - 1);
      assert j < k && (j == k - 1 || segs[j].End() < segs[k - 1].addr);
    }
  }

  lemma AfterDropRight(segs: seq<Segment>, k: nat, k': nat, size: int, addr: int)
    requires |segs| >= 2 && Canonical(segs)
    requires k == After(segs, addr) && k' == After(DropSmaller(segs), addr)
    requires !TouchesRight(segs, k, size, addr)
    ensures !TouchesRight(DropSmaller(segs), k', size, addr)
  {
    if k' < |DropSmaller(segs)| {
      var j := KeptFrom(segs, k');
      assert j >= k && (j == k || segs[k].End() < segs[j].addr);
    }
  }

  lemma KeptFrom(segs: seq<Segment>, i: nat) returns (j: nat)
    requires |segs| >= 2 && i < |segs| - 1
    ensures j < |segs| && segs[j] == DropSmaller(segs)[i]
  {
    j := if DropSmaller(segs)[i] == segs[i] then i else |segs| - 1;
  }

  // ---- Allocating ----

  /** dmmax bounds a request and is the stripe of interleaved devices; addresses
      that are not multiples of cluster read as failure. */
  datatype Geometry = Geometry(dmmax: int, interleaved: bool, cluster: int) {
    predicate Valid() { dmmax > 0 && cluster > 0 }

    /** Units from the start of the segment to the next stripe boundary. */
    function First(e: Segment): int
      requires Valid()
    {
      dmmax - e.addr % dmmax
    }

    predicate Crosses(e: Segment)
      requires Valid()
    {
      interleaved && First(e) < e.size
    }

    predicate Usable(e: Segment, size: int)
      requires Valid()
    {
      e.size >= size && (Crosses(e) ==> e.size - First(e) >= size)
    }

    /** Where the allocation in a usable segment starts. */
    function Start(e: Segment): int
      requires Valid()
    {
      if Crosses(e) then e.addr + First(e) else e.addr
    }

    predicate Straddles(size: int, addr: int)
      requires Valid()
    {
      addr / dmmax != (addr + size - 1) / dmmax
    }
  }

  function FirstUsable(g: Geometry, segs: seq<Segment>, size: int): (i: nat)
    requires g.Valid()
    ensures i <= |segs| && (i < |segs| ==> g.Usable(segs[i], size))
    ensures forall k :: 0 <= k < i ==> !g.Usable(segs[k], size)
  {
    if segs == [] || g.Usable(segs[0], size) then 0 else 1 + FirstUsable(g, segs[1..], size)
  }

  datatype TakeResult = TakeResult(addr: int, lost: bool, segs: seq<Segment>)

  /** What rmalloc does. */
  function Take(g: Geometry, segs: seq<Segment>, limit: nat, size: int): TakeResult
    requires g.Valid() && 2 <= limit && |segs| <= limit
  {
    if size <= 0 || size > g.dmmax || FirstUsable(g, segs, size) == |segs| then TakeResult(0, false, segs)
    else
      var i := FirstUsable(g, segs, size);
      TakeAt(segs, limit, size, i, g.Crosses(segs[i]), g.Start(segs[i]), g.cluster)
  }

  /** Allocating in segment i: from its front, or past the stripe boundary at a. */
  function TakeAt(segs: seq<Segment>, limit: nat, size: int, i: nat, crosses: bool, a: int, cluster: int): TakeResult
    requires 2 <= limit && |segs| <= limit && i < |segs| && cluster > 0
  {
    if crosses then TakePast(segs, limit, size, i, a)
    else TakeResult(if a % cluster != 0 then 0 else a, false, FrontTaken(segs, i, size))
  }

  function FrontTaken(segs: seq<Segment>, i: nat, size: int): seq<Segment>
    requires i < |segs|
  {
    var e := segs[i];
    if e.size == size then segs[..i] + segs[i + 1..] else segs[i := Segment(e.size - size, e.addr + size)]
  }

  /** Taking [a, a + size) out of the middle or the end of segment i. */
  function TakePast(segs: seq<Segment>, limit: nat, size: int, i: nat, a: int): TakeResult
    requires 2 <= limit && |segs| <= limit && i < |segs|
  {
    var e := segs[i];
    var cut := segs[i := Segment(a - e.addr, e.addr)];
    if e.End() == a + size then TakeResult(a, false, cut)
    else
      var r := FreeInto(cut, limit, e.End() - (a + size), a + size);
      TakeResult(a, r.lost, r.segs)
  }

  /** cut holds what segs does, except that of segment i only one is left. */
  ghost predicate CutTo(segs: seq<Segment>, cut: seq<Segment>, i: nat, one: Segment)
    requires i < |segs|
  {
    forall x :: Free(cut, x) <==> Free(segs, x) && (segs[i].Holds(x) ==> one.Holds(x))
  }

  /** A piece cut out of a segment: removing or shrinking segment i. */
  lemma CutCanonical(segs: seq<Segment>, i: nat, one: Segment)
    requires Canonical(segs) && i < |segs| && one.size > 0
    requires segs[i].addr <= one.addr && one.End() <= segs[i].End()
    ensures Canonical(segs[i := one])
    ensures CutTo(segs, segs[i := one], i, one)
  {
    var r := segs[i := one];
    forall x
      ensures Free(r, x) <==> Free(segs, x) && (segs[i].Holds(x) ==> one.Holds(x))
    {
      if Free(r, x) {
        var j :| 0 <= j < |r| && r[j].Holds(x);
        assert segs[j].Holds(x);
        if segs[i].Holds(x) {
          OnlyOne(segs, i, j, x);
        }
      }
      if Free(segs, x) && (segs[i].Holds(x) ==> one.Holds(x)) {
        var j :| 0 <= j < |segs| && segs[j].Holds(x);
        assert r[j].Holds(x);
      }
    }
  }

  lemma RemoveCanonical(segs: seq<Segment>, i: nat)
    requires Canonical(segs) && i < |segs|
    ensures Canonical(segs[..i] + segs[i + 1..])
    ensures forall x :: Free(segs[..i] + segs[i + 1..], x) <==> Free(segs, x) && !segs[i].Holds(x)
  {
    var r := segs[..i] + segs[i + 1..];
    assert forall j :: 0 <= j < i ==> r[j] == segs[j];
    assert forall j :: i <= j < |r| ==> r[j] == segs[j + 1];
    forall x
      ensures Free(r, x) <==> Free(segs, x) && !segs[i].Holds(x)
    {
      RemoveAt(segs, r, i, x);
    }
  }

  lemma RemoveAt(segs: seq<Segment>, r: seq<Segment>, i: nat, x: int)
    requires Canonical(segs) && i < |segs| && |r| == |segs| - 1
    requires forall j :: 0 <= j < i ==> r[j] == segs[j]
    requires forall j :: i <= j < |r| ==> r[j] == segs[j + 1]
    ensures Free(r, x) <==> Free(segs, x) && !segs[i].Holds(x)
  {
    if Free(r, x) {
      var j :| 0 <= j < |r| && r[j].Holds(x);
      var k := if j < i then j else j + 1;
      assert segs[k].Holds(x);
      if segs[i].Holds(x) {
        OnlyOne(segs, i, k, x);
      }
    }
    if Free(segs, x) && !segs[i].Holds(x) {
      var j :| 0 <= j < |segs| && segs[j].Holds(x);
      assert r[if j < i then j else j - 1].Holds(x);
    }
  }

  lemma OnlyOne(segs: seq<Segment>, i: int, j: int, x: int)
    requires Canonical(segs) && 0 <= i < |segs| && 0 <= j < |segs| && segs[i].Holds(x) && segs[j].Holds(x)
    ensures i == j
  {
  }

  /** A successful allocation takes exactly [start, start + size) out of the free
      set, unless the map was full and lost a segment. */
  lemma TakeRemovesRange(g: Geometry, segs: seq<Segment>, limit: nat, size: int)
    requires g.Valid() && 2 <= limit && |segs| <= limit && Canonical(segs)
    requires 0 < size <= g.dmmax && FirstUsable(g, segs, size) < |segs|
    ensures Removes(segs, limit, size, g.Start(segs[FirstUsable(g, segs, size)]), Take(g, segs, limit, size))
  {
    var i := FirstUsable(g, segs, size);
    Stripes(g, segs[i], size);
    TakeAtLaw(segs, limit, size, i, g.Crosses(segs[i]), g.Start(segs[i]), g.cluster);
  }

  lemma TakeAtLaw(segs: seq<Segment>, limit: nat, size: int, i: nat, crosses: bool, a: int, cluster: int)
    requires 2 <= limit && |segs| <= limit && Canonical(segs) && i < |segs| && cluster > 0
    requires size > 0 && segs[i].addr <= a && a + size <= segs[i].End()
    requires crosses <==> segs[i].addr < a
    ensures Removes(segs, limit, size, a, TakeAt(segs, limit, size, i, crosses, a, cluster))
  {
    if crosses {
      TakePastLaw(segs, limit, size, i, a, TakeAt(segs, limit, size, i, crosses, a, cluster));
    } else {
      TakeFront(segs, i, size);
      assert |FrontTaken(segs, i, size)| <= |segs|;
    }
  }

  ghost predicate Removes(segs: seq<Segment>, limit: nat, size: int, a: int, r: TakeResult) {
    && Canonical(r.segs) && |r.segs| <= limit
    && (!r.lost ==> forall x :: Free(r.segs, x) <==> Free(segs, x) && !(a <= x < a + size))
    && (forall x :: Free(r.segs, x) ==> Free(segs, x) && !(a <= x < a + size))
  }

  /** What is allocated was free, and never straddles a stripe boundary of
      interleaved devices. */
  lemma TakeWasFree(g: Geometry, segs: seq<Segment>, size: int)
    requires g.Valid() && Canonical(segs) && 0 < size <= g.dmmax && FirstUsable(g, segs, size) < |segs|
    ensures var a := g.Start(segs[FirstUsable(g, segs, size)]);
      && a > 0
      && RunFree(segs, size, a)
      && (g.interleaved ==> !g.Straddles(size, a))
  {
    var e := segs[FirstUsable(g, segs, size)];
    Stripes(g, e, size);
    forall x | g.Start(e) <= x < g.Start(e) + size
      ensures Free(segs, x)
    {
      assert e.Holds(x);
    }
  }

  /** Allocating from the front of a segment. */
  lemma TakeFront(segs: seq<Segment>, i: nat, size: int)
    requires Canonical(segs) && i < |segs| && 0 < size <= segs[i].size
    ensures var e := segs[i];
      var r := FrontTaken(segs, i, size);
      Canonical(r) && forall x :: Free(r, x) <==> Free(segs, x) && !(e.addr <= x < e.addr + size)
  {
    var e := segs[i];
    if e.size == size {
      RemoveCanonical(segs, i);
      var r := segs[..i] + segs[i + 1..];
      forall x
        ensures Free(r, x) <==> Free(segs, x) && !(e.addr <= x < e.addr + size)
      {
        assert e.Holds(x) <==> e.addr <= x < e.addr + size;
      }
    } else {
      var one := Segment(e.size - size, e.addr + size);
      CutCanonical(segs, i, one);
      forall x
        ensures Free(segs[i := one], x) <==> Free(segs, x) && !(e.addr <= x < e.addr + size)
      {
        assert e.Holds(x) ==> (one.Holds(x) <==> !(e.addr <= x < e.addr + size));
      }
    }
  }

  /** An allocation stays within one stripe. */
  lemma Stripes(g: Geometry, e: Segment, size: int)
    requires g.Valid() && e.addr > 0 && 0 < size <= g.dmmax && g.Usable(e, size)
    ensures g.Start(e) > 0 && g.Start(e) + size <= e.End() && g.Start(e) >= e.addr
    ensures g.Crosses(e) <==> e.addr < g.Start(e)
    ensures g.interleaved ==> !g.Straddles(size, g.Start(e))
  {
    var q, m := e.addr / g.dmmax, e.addr % g.dmmax;
    assert e.addr == q * g.dmmax + m;
    if g.Crosses(e) {
      assert g.Start(e) == (q + 1) * g.dmmax;
      DivisionIs(g.Start(e), g.dmmax, q + 1);
      DivisionIs(g.Start(e) + size - 1, g.dmmax, q + 1);
    } else if g.interleaved {
      DivisionIs(e.addr, g.dmmax, q);
      DivisionIs(e.addr + size - 1, g.dmmax, q);
    }
  }

  lemma DivisionIs(x: int, d: int, q: int)
    requires d > 0 && q * d <= x < (q + 1) * d
    ensures x / d == q
  {
    var r := x / d;
    assert r * d <= x < (r + 1) * d;
    if r < q {
      Monotone(r + 1, q, d);
    } else if r > q {
      Monotone(q + 1, r, d);
    }
  }

  lemma Monotone(a: int, b: int, d: int)
    requires a <= b && d > 0
    ensures a * d <= b * d
  {
  }

  /** The segment is cut at a; what lies past a + size, if anything, is freed again. */
  lemma CutOnly(segs: seq<Segment>, limit: nat, i: nat, a: int, size: int)
    requires Canonical(segs) && |segs| <= limit
    requires i < |segs| && size > 0 && segs[i].addr < a && a + size == segs[i].End()
    ensures var cut := segs[i := Segment(a - segs[i].addr, segs[i].addr)];
      Removes(segs, limit, size, a, TakeResult(a, false, cut))
  {
    var one := Segment(a - segs[i].addr, segs[i].addr);
    CutCanonical(segs, i, one);
    AcrossSets(segs, segs[i := one], limit, FreeResult(false, false, segs[i := one]), i, a, size);
  }

  /** Allocating past a stripe boundary. */
  lemma TakePastLaw(segs: seq<Segment>, limit: nat, size: int, i: nat, a: int, t: TakeResult)
    requires 2 <= limit && |segs| <= limit && Canonical(segs)
    requires i < |segs| && size > 0 && segs[i].addr < a && a + size <= segs[i].End()
    requires t == TakePast(segs, limit, size, i, a)
    ensures Removes(segs, limit, size, a, t) && t.addr == a
  {
    var cut := segs[i := Segment(a - segs[i].addr, segs[i].addr)];
    var rest := segs[i].End() - (a + size);
    if rest == 0 {
      assert t == TakeResult(a, false, cut);
      CutOnly(segs, limit, i, a, size);
    } else {
      var f := FreeInto(cut, limit, rest, a + size);
      assert t == TakeResult(a, f.lost, f.segs);
      CutAndFree(segs, cut, limit, size, i, a, rest, f);
    }
  }

  lemma CutAndFree(segs: seq<Segment>, cut: seq<Segment>, limit: nat, size: int, i: nat, a: int, rest: int, f: FreeResult)
    requires 2 <= limit && |segs| <= limit && Canonical(segs)
    requires i < |segs| && size > 0 && segs[i].addr < a && rest == segs[i].End() - (a + size) && rest > 0
    requires cut == segs[i := Segment(a - segs[i].addr, segs[i].addr)]
    requires f == FreeInto(cut, limit, rest, a + size)
    ensures Removes(segs, limit, size, a, TakeResult(a, f.lost, f.segs))
  {
    CutCanonical(segs, i, Segment(a - segs[i].addr, segs[i].addr));
    assert i + 1 < |cut| ==> a + size + rest < cut[i + 1].addr;
    RestLaw(cut, limit, rest, i, a + size, f);
    AcrossSets(segs, cut, limit, f, i, a, size);
  }

  lemma RestLaw(cut: seq<Segment>, limit: nat, rest: int, i: nat, addr: int, f: FreeResult)
    requires 2 <= limit && |cut| <= limit && Canonical(cut) && i < |cut| && rest > 0 && cut[i].End() < addr && addr > 0
    requires i + 1 < |cut| ==> addr + rest < cut[i + 1].addr
    requires f == FreeInto(cut, limit, rest, addr)
    ensures Canonical(f.segs) && |f.segs| <= limit && Adds(cut, rest, addr, f)
  {
    AfterCut(cut, i, limit, rest, addr);
    FreeLaw(cut, limit, rest, addr);
  }

  /** r frees [addr, addr + size), and loses other space only if it says so. */
  ghost predicate Adds(segs: seq<Segment>, size: int, addr: int, r: FreeResult) {
    && (!r.lost ==> forall x :: Free(r.segs, x) <==> Free(segs, x) || addr <= x < addr + size)
    && (forall x :: Free(r.segs, x) ==> Free(segs, x) || addr <= x < addr + size)
  }

  /** An accepted free, with or without a slot to spare. */
  lemma FreeLaw(segs: seq<Segment>, limit: nat, size: int, addr: int)
    requires 2 <= limit && |segs| <= limit && Canonical(segs) && !FreeInto(segs, limit, size, addr).bad
    ensures var r := FreeInto(segs, limit, size, addr);
      Canonical(r.segs) && |r.segs| <= limit && Adds(segs, size, addr, r)
  {
    if FreeInto(segs, limit, size, addr).lost {
      FreeLosesSegment(segs, limit, size, addr);
    } else {
      FreeAddsRange(segs, limit, size, addr);
    }
  }

  lemma AcrossSets(segs: seq<Segment>, cut: seq<Segment>, limit: nat, f: FreeResult, i: nat, a: int, size: int)
    requires i < |segs| && segs[i].addr < a && size > 0 && a + size <= segs[i].End()
    requires CutTo(segs, cut, i, Segment(a - segs[i].addr, segs[i].addr))
    requires Canonical(f.segs) && |f.segs| <= limit && Adds(cut, segs[i].End() - (a + size), a + size, f)
    ensures Removes(segs, limit, size, a, TakeResult(a, f.lost, f.segs))
  {
    forall x
      ensures !f.lost ==> (Free(f.segs, x) <==> Free(segs, x) && !(a <= x < a + size))
      ensures Free(f.segs, x) ==> Free(segs, x) && !(a <= x < a + size)
    {
      AcrossAt(segs, i, a, size, x);
    }
  }

  lemma AcrossAt(segs: seq<Segment>, i: nat, a: int, size: int, x: int)
    requires i < |segs| && segs[i].addr < a && size > 0 && a + size <= segs[i].End()
    ensures (Free(segs, x) && (segs[i].Holds(x) ==> Segment(a - segs[i].addr, segs[i].addr).Holds(x)))
            || a + size <= x < segs[i].End()
            <==> Free(segs, x) && !(a <= x < a + size)
  {
    if segs[i].Holds(x) {
      assert Free(segs, x);
    }
  }

  lemma AfterCut(cut: seq<Segment>, i: nat, limit: nat, size: int, addr: int)
    requires Canonical(cut) && i < |cut| && cut[i].End() < addr && size > 0 && addr > 0
    requires i + 1 < |cut| ==> addr + size < cut[i + 1].addr
    requires 2 <= limit && |cut| <= limit
    ensures !FreeInto(cut, limit, size, addr).bad
  {
    assert cut[i].size > 0;
    assert After(cut, addr) == i + 1;
  }
}
