/** The file system's own totals, and the copies of each group's summary. */
module FileSystem {
  import opened FragMap
  import opened CylCounts
  import opened CylGroup

  const NONE := Csum(0, 0, 0)

  function Sum(cs: seq<Csum>): Csum {
    if cs == [] then NONE else Plus(Sum(cs[..|cs| - 1]), cs[|cs| - 1])
  }

  function SpaceOf(c: Csum, frag: nat): int {
    c.nbfree * frag + c.nffree
  }

  lemma SpaceOfPlus(a: Csum, b: Csum, frag: nat)
    ensures SpaceOf(Plus(a, b), frag) == SpaceOf(a, frag) + SpaceOf(b, frag)
  {
  }

  /** Changing the first summary changes the sum by the difference. */
  lemma {:induction false} SumFirst(cs: seq<Csum>, c: Csum, change: Csum)
    requires cs != [] && c == Plus(cs[0], change)
    ensures Sum(cs[0 := c]) == Plus(Sum(cs), change)
  {
    var cs' := cs[0 := c];
    if |cs| == 1 {
      assert cs'[..0] == [] == cs[..0];
    } else {
      assert cs'[..|cs| - 1] == cs[..|cs| - 1][0 := c];
      SumFirst(cs[..|cs| - 1], c, change);
    }
  }

  /** The map shows the group's layout, and the summary says what the map says. */
  predicate MapOf(sh: Shape, n: nat, free: seq<bool>, e: Extent, c: Csum) {
    && |free| == n * sh.frag
    && (forall i :: 0 <= i < |free| ==> (free[i] <==> Avail(e, i)))
    && c.nbfree == Total(sh, Whole, free, n)
    && c.nffree == Total(sh, Loose, free, n)
  }

  lemma MapSpace(sh: Shape, n: nat, free: seq<bool>, e: Extent, c: Csum)
    requires MapOf(sh, n, free, e, c) && e.lower <= e.upper <= e.end <= |free|
    ensures SpaceOf(c, sh.frag) == Size(e)
  {
    TotalsAreAllFree(sh, free, n);
    CountAvail(e, free, |free|);
  }

  /** The totals over all groups are the data size of the file system. */
  lemma {:induction false} SpaceIsDataSize(sh: Shape, n: nat, maps: seq<seq<bool>>, layout: seq<Extent>, cs: seq<Csum>)
    requires |maps| == |layout| == |cs|
    requires forall i :: 0 <= i < |layout| ==> layout[i].lower <= layout[i].upper <= layout[i].end <= n * sh.frag
    requires forall i :: 0 <= i < |layout| ==> MapOf(sh, n, maps[i], layout[i], cs[i])
    ensures SpaceOf(Sum(cs), sh.frag) == SizeOf(layout)
  {
    if cs != [] {
      var k := |cs| - 1;
      SpaceIsDataSize(sh, n, maps[..k], layout[..k], cs[..k]);
      MapSpace(sh, n, maps[k], layout[k], cs[k]);
      SpaceOfPlus(Sum(cs[..k]), cs[k], sh.frag);
    }
  }

  /** A charge lowers the space by exactly the fragments used. */
  lemma ChargeLowers(c: Csum, frag: nat, used: nat, isDir: bool)
    ensures SpaceOf(Plus(c, Charge(frag, used, isDir)), frag) == SpaceOf(c, frag) - used
  {
    SpaceOfPlus(c, Charge(frag, used, isDir), frag);
  }

  function SizeOf(layout: seq<Extent>): int {
    if layout == [] then 0 else SizeOf(layout[..|layout| - 1]) + Size(layout[|layout| - 1])
  }

  /** howmany(x, y) */
  function HowMany(x: nat, y: nat): (n: nat)
    requires y > 0
    ensures x <= n * y < x + y
  {
    (x + y - 1) / y
  }

  lemma HowManyFits(size: nat, fsize: nat, frag: nat)
    requires fsize > 0 && 0 < size <= frag * fsize
    ensures 0 < HowMany(size, fsize) <= frag
    ensures size == frag * fsize ==> HowMany(size, fsize) == frag
  {
    var n := HowMany(size, fsize);
    if n > frag {
      MulMono(frag + 1, n, fsize);
    } else if n < frag {
      MulMono(n + 1, frag, fsize);
    }
  }

  predicate Fits(e: Extent, frag: nat, room: nat)
  {
    frag in {1, 2, 4, 8} && e.lower % frag == 0 && e.lower <= e.upper && RoundUp(e.upper, frag) <= e.end <= room
  }

  /** Something to store in the first group. */
  datatype Request = Request(size: nat, isDir: bool)

  datatype Outcome = Stored(d: nat) | NoSpace

  /** What the stored ones of these requests take. */
  function Used(reqs: seq<Request>, outs: seq<Outcome>, fsize: nat): nat
    requires |reqs| == |outs| && fsize > 0
  {
    if reqs == [] then 0
    else
      var k := |reqs| - 1;
      Used(reqs[..k], outs[..k], fsize) + if outs[k].Stored? then HowMany(reqs[k].size, fsize) else 0
  }

  lemma UsedNext(reqs: seq<Request>, outs: seq<Outcome>, fsize: nat, k: nat, out: Outcome)
    requires |outs| == k < |reqs| && fsize > 0
    ensures Used(reqs[..k + 1], outs + [out], fsize)
            == Used(reqs[..k], outs, fsize) + if out.Stored? then HowMany(reqs[k].size, fsize) else 0
  {
    assert reqs[..k + 1][..k] == reqs[..k] && (outs + [out])[..k] == outs;
  }

  // ---- What storing something does to the map ----

  /** All fragments of the block that begins at d are free. */
  predicate FreeBlock(free: seq<bool>, frag: nat, d: nat)
    requires frag > 0
  {
    d % frag == 0 && d + frag <= |free| && forall i :: d <= i < d + frag ==> free[i]
  }

  /** The first free block gives as many fragments as hold size bytes, if there is a free block. */
  ghost predicate Served(free: seq<bool>, frag: nat, fsize: nat, size: nat, out: Outcome, free': seq<bool>)
    requires frag > 0
  {
    match out
    case NoSpace => free' == free && forall d: nat :: !FreeBlock(free, frag, d)
    case Stored(d) =>
      && FreeBlock(free, frag, d) && (forall e: nat :: e < d ==> !FreeBlock(free, frag, e)) && |free'| == |free|
      && forall i :: 0 <= i < |free| ==> (free'[i] <==> free[i] && !(d <= i && (i - d) * fsize < size))
  }

  /** The requests are served one after the other: maps[k] is the map before request k. */
  ghost predicate AllServed(maps: seq<seq<bool>>, frag: nat, fsize: nat, reqs: seq<Request>, outs: seq<Outcome>)
    requires frag > 0
  {
    |maps| == |outs| + 1 && |outs| <= |reqs| &&
    forall k :: 0 <= k < |outs| ==> Served(maps[k], frag, fsize, reqs[k].size, outs[k], maps[k + 1])
  }

  lemma OneMoreServed(maps: seq<seq<bool>>, frag: nat, fsize: nat, reqs: seq<Request>, outs: seq<Outcome>, out: Outcome, now: seq<bool>)
    requires frag > 0 && AllServed(maps, frag, fsize, reqs, outs) && |outs| < |reqs|
    requires Served(maps[|outs|], frag, fsize, reqs[|outs|].size, out, now)
    ensures AllServed(maps + [now], frag, fsize, reqs, outs + [out])
  {
  }

  lemma FreeBlockIs(sh: Shape, free: seq<bool>, d: nat)
    requires sh.frag in {1, 2, 4, 8}
    ensures FreeBlock(free, sh.frag, d) <==> d % sh.frag == 0 && WholeBlock(sh, free, d / sh.frag)
  {
    if d % sh.frag == 0 {
      var h := d / sh.frag;
      assert d == h * sh.frag;
      if d + sh.frag <= |free| {
        var bits := BlockBits(free, sh.frag, h);
        assert forall i :: 0 <= i < sh.frag ==> bits[i] == free[d + i];
        assert forall i :: d <= i < d + sh.frag ==> free[i] == bits[i - d];
      }
    }
  }

  lemma NoneIsFree(sh: Shape, free: seq<bool>, n: nat)
    requires sh.frag in {1, 2, 4, 8} && n * sh.frag == |free| && Total(sh, Whole, free, n) == 0
    ensures forall d: nat :: !FreeBlock(free, sh.frag, d)
  {
    forall d: nat
      ensures !FreeBlock(free, sh.frag, d)
    {
      FreeBlockIs(sh, free, d);
      if FreeBlock(free, sh.frag, d) {
        var h := d / sh.frag;
        if h >= n {
          MulMono(n, h, sh.frag);
        }
        SomeWhole(sh, free, n, h);
      }
    }
  }

  lemma FirstIsServed(sh: Shape, free: seq<bool>, fsize: nat, size: nat, d: nat, free': seq<bool>)
    requires sh.frag in {1, 2, 4, 8} && fsize > 0 && 0 < size <= sh.frag * fsize
    requires d % sh.frag == 0 && FirstWhole(sh, free, d / sh.frag) && Taken(free, d, HowMany(size, fsize), free')
    ensures Served(free, sh.frag, fsize, size, Stored(d), free')
  {
    FreeBlockIs(sh, free, d);
    forall e: nat | e < d
      ensures !FreeBlock(free, sh.frag, e)
    {
      FreeBlockIs(sh, free, e);
    }
    forall i | 0 <= i < |free|
      ensures free'[i] <==> free[i] && !(d <= i && (i - d) * fsize < size)
    {
      HoldsByte(size, fsize, i - d);
    }
  }

  /** Fragment k of as many as hold size bytes. */
  lemma HoldsByte(size: nat, fsize: nat, k: int)
    requires fsize > 0 && size > 0
    ensures k < HowMany(size, fsize) <==> k * fsize < size
  {
    var n := HowMany(size, fsize);
    if k < n {
      MulLess(k, n - 1, fsize);
      assert (n - 1) * fsize == n * fsize - fsize;
    } else {
      MulLess(n, k, fsize);
    }
  }

  lemma MulLess(a: int, b: int, c: nat)
    requires a <= b
    ensures a * c <= b * c
  {
  }

  class FileSystem {
    const acg: CylGroup
    const fscs: array<Csum>
    const fsize: nat
    var cstotal: Csum
    var dsize: int
    var disk: seq<GroupImage>   // the cylinder groups on the disk

    constructor (acg: CylGroup, fscs: array<Csum>, fsize: nat)
      ensures this.acg == acg && this.fscs == fscs && this.fsize == fsize
      ensures cstotal == NONE && dsize == 0 && disk == []
    {
      this.acg := acg;
      this.fscs := fscs;
      this.fsize := fsize;
      cstotal, dsize, disk := NONE, 0, [];
    }

    ghost predicate Valid()
      reads this, acg, acg.frags, acg.frags.cp
    {
      var summaries: object := fscs;
      var others: set<object> := {acg.frags.cp, acg.frsum, acg.btot, acg.b};
      acg.Valid() && fsize > 0 && summaries !in others
    }

    /** The image can be read into acg, and agrees with itself. */
    ghost predicate Sound(im: GroupImage)
      requires acg.frags.frag > 0
    {
      acg.Sized(im) && ImageOk(acg.shape, im, acg.frags.Blocks())
    }

    /** The image is what the layout of the group makes of it, and c its summary. */
    ghost predicate GroupOf(im: GroupImage, e: Extent, c: Csum)
      requires acg.frags.frag > 0
    {
      && Sound(im) && im.sum == c && im.ndblk == e.end
      && e.lower <= e.upper <= e.end <= acg.frags.Blocks() * acg.shape.frag
      && MapOf(acg.shape, acg.frags.Blocks(), BitsOf(im.bytes), e, c)
    }

    /** The groups made so far, their summaries and the totals. */
    ghost predicate Made(layout: seq<Extent>)
      requires Valid()
      reads this, acg, acg.frags, acg.frags.cp, fscs
    {
      && |layout| == |disk| <= fscs.Length
      && (forall i :: 0 <= i < |layout| ==> GroupOf(disk[i], layout[i], fscs[i]))
      && cstotal == Sum(fscs[..|layout|])
      && dsize == SizeOf(layout)
    }

    /** The next cylinder group, made in memory over whatever acg held. */
    method NewGroup(e: Extent) returns (im: GroupImage)
      requires Valid() && Fits(e, acg.shape.frag, |acg.frags.free|)
      modifies acg, acg.frags.cp, acg.frags`free, acg.frsum, acg.btot, acg.b
      ensures Valid() && |acg.frags.free| == old(|acg.frags.free|) && acg.ndblk == e.end
      ensures GroupOf(im, e, acg.Summary())
    {
      acg.InitCg(e);
      assert acg.Counter(Whole) == acg.nbfree && acg.Counter(Loose) == acg.nffree;
      im := acg.Save();
      acg.ImageAgrees(im);
    }

    method InitCg(cylno: nat, e: Extent, ghost layout: seq<Extent>)
      requires Valid() && Fits(e, acg.shape.frag, |acg.frags.free|) && Made(layout) && cylno == |layout| < fscs.Length
      modifies this, fscs, acg, acg.frags.cp, acg.frags`free, acg.frsum, acg.btot, acg.b
      ensures Valid() && Made(layout + [e]) && |acg.frags.free| == old(|acg.frags.free|)
    {
      var im := NewGroup(e);
      if !e.reserved {
        dsize := dsize + e.lower;
      }
      dsize := dsize + (acg.ndblk - e.upper);
      Record(cylno, e, layout, im);
    }

    /** The totals, fscs and the disk take in the group just made. */
    method Record(cylno: nat, e: Extent, ghost layout: seq<Extent>, im: GroupImage)
      requires Valid() && cylno == |layout| == |disk| < fscs.Length
      requires forall i :: 0 <= i < |layout| ==> GroupOf(disk[i], layout[i], fscs[i])
      requires cstotal == Sum(fscs[..|layout|]) && dsize == SizeOf(layout) + Size(e)
      requires GroupOf(im, e, acg.Summary())
      modifies this`cstotal, this`disk, fscs
      ensures Valid() && Made(layout + [e])
    {
      ghost var was := fscs[..cylno];
      cstotal := Plus(cstotal, acg.Summary());
      fscs[cylno] := acg.Summary();
      disk := disk + [im];
      SumNext(was, acg.Summary());
      SizeNext(layout, e);
      assert fscs[..cylno + 1] == was + [acg.Summary()];
      assert forall i :: 0 <= i < cylno ==> fscs[i] == was[i];
    }

    /** All the groups, in order. */
    method MakeGroups(layout: seq<Extent>)
      requires Valid() && cstotal == NONE && dsize == 0 && disk == [] && |layout| <= fscs.Length
      requires forall i :: 0 <= i < |layout| ==> Fits(layout[i], acg.shape.frag, |acg.frags.free|)
      modifies this, fscs, acg, acg.frags.cp, acg.frags`free, acg.frsum, acg.btot, acg.b
      ensures Valid() && Made(layout)
      ensures SpaceOf(cstotal, acg.shape.frag) == dsize == SizeOf(layout)
      ensures layout != [] ==> Ready()
    {
      var cylno := 0;
      ghost var done: seq<Extent>, room := [], |acg.frags.free|;
      while cylno < |layout|
        invariant cylno <= |layout| && done == layout[..cylno]
        invariant Valid() && |acg.frags.free| == room && Made(done)
      {
        InitCg(cylno, layout[cylno], done);
        Longer(layout, cylno);
        done := done + [layout[cylno]];
        cylno := cylno + 1;
      }
      assert done == layout;
      TotalIsDataSize(layout);
    }

    lemma TotalIsDataSize(layout: seq<Extent>)
      requires Valid() && Made(layout)
      ensures SpaceOf(cstotal, acg.shape.frag) == dsize == SizeOf(layout)
      ensures layout != [] ==> Ready()
    {
      var maps := seq(|disk|, i requires 0 <= i < |disk| reads this => BitsOf(disk[i].bytes));
      SpaceIsDataSize(acg.shape, acg.frags.Blocks(), maps, layout, fscs[..|layout|]);
    }

    // ---- Storing things in the first group ----

    /** The first group on the disk agrees with itself and with the summaries, and the totals are
        the sum over all groups. */
    ghost predicate Ready()
      requires acg.frags.frag > 0
      reads this, fscs
    {
      && 0 < |disk| <= fscs.Length && Sound(disk[0])
      && fscs[0] == disk[0].sum && cstotal == Sum(fscs[..|disk|])
    }

    /** What storing something changes in the first group: the first whole block, or its first
        fragments, are no longer available. */
    ghost predicate Takes(im: GroupImage, im': GroupImage, d: nat, used: nat, isDir: bool) {
      && acg.shape.frag > 0 && d % acg.shape.frag == 0 && FirstWhole(acg.shape, BitsOf(im.bytes), d / acg.shape.frag)
      && Taken(BitsOf(im.bytes), d, used, BitsOf(im'.bytes))
      && im'.sum == Plus(im.sum, Charge(acg.shape.frag, used, isDir)) && im'.ndblk == im.ndblk
    }

    /** acg is read from the disk. */
    method ReadGroup()
      requires Valid() && Ready()
      modifies acg, acg.frags.cp, acg.frags`free, acg.frsum, acg.btot, acg.b
      ensures Valid() && acg.Matches(disk[0]) && acg.Consistent()
      ensures acg.frags.free == BitsOf(disk[0].bytes)
    {
      acg.Load(disk[0]);
      acg.ImageAgrees(disk[0]);
    }

    /** A block of acg is taken, and acg written back. */
    method TakeAndWrite(size: nat, isDir: bool) returns (d: nat)
      requires Valid() && Ready() && acg.Matches(disk[0]) && acg.Consistent() && acg.frags.free == BitsOf(disk[0].bytes)
      requires acg.nbfree != 0 && 0 < size <= acg.shape.frag * fsize
      modifies this`disk, acg`nbfree, acg`nffree, acg`ndir, acg.frags.cp, acg.frags`free, acg.frsum, acg.btot, acg.b
      ensures Valid() && |disk| == old(|disk|) && Sound(disk[0]) && forall i :: 0 < i < |disk| ==> disk[i] == old(disk[i])
      ensures Takes(old(disk[0]), disk[0], d, HowMany(size, fsize), isDir) && acg.Summary() == disk[0].sum
    {
      assert acg.Counter(Whole) == acg.nbfree;
      var found;
      ghost var h;
      found, d, h := acg.FindWhole();
      assert found;   // so "can't find block in cyl 0" is never reported
      BlockAt(acg.shape.frag, h);
      HowManyFits(size, fsize, acg.shape.frag);
      acg.Take(d, h, HowMany(size, fsize), size != acg.shape.frag * fsize, isDir);
      var im := acg.Save();
      acg.ImageAgrees(im);
      disk := disk[0 := im];
    }

    /** A block of the first group, or as many of its fragments as hold size bytes.  All three
        copies of the summary lose exactly the fragments used. */
    method Alloc(r: Request) returns (out: Outcome)
      requires Valid() && Ready() && 0 < r.size <= acg.shape.frag * fsize
      modifies this`cstotal, this`disk, fscs, acg, acg.frags.cp, acg.frags`free, acg.frsum, acg.btot, acg.b
      ensures Valid() && Ready() && |disk| == old(|disk|) && forall i :: 0 < i < |disk| ==> disk[i] == old(disk[i])
      ensures Served(BitsOf(old(disk[0].bytes)), acg.shape.frag, fsize, r.size, out, BitsOf(disk[0].bytes))
      ensures out.Stored? <==> old(disk[0].sum.nbfree) != 0
      ensures out.NoSpace? ==> disk == old(disk) && cstotal == old(cstotal) && fscs[0] == old(fscs[0])
      ensures out.Stored? ==> Takes(old(disk[0]), disk[0], out.d, HowMany(r.size, fsize), r.isDir)
      ensures out.Stored? ==> acg.Summary() == fscs[0] == disk[0].sum
      ensures out.Stored? ==> SpaceOf(fscs[0], acg.shape.frag) == SpaceOf(old(fscs[0]), acg.shape.frag) - HowMany(r.size, fsize)
      ensures out.Stored? ==> SpaceOf(cstotal, acg.shape.frag) == SpaceOf(old(cstotal), acg.shape.frag) - HowMany(r.size, fsize)
    {
      ReadGroup();
      if acg.nbfree == 0 {
        assert acg.Counter(Whole) == 0;
        NoneIsFree(acg.shape, acg.frags.free, acg.frags.Blocks());
        return NoSpace;
      }
      ghost var free := acg.frags.free;
      ghost var first, total, used := fscs[0], cstotal, HowMany(r.size, fsize);
      var d := TakeAndWrite(r.size, r.isDir);
      ChargeBoth(Charge(acg.shape.frag, HowMany(r.size, fsize), r.isDir), |disk|);
      ChargeLowers(first, acg.shape.frag, used, r.isDir);
      ChargeLowers(total, acg.shape.frag, used, r.isDir);
      out := Stored(d);
      FirstIsServed(acg.shape, free, fsize, r.size, d, BitsOf(disk[0].bytes));
    }

    /** The same change in the totals and in the first group's summary. */
    method ChargeBoth(change: Csum, ghost ncg: nat)
      requires 0 < ncg <= fscs.Length && cstotal == Sum(fscs[..ncg])
      modifies this`cstotal, fscs
      ensures cstotal == Sum(fscs[..ncg]) == Plus(old(cstotal), change)
      ensures fscs[0] == Plus(old(fscs[0]), change)
    {
      ghost var was := fscs[..ncg];
      cstotal := Plus(cstotal, change);
      fscs[0] := Plus(fscs[0], change);
      assert fscs[..ncg] == was[0 := fscs[0]];
      SumFirst(was, fscs[0], change);
    }

    /** Any number of requests: each is served as the map before it allows, and the total space is lowered
        by exactly what the stored ones use. */
    method AllocAll(reqs: seq<Request>) returns (outs: seq<Outcome>, ghost maps: seq<seq<bool>>)
      requires Valid() && Ready() && forall k :: 0 <= k < |reqs| ==> 0 < reqs[k].size <= acg.shape.frag * fsize
      modifies this`cstotal, this`disk, fscs, acg, acg.frags.cp, acg.frags`free, acg.frsum, acg.btot, acg.b
      ensures Valid() && Ready() && |outs| == |reqs|
      ensures AllServed(maps, acg.shape.frag, fsize, reqs, outs)
      ensures maps[0] == BitsOf(old(disk[0].bytes)) && maps[|reqs|] == BitsOf(disk[0].bytes)
      ensures SpaceOf(cstotal, acg.shape.frag) == old(SpaceOf(cstotal, acg.shape.frag)) - Used(reqs, outs, fsize)
    {
      outs, maps := [], [BitsOf(disk[0].bytes)];
      var k := 0;
      ghost var was, used := SpaceOf(cstotal, acg.shape.frag), 0;
      while k < |reqs|
        invariant 0 <= k <= |reqs| && |outs| == k && Valid() && Ready() && used == Used(reqs[..k], outs, fsize)
        invariant SpaceOf(cstotal, acg.shape.frag) == was - used
        invariant AllServed(maps, acg.shape.frag, fsize, reqs, outs)
        invariant maps[0] == BitsOf(old(disk[0].bytes)) && maps[k] == BitsOf(disk[0].bytes)
      {
        var out := Alloc(reqs[k]);
        UsedNext(reqs, outs, fsize, k, out);
        OneMoreServed(maps, acg.shape.frag, fsize, reqs, outs, out, BitsOf(disk[0].bytes));
        outs, maps := outs + [out], maps + [BitsOf(disk[0].bytes)];
        k := k + 1;
        used := Used(reqs[..k], outs, fsize);
      }
      assert reqs[..k] == reqs;
    }

    /** A new file system, and then the first things stored in it: each gets the first fragments of the first
        block of the first group that is free at its turn, unless none is, and in the end the total space is the size of the
        data areas less what they use. */
    method MakeAndFill(layout: seq<Extent>, reqs: seq<Request>) returns (outs: seq<Outcome>, ghost maps: seq<seq<bool>>)
      requires Valid() && cstotal == NONE && dsize == 0 && disk == [] && 0 < |layout| <= fscs.Length
      requires forall i :: 0 <= i < |layout| ==> Fits(layout[i], acg.shape.frag, |acg.frags.free|)
      requires forall k :: 0 <= k < |reqs| ==> 0 < reqs[k].size <= acg.shape.frag * fsize
      modifies this, fscs, acg, acg.frags.cp, acg.frags`free, acg.frsum, acg.btot, acg.b
      ensures Valid() && Ready() && |outs| == |reqs|
      ensures AllServed(maps, acg.shape.frag, fsize, reqs, outs) && maps[|reqs|] == BitsOf(disk[0].bytes)
      ensures var e := layout[0]; forall i :: 0 <= i < |maps[0]| ==>
        (maps[0][i] <==> (i < e.lower && !e.reserved) || e.upper <= i < e.end)
      ensures SpaceOf(cstotal, acg.shape.frag) == SizeOf(layout) - Used(reqs, outs, fsize)
    {
      MakeGroups(layout);
      assert GroupOf(disk[0], layout[0], fscs[0]);
      outs, maps := AllocAll(reqs);
    }
  }

  lemma Longer(layout: seq<Extent>, k: nat)
    requires k < |layout|
    ensures layout[..k] + [layout[k]] == layout[..k + 1]
  {
  }

  lemma SumNext(cs: seq<Csum>, c: Csum)
    ensures Sum(cs + [c]) == Plus(Sum(cs), c)
  {
    assert (cs + [c])[..|cs|] == cs;
  }

  lemma SizeNext(layout: seq<Extent>, e: Extent)
    ensures SizeOf(layout + [e]) == SizeOf(layout) + Size(e)
  {
    assert (layout + [e])[..|layout|] == layout;
  }
}
