/** One cylinder group in memory: its fragment map and the redundant counters kept beside it. */
module CylGroup {
  import opened FragMap
  import opened CylCounts

  lemma BlocksFill(bytes: nat, frag: nat)
    requires frag in {1, 2, 4, 8}
    ensures 8 * bytes / frag * frag == 8 * bytes
  {
    if frag == 1 {
    } else if frag == 2 {
      assert 8 * bytes / 2 == 4 * bytes;
    } else if frag == 4 {
      assert 8 * bytes / 4 == 2 * bytes;
    } else {
    }
  }

  lemma BlockAt(frag: nat, h: nat)
    requires frag in {1, 2, 4, 8}
    ensures h * frag / frag == h && h * frag % frag == 0 && (h + 1) * frag == h * frag + frag
  {
    if frag == 1 {
    } else if frag == 2 {
    } else if frag == 4 {
    } else {
    }
  }

  /** The least multiple of frag that is at least x. */
  function RoundUp(x: nat, frag: nat): (r: nat)
    requires frag in {1, 2, 4, 8}
    ensures x <= r < x + frag && r % frag == 0
  {
    if frag == 1 then x else if frag == 2 then (x + 1) / 2 * 2 else if frag == 4 then (x + 3) / 4 * 4 else (x + 7) / 8 * 8
  }

  lemma AlignedRoom(frag: nat, d: nat, limit: nat)
    requires frag in {1, 2, 4, 8} && d % frag == 0 && limit % frag == 0 && d < limit
    ensures d + frag <= limit
  {
    if frag == 1 {
    } else if frag == 2 {
    } else if frag == 4 {
    } else {
    }
  }

  /** What a block whose free fragments are lo..hi - 1 adds to a counter. */
  function Adds(sh: Shape, m: Measure, h: nat, lo: nat, hi: nat): nat {
    if hi == lo + sh.frag then
      match m
      case Whole => 1
      case InCyl(c) => if sh.cyl(h * sh.frag) == c then 1 else 0
      case AtPos(c, r) => if sh.cyl(h * sh.frag) == c && sh.rpos(h * sh.frag) == r then 1 else 0
      case _ => 0
    else
      match m
      case Loose => if hi >= lo then hi - lo else 0
      case Run(k) => if k > 0 && hi - lo == k then 1 else 0
      case _ => 0
  }

  /** What `step` whole blocks at fragment d add to a counter. */
  function WholeAt(sh: Shape, m: Measure, d: nat, step: int): int {
    match m
    case Whole => step
    case InCyl(c) => if sh.cyl(d) == c then step else 0
    case AtPos(c, r) => if sh.cyl(d) == c && sh.rpos(d) == r then step else 0
    case _ => 0
  }

  lemma AddsIsWeight(sh: Shape, m: Measure, free: seq<bool>, h: nat, lo: nat, hi: nat)
    requires sh.frag > 0 && lo <= hi <= sh.frag && h * sh.frag + sh.frag <= |free|
    requires forall i :: h * sh.frag <= i < h * sh.frag + sh.frag ==> (free[i] <==> h * sh.frag + lo <= i < h * sh.frag + hi)
    ensures Weight(sh, m, h, BlockBits(free, sh.frag, h)) == Adds(sh, m, h, lo, hi)
  {
    var base := h * sh.frag;
    var bits := BlockBits(free, sh.frag, h);
    forall i | 0 <= i < |bits|
      ensures bits[i] <==> lo <= i < hi
    {
      assert bits[i] == free[base + i];
    }
    if hi == lo + sh.frag {
      assert AllFree(bits);
      WholeWeight(sh, m, h, bits);
    } else {
      IntervalWeight(sh, m, h, bits, lo, hi);
    }
  }

  /** Counting one block more. */
  lemma NextTotal(sh: Shape, m: Measure, free: seq<bool>, free': seq<bool>, h: nat, lo: nat, hi: nat)
    requires sh.frag > 0 && lo <= hi <= sh.frag && h * sh.frag + sh.frag <= |free| && |free'| == |free|
    requires (h + 1) * sh.frag == h * sh.frag + sh.frag
    requires forall i :: 0 <= i < h * sh.frag ==> free'[i] == free[i]
    requires forall i :: h * sh.frag <= i < h * sh.frag + sh.frag ==> (free'[i] <==> h * sh.frag + lo <= i < h * sh.frag + hi)
    ensures Total(sh, m, free', h + 1) == Total(sh, m, free, h) + Adds(sh, m, h, lo, hi)
  {
    TotalSame(sh, m, free, free', h);
    AddsIsWeight(sh, m, free', h, lo, hi);
  }

  /** Filling part of a block that was clear. */
  lemma PartTotal(sh: Shape, m: Measure, free: seq<bool>, free': seq<bool>, n: nat, h: nat, lo: nat, hi: nat)
    requires sh.frag > 0 && lo <= hi <= sh.frag && h < n && n * sh.frag <= |free| && |free'| == |free|
    requires h * sh.frag + sh.frag <= n * sh.frag
    requires forall i :: 0 <= i < n * sh.frag && !(h * sh.frag <= i < h * sh.frag + sh.frag) ==> free'[i] == free[i]
    requires forall i :: h * sh.frag <= i < h * sh.frag + sh.frag ==> !free[i]
    requires forall i :: h * sh.frag <= i < h * sh.frag + sh.frag ==> (free'[i] <==> h * sh.frag + lo <= i < h * sh.frag + hi)
    ensures Total(sh, m, free', n) == Total(sh, m, free, n) + Adds(sh, m, h, lo, hi)
  {
    TotalChange(sh, m, free, free', n, h);
    AddsIsWeight(sh, m, free, h, 0, 0);
    AddsIsWeight(sh, m, free', h, lo, hi);
  }

  /** Where the data of a group lies: fragments below `lower` and from `upper` to `end`. */
  datatype Extent = Extent(reserved: bool, lower: nat, upper: nat, end: nat)

  predicate Avail(e: Extent, i: nat) {
    i < e.end && (i >= e.upper || (!e.reserved && i < e.lower))
  }

  function Size(e: Extent): int {
    (if e.reserved then 0 else e.lower) + e.end - e.upper
  }

  /** As many fragments are free as the layout makes available. */
  lemma {:induction false} CountAvail(e: Extent, free: seq<bool>, n: nat)
    requires n <= |free| && forall i :: 0 <= i < n ==> (free[i] <==> Avail(e, i))
    requires e.lower <= e.upper <= e.end
    ensures CountFree(free[..n]) == (if e.reserved then 0 else if n < e.lower then n else e.lower)
                                    + (if n <= e.upper then 0 else if n < e.end then n - e.upper else e.end - e.upper)
  {
    if n == 0 {
      assert free[..n] == [];
    } else {
      CountAvail(e, free, n - 1);
      assert free[..n] == free[..n - 1] + [free[n - 1]];
      CountFreeConcat(free[..n - 1], [free[n - 1]]);
      assert CountFree([free[n - 1]]) == if free[n - 1] then 1 else 0;
    }
  }

  datatype Csum = Csum(ndir: int, nbfree: int, nffree: int)

  function Plus(a: Csum, b: Csum): Csum {
    Csum(a.ndir + b.ndir, a.nbfree + b.nbfree, a.nffree + b.nffree)
  }

  /** What taking `used` fragments of a whole block changes in a summary. */
  function Charge(frag: nat, used: nat, isDir: bool): Csum {
    Csum(if isDir then 1 else 0, -1, frag - used)
  }

  /** Fragments d..d + used - 1 are no longer available, and nothing else changed. */
  predicate Taken(free: seq<bool>, d: nat, used: nat, free': seq<bool>) {
    d + used <= |free| && free' == Filled(free, d, d + used, false)
  }

  /** Block h is the first that is free throughout. */
  predicate FirstWhole(sh: Shape, free: seq<bool>, h: nat) {
    WholeBlock(sh, free, h) && forall g: nat :: g < h ==> !WholeBlock(sh, free, g)
  }

  /** A cylinder group as it is on the disk. */
  datatype GroupImage = GroupImage(bytes: seq<bv8>, frsum: seq<int>, btot: seq<int>, b: seq<seq<int>>, sum: Csum, ndblk: nat)

  predicate RowsOf(b: seq<seq<int>>, r: nat) {
    forall c :: 0 <= c < |b| ==> |b[c]| == r
  }

  predicate ImageKept(sh: Shape, im: GroupImage, m: Measure) {
    match m
    case Run(k) => 0 < k < sh.frag && k < |im.frsum|
    case InCyl(c) => c < |im.btot|
    case AtPos(c, r) => c < |im.b| && r < |im.b[c]|
    case _ => true
  }

  function ImageCounter(sh: Shape, im: GroupImage, m: Measure): int
    requires ImageKept(sh, im, m)
  {
    match m
    case Whole => im.sum.nbfree
    case Loose => im.sum.nffree
    case Run(k) => im.frsum[k]
    case InCyl(c) => im.btot[c]
    case AtPos(c, r) => im.b[c][r]
  }

  /** What is on the disk agrees with itself: the counters with the map, and the map with cg_ndblk. */
  ghost predicate ImageOk(sh: Shape, im: GroupImage, n: nat) {
    && n * sh.frag == 8 * |im.bytes| && im.ndblk <= 8 * |im.bytes|
    && (forall m {:trigger ImageCounter(sh, im, m)} :: ImageKept(sh, im, m) ==>
          ImageCounter(sh, im, m) == Total(sh, m, BitsOf(im.bytes), n))
    && forall i :: im.ndblk <= i < 8 * |im.bytes| ==> !BitsOf(im.bytes)[i]
  }

  class CylGroup {
    const frags: FragMap
    const shape: Shape
    const frsum: array<int>
    const btot: array<int>
    const b: array2<int>
    var nbfree: int
    var nffree: int
    var ndir: int
    var ndblk: nat

    constructor (shape: Shape, bytes: nat, cylinders: nat, positions: nat)
      requires shape.frag in {1, 2, 4, 8}
      requires forall h: nat {:trigger shape.cyl(h * shape.frag)} :: h < 8 * bytes / shape.frag ==>
        shape.cyl(h * shape.frag) < cylinders && shape.rpos(h * shape.frag) < positions
      ensures Valid() && fresh(frags) && fresh(frags.cp) && fresh(frsum) && fresh(btot) && fresh(b)
      ensures this.shape == shape && |frags.free| == 8 * bytes
    {
      this.shape := shape;
      frags := new FragMap(shape.frag, bytes);
      frsum := new int[8];
      btot := new int[cylinders];
      b := new int[cylinders, positions];
    }

    ghost predicate Valid()
      reads this, frags, frags.cp
    {
      && frags.Valid()
      && shape.frag == frags.frag
      && frsum.Length >= shape.frag
      && btot.Length == b.Length0
      && Separate()
      && Room()
    }

    /** Every block of the map lies in a cylinder and a position that are counted. */
    ghost predicate Room()
      requires frags.frag > 0
    {
      forall h: nat {:trigger shape.cyl(h * shape.frag)} :: h < frags.Blocks() ==>
        shape.cyl(h * shape.frag) < b.Length0 && shape.rpos(h * shape.frag) < b.Length1
    }

    ghost predicate Separate() {
      var bytes: object, runs: object, rows: object := frags.cp, frsum, b;
      frsum != btot && bytes != runs && bytes != btot && bytes != rows && rows != runs && rows != btot
    }

    predicate Kept(m: Measure) {
      match m
      case Run(k) => 0 < k < shape.frag
      case InCyl(c) => c < btot.Length
      case AtPos(c, r) => c < b.Length0 && r < b.Length1
      case _ => true
    }

    function Counter(m: Measure): int
      requires Kept(m) && shape.frag <= frsum.Length
      reads this, frsum, btot, b
    {
      match m
      case Whole => nbfree
      case Loose => nffree
      case Run(k) => frsum[k]
      case InCyl(c) => btot[c]
      case AtPos(c, r) => b[c, r]
    }

    /** Every counter says what the map says of its first n blocks. */
    ghost predicate Agree(n: nat)
      requires Valid() && n * shape.frag <= |frags.free|
      reads this, frags, frags.cp, frsum, btot, b
    {
      forall m {:trigger Counter(m)} :: Kept(m) ==> Counter(m) == Total(shape, m, frags.free, n)
    }

    /** The map has room for exactly its blocks. */
    lemma RoomForBlocks(h: nat)
      requires Valid() && h < frags.Blocks()
      ensures h * shape.frag + shape.frag <= |frags.free| && (h + 1) * shape.frag == h * shape.frag + shape.frag
      ensures h * shape.frag / shape.frag == h
      ensures frags.Blocks() * shape.frag == |frags.free|
    {
      BlocksFill(frags.cp.Length, shape.frag);
      BlockFits(shape.frag, h, frags.Blocks());
      BlockAt(shape.frag, h);
    }

    method Reset()
      requires Valid()
      modifies this, frsum, btot, b
      ensures Valid() && ndblk == old(ndblk)
      ensures nbfree == 0 && nffree == 0 && ndir == 0
      ensures forall m {:trigger Counter(m)} :: Kept(m) ==> Counter(m) == 0
    {
      ndir, nffree, nbfree := 0, 0, 0;
      var i := 0;
      while i < shape.frag
        invariant 0 <= i <= shape.frag && Valid() && ndblk == old(ndblk) && nbfree == 0 && nffree == 0 && ndir == 0
        invariant forall k :: 0 <= k < i ==> frsum[k] == 0
      {
        frsum[i] := 0;
        i := i + 1;
      }
      i := 0;
      while i < btot.Length
        invariant 0 <= i <= btot.Length && Valid() && ndblk == old(ndblk) && nbfree == 0 && nffree == 0 && ndir == 0
        invariant forall k :: 0 <= k < shape.frag ==> frsum[k] == 0
        invariant forall c :: 0 <= c < i ==> btot[c] == 0
        invariant forall c, r :: 0 <= c < i && 0 <= r < b.Length1 ==> b[c, r] == 0
      {
        btot[i] := 0;
        var j := 0;
        while j < b.Length1
          invariant 0 <= j <= b.Length1 && Valid() && ndblk == old(ndblk) && nbfree == 0 && nffree == 0 && ndir == 0
          invariant forall k :: 0 <= k < shape.frag ==> frsum[k] == 0
          invariant forall c :: 0 <= c <= i ==> btot[c] == 0
          invariant forall c, r :: 0 <= c < i && 0 <= r < b.Length1 ==> b[c, r] == 0
          invariant forall r :: 0 <= r < j ==> b[i, r] == 0
        {
          b[i, j] := 0;
          j := j + 1;
        }
        i := i + 1;
      }
    }

    /** Below any limit that is a multiple of fs_frag there is room for block h. */
    lemma RoomBelow(d: nat, h: nat, limit: nat)
      requires Valid() && d == h * shape.frag && d < limit <= |frags.free| && limit % shape.frag == 0
      ensures h < frags.Blocks() && d + shape.frag <= limit
      ensures (h + 1) * shape.frag == d + shape.frag && d / shape.frag == h && d % shape.frag == 0
    {
      BlockAt(shape.frag, h);
      AlignedRoom(shape.frag, d, limit);
      BlocksFill(frags.cp.Length, shape.frag);
      if h >= frags.Blocks() {
        MulMono(frags.Blocks(), h, shape.frag);
      }
    }

    /** Block h, at fragment d, is the next one and not available. */
    method ClearNext(d: nat, ghost h: nat)
      requires Valid() && h < frags.Blocks() && d == h * shape.frag <= |frags.free| && Agree(h)
      modifies frags.cp, frags`free
      ensures Valid() && |frags.free| == old(|frags.free|) && (h + 1) * shape.frag == d + shape.frag <= |frags.free|
      ensures frags.free == Filled(old(frags.free), d, d + shape.frag, false)
      ensures Agree(h + 1)
    {
      RoomForBlocks(h);
      ghost var was := frags.free;
      frags.ClrBlock(d / shape.frag);
      forall m | Kept(m)
        ensures Counter(m) == Total(shape, m, frags.free, h + 1)
      {
        NextTotal(shape, m, was, frags.free, h, 0, 0);
      }
    }

    /** Block h, at fragment d, is the next one and available as a whole. */
    method FreeNext(d: nat, ghost h: nat)
      requires Valid() && h < frags.Blocks() && d == h * shape.frag <= |frags.free| && Agree(h)
      modifies frags.cp, frags`free, this`nbfree, btot, b
      ensures Valid() && |frags.free| == old(|frags.free|) && (h + 1) * shape.frag == d + shape.frag <= |frags.free|
      ensures frags.free == Filled(old(frags.free), d, d + shape.frag, true)
      ensures Agree(h + 1)
    {
      RoomForBlocks(h);
      ghost var was := frags.free;
      frags.SetBlock(d / shape.frag);
      CountWhole(d, 1);
      forall m | Kept(m)
        ensures Counter(m) == Total(shape, m, frags.free, h + 1)
      {
        assert Counter(m) == old(Counter(m)) + Adds(shape, m, h, 0, shape.frag);
        NextTotal(shape, m, was, frags.free, h, 0, shape.frag);
      }
    }

    /** The block at fragment d enters (1) or leaves (-1) the counters of whole blocks. */
    method CountWhole(d: nat, step: int)
      requires Valid() && shape.cyl(d) < b.Length0 && shape.rpos(d) < b.Length1
      modifies this`nbfree, btot, b
      ensures Valid()
      ensures forall m {:trigger Counter(m)} :: Kept(m) ==> Counter(m) == old(Counter(m)) + WholeAt(shape, m, d, step)
    {
      nbfree := nbfree + step;
      btot[shape.cyl(d)] := btot[shape.cyl(d)] + step;
      b[shape.cyl(d), shape.rpos(d)] := b[shape.cyl(d), shape.rpos(d)] + step;
    }

    /** Nothing is available in the first d fragments but those below e.lower. */
    ghost predicate ShowsLower(e: Extent, d: nat)
      requires d <= |frags.free|
      reads this, frags
    {
      forall i :: 0 <= i < d ==> (frags.free[i] <==> !e.reserved && i < e.lower)
    }

    ghost predicate Shows(e: Extent, d: nat)
      requires d <= |frags.free|
      reads this, frags
    {
      forall i :: 0 <= i < d ==> (frags.free[i] <==> Avail(e, i))
    }

    /** The blocks below the group's own tables. */
    method LowerBlocks(e: Extent) returns (d: nat, ghost h: nat)
      requires Valid() && Agree(0) && e.lower % shape.frag == 0 && e.lower <= |frags.free|
      modifies frags.cp, frags`free, this`nbfree, btot, b
      ensures Valid() && |frags.free| == old(|frags.free|)
      ensures d == e.lower == h * shape.frag && Agree(h) && ShowsLower(e, d)
    {
      d, h := 0, 0;
      if e.reserved {
        while d < e.lower
          invariant Valid() && |frags.free| == old(|frags.free|)
          invariant d == h * shape.frag && d <= e.lower && Agree(h) && ShowsLower(e, d)
        {
          RoomBelow(d, h, e.lower);
          ClearNext(d, h);
          d, h := d + shape.frag, h + 1;
        }
      } else {
        while d < e.lower
          invariant Valid() && |frags.free| == old(|frags.free|)
          invariant d == h * shape.frag && d <= e.lower && Agree(h) && ShowsLower(e, d)
        {
          RoomBelow(d, h, e.lower);
          FreeNext(d, h);
          d, h := d + shape.frag, h + 1;
        }
      }
    }

    /** The blocks the group's own tables take, and in the first group the summaries too. */
    method TableBlocks(e: Extent, from: nat, ghost first: nat, ghost top: nat) returns (d: nat, ghost h: nat)
      requires Valid() && from == first * shape.frag && from == e.lower <= e.upper
      requires top == RoundUp(e.upper, shape.frag) && top <= |frags.free| && Agree(first) && ShowsLower(e, from)
      modifies frags.cp, frags`free
      ensures Valid() && |frags.free| == old(|frags.free|)
      ensures d == top == h * shape.frag && Agree(h) && ShowsLower(e, d)
    {
      d, h := from, first;
      BlockAt(shape.frag, h);
      while d < e.upper
        invariant Valid() && |frags.free| == old(|frags.free|)
        invariant d == h * shape.frag && d % shape.frag == 0 && e.lower <= d <= top
        invariant Agree(h) && ShowsLower(e, d)
      {
        d, h := ClearTable(e, d, h, top);
      }
      if d < top {
        AlignedRoom(shape.frag, d, top);
      }
    }

    method ClearTable(e: Extent, d: nat, ghost h: nat, ghost top: nat) returns (next: nat, ghost h': nat)
      requires Valid() && d == h * shape.frag && e.lower <= d < top <= |frags.free| && top % shape.frag == 0
      requires Agree(h) && ShowsLower(e, d)
      modifies frags.cp, frags`free
      ensures Valid() && |frags.free| == old(|frags.free|)
      ensures next == d + shape.frag == h' * shape.frag && next % shape.frag == 0 && next <= top
      ensures Agree(h') && ShowsLower(e, next)
    {
      RoomBelow(d, h, top);
      ClearNext(d, h);
      next, h' := d + shape.frag, h + 1;
      BlockAt(shape.frag, h');
    }

    /** for (i = d - 1; i >= dupper; i--) setbit, counting loose fragments. */
    method LoosenDown(dupper: nat, d: nat)
      requires Valid() && dupper < d <= |frags.free|
      modifies frags.cp, frags`free, this`nffree
      ensures Valid() && frags.free == Filled(old(frags.free), dupper, d, true)
      ensures nffree == old(nffree) + d - dupper
    {
      var i: int := d - 1;
      while i >= dupper
        invariant dupper - 1 <= i <= d - 1 && Valid() && |frags.free| == old(|frags.free|)
        invariant frags.free == Filled(old(frags.free), i + 1, d, true)
        invariant nffree == old(nffree) + d - 1 - i
      {
        frags.SetBit(i);
        nffree := nffree + 1;
        i := i - 1;
      }
    }

    /** for (; d < end; d++) setbit, counting loose fragments. */
    method LoosenUp(d: nat, end: nat)
      requires Valid() && d <= end <= |frags.free|
      modifies frags.cp, frags`free, this`nffree
      ensures Valid() && frags.free == Filled(old(frags.free), d, end, true)
      ensures nffree == old(nffree) + end - d
    {
      var i := d;
      while i < end
        invariant d <= i <= end && Valid() && |frags.free| == old(|frags.free|)
        invariant frags.free == Filled(old(frags.free), d, i, true)
        invariant nffree == old(nffree) + i - d
      {
        frags.SetBit(i);
        nffree := nffree + 1;
        i := i + 1;
      }
    }

    /** for (; d % fs_frag != 0; d++) clrbit */
    method ClearUp(from: nat, ghost end: nat) returns (d: nat)
      requires Valid() && from <= end <= |frags.free|
      requires end == RoundUp(from, shape.frag)
      modifies frags.cp, frags`free
      ensures Valid() && d == end && frags.free == Filled(old(frags.free), from, end, false)
    {
      d := from;
      while d % shape.frag != 0
        invariant from <= d <= end && Valid() && frags.free == Filled(old(frags.free), from, d, false)
        decreases end - d
      {
        frags.ClrBit(d);
        d := d + 1;
      }
      if d < end {
        AlignedRoom(shape.frag, d, end);
      }
    }

    /** Block h ends at d and was cleared; its fragments from dupper on turn out to be available. */
    method FreeTail(dupper: nat, d: nat, ghost h: nat, ghost n: nat)
      requires Valid() && d == h * shape.frag + shape.frag && h * shape.frag < dupper < d
      requires h < n && d <= n * shape.frag <= |frags.free| && Agree(n)
      requires forall i :: h * shape.frag <= i < d ==> !frags.free[i]
      modifies frags.cp, frags`free, this`nffree, frsum
      ensures Valid() && frags.free == Filled(old(frags.free), dupper, d, true)
      ensures nbfree == old(nbfree) && nffree == old(nffree) + d - dupper
      ensures n * shape.frag <= |frags.free| && Agree(n)
    {
      ghost var was := frags.free;
      frsum[d - dupper] := frsum[d - dupper] + 1;
      LoosenDown(dupper, d);
      ghost var lo: nat := dupper - h * shape.frag;
      forall m | Kept(m)
        ensures Counter(m) == Total(shape, m, frags.free, n)
      {
        assert Counter(m) == old(Counter(m)) + Adds(shape, m, h, lo, shape.frag);
        PartTotal(shape, m, was, frags.free, n, h, lo, shape.frag);
      }
    }

    /** The whole blocks that fit below end. */
    method UpperBlocks(e: Extent, from: nat, ghost first: nat) returns (d: nat, ghost h: nat)
      requires Valid() && from == first * shape.frag && e.upper <= from <= e.end <= |frags.free|
      requires e.lower <= e.upper && Agree(first) && Shows(e, from)
      modifies frags.cp, frags`free, this`nbfree, btot, b
      ensures Valid() && |frags.free| == old(|frags.free|)
      ensures d == h * shape.frag && from <= d <= e.end < d + shape.frag && Agree(h) && Shows(e, d)
    {
      d, h := from, first;
      while d + shape.frag <= e.end
        invariant Valid() && |frags.free| == old(|frags.free|)
        invariant d == h * shape.frag && from <= d <= e.end && Agree(h) && Shows(e, d)
      {
        d, h := FreeUpper(e, d, h);
      }
    }

    method FreeUpper(e: Extent, d: nat, ghost h: nat) returns (next: nat, ghost h': nat)
      requires Valid() && d == h * shape.frag && e.lower <= e.upper <= d < d + shape.frag <= e.end <= |frags.free|
      requires Agree(h) && Shows(e, d)
      modifies frags.cp, frags`free, this`nbfree, btot, b
      ensures Valid() && |frags.free| == old(|frags.free|)
      ensures next == d + shape.frag == h' * shape.frag && Agree(h') && Shows(e, next)
    {
      RoomInMap(d, h);
      FreeNext(d, h);
      next, h' := d + shape.frag, h + 1;
    }

    lemma RoomInMap(d: nat, h: nat)
      requires Valid() && d == h * shape.frag && d < |frags.free|
      ensures h < frags.Blocks() && d + shape.frag <= |frags.free|
      ensures |frags.free| == frags.Blocks() * shape.frag
    {
      BlocksFill(frags.cp.Length, shape.frag);
      BlockAt(shape.frag, frags.Blocks());
      RoomBelow(d, h, |frags.free|);
    }

    /** The last block of the group has fewer than fs_frag fragments. */
    method LastPart(e: Extent, from: nat, ghost h: nat) returns (d: nat)
      requires Valid() && from == h * shape.frag && e.lower <= e.upper <= from < e.end < from + shape.frag
      requires e.end <= |frags.free| && Agree(h) && Shows(e, from)
      modifies frags.cp, frags`free, this`nffree, frsum
      ensures Valid() && |frags.free| == old(|frags.free|)
      ensures d == from + shape.frag == (h + 1) * shape.frag && d <= |frags.free| && Agree(h + 1) && Shows(e, d)
    {
      RoomInMap(from, h);
      RoomForBlocks(h);
      ghost var was := frags.free;
      frsum[e.end - from] := frsum[e.end - from] + 1;
      LoosenUp(from, e.end);
      EndOfBlock(shape.frag, from, h, e.end);
      d := ClearUp(e.end, from + shape.frag);
      ghost var hi: nat := e.end - from;
      forall m | Kept(m)
        ensures Counter(m) == Total(shape, m, frags.free, h + 1)
      {
        assert Counter(m) == old(Counter(m)) + Adds(shape, m, h, 0, hi);
        NextTotal(shape, m, was, frags.free, h, 0, hi);
      }
    }

    lemma EndOfBlock(frag: nat, d: nat, h: nat, end: nat)
      requires frag in {1, 2, 4, 8} && d == h * frag && d < end < d + frag
      ensures RoundUp(end, frag) == d + frag
    {
      BlockAt(frag, h);
      BlockAt(frag, h + 1);
      if d < RoundUp(end, frag) { AlignedRoom(frag, d, RoundUp(end, frag)); }
      if d + frag < RoundUp(end, frag) { AlignedRoom(frag, d + frag, RoundUp(end, frag)); }
    }

    /** for (d /= fs_frag; d < MAXBPG; d++) clrblock */
    method BeyondEnd(e: Extent, from: nat, ghost first: nat)
      requires Valid() && from == first * shape.frag && e.end <= from <= |frags.free|
      requires Agree(first) && Shows(e, from)
      modifies frags.cp, frags`free
      ensures Valid() && |frags.free| == old(|frags.free|)
      ensures |frags.free| == frags.Blocks() * shape.frag
      ensures Agree(frags.Blocks()) && Shows(e, |frags.free|)
    {
      BlockAt(shape.frag, first);
      var h := from / shape.frag;
      var maxbpg := frags.Blocks();
      BlocksWithin(first, maxbpg);
      ghost var room := |frags.free|;
      while h < maxbpg
        invariant h <= maxbpg && maxbpg == frags.Blocks() && h * shape.frag <= room == maxbpg * shape.frag
        invariant Valid() && |frags.free| == room
        invariant e.end <= h * shape.frag && Agree(h) && Shows(e, h * shape.frag)
      {
        ClearBeyond(e, h);
        h := h + 1;
      }
    }

    lemma BlocksWithin(h: nat, n: nat)
      requires Valid() && h * shape.frag <= |frags.free| && n == frags.Blocks()
      ensures h <= n && n * shape.frag == |frags.free|
    {
      BlocksFill(frags.cp.Length, shape.frag);
      if h > n {
        BlockFits(shape.frag, n, h);
      }
    }

    method ClearBeyond(e: Extent, h: nat)
      requires Valid() && h < frags.Blocks() && e.end <= h * shape.frag <= |frags.free| && Agree(h) && Shows(e, h * shape.frag)
      modifies frags.cp, frags`free
      ensures Valid() && |frags.free| == old(|frags.free|)
      ensures e.end <= (h + 1) * shape.frag <= |frags.free| && Agree(h + 1) && Shows(e, (h + 1) * shape.frag)
    {
      ClearNext(h * shape.frag, h);
    }

    /** Every block is accounted for and nothing at or past cg_ndblk is available. */
    ghost predicate Consistent()
      requires Valid()
      reads this, frags, frags.cp, frsum, btot, b
    {
      && frags.Blocks() * shape.frag == |frags.free|
      && ndblk <= |frags.free|
      && Agree(frags.Blocks())
      && forall i :: ndblk <= i < |frags.free| ==> !frags.free[i]
    }

    /** The image has the dimensions of this group. */
    ghost predicate Sized(im: GroupImage) {
      && |im.bytes| == frags.cp.Length && |im.frsum| == frsum.Length
      && |im.btot| == btot.Length && |im.b| == b.Length0 && RowsOf(im.b, b.Length1)
    }

    /** The image is that of this group. */
    ghost predicate Matches(im: GroupImage)
      reads this, frags.cp, frsum, btot, b
    {
      && Sized(im)
      && frags.cp[..] == im.bytes && frsum[..] == im.frsum && btot[..] == im.btot
      && (forall c, r :: 0 <= c < b.Length0 && 0 <= r < b.Length1 ==> im.b[c][r] == b[c, r])
      && Csum(ndir, nbfree, nffree) == im.sum && ndblk == im.ndblk
    }

    lemma SameCounters(im: GroupImage, m: Measure)
      requires Valid() && Matches(im)
      ensures Kept(m) <==> ImageKept(shape, im, m)
      ensures Kept(m) ==> Counter(m) == ImageCounter(shape, im, m)
    {
    }

    /** The group agrees with itself exactly if its image does. */
    lemma ImageAgrees(im: GroupImage)
      requires Valid() && Matches(im)
      ensures frags.free == BitsOf(im.bytes)
      ensures Consistent() <==> ImageOk(shape, im, frags.Blocks())
    {
      frags.FreeIsBits();
      forall m
        ensures Kept(m) <==> ImageKept(shape, im, m)
        ensures Kept(m) ==> Counter(m) == ImageCounter(shape, im, m)
      {
        SameCounters(im, m);
      }
      if Consistent() {
        forall m | ImageKept(shape, im, m)
          ensures ImageCounter(shape, im, m) == Total(shape, m, BitsOf(im.bytes), frags.Blocks())
        {
          assert Counter(m) == Total(shape, m, frags.free, frags.Blocks());
        }
      }
      if ImageOk(shape, im, frags.Blocks()) {
        forall m | Kept(m)
          ensures Counter(m) == Total(shape, m, frags.free, frags.Blocks())
        {
          assert ImageCounter(shape, im, m) == Total(shape, m, BitsOf(im.bytes), frags.Blocks());
        }
      }
    }

    /** wtfs(..., &acg) */
    method Save() returns (im: GroupImage)
      requires Valid()
      ensures Matches(im)
    {
      var rows := [];
      var c := 0;
      while c < b.Length0
        invariant 0 <= c <= b.Length0 && |rows| == c && RowsOf(rows, b.Length1)
        invariant forall i, r :: 0 <= i < c && 0 <= r < b.Length1 ==> rows[i][r] == b[i, r]
      {
        var row := SaveRow(c);
        rows := rows + [row];
        c := c + 1;
      }
      im := GroupImage(frags.cp[..], frsum[..], btot[..], rows, Csum(ndir, nbfree, nffree), ndblk);
    }

    method SaveRow(c: nat) returns (row: seq<int>)
      requires c < b.Length0
      ensures |row| == b.Length1 && forall r :: 0 <= r < b.Length1 ==> row[r] == b[c, r]
    {
      row := [];
      var r := 0;
      while r < b.Length1
        invariant 0 <= r <= b.Length1 && |row| == r && forall k :: 0 <= k < r ==> row[k] == b[c, k]
      {
        row := row + [b[c, r]];
        r := r + 1;
      }
    }

    /** rdfs(..., &acg) */
    method Load(im: GroupImage)
      requires Valid() && Sized(im)
      modifies this, frags.cp, frags`free, frsum, btot, b
      ensures Valid() && Matches(im)
    {
      frags.Load(im.bytes);
      LoadRow(frsum, im.frsum);
      LoadRow(btot, im.btot);
      LoadTable(im.b);
      nbfree, nffree, ndir, ndblk := im.sum.nbfree, im.sum.nffree, im.sum.ndir, im.ndblk;
    }

    method LoadRow(a: array<int>, s: seq<int>)
      requires a.Length == |s|
      modifies a
      ensures a[..] == s
    {
      var i := 0;
      while i < |s|
        invariant 0 <= i <= |s| && a[..i] == s[..i]
      {
        a[i] := s[i];
        i := i + 1;
      }
    }

    method LoadTable(rows: seq<seq<int>>)
      requires |rows| == b.Length0 && RowsOf(rows, b.Length1)
      modifies b
      ensures forall c, r :: 0 <= c < b.Length0 && 0 <= r < b.Length1 ==> rows[c][r] == b[c, r]
    {
      var c := 0;
      while c < b.Length0
        invariant 0 <= c <= b.Length0
        invariant forall i, r :: 0 <= i < c && 0 <= r < b.Length1 ==> rows[i][r] == b[i, r]
      {
        var r := 0;
        while r < b.Length1
          invariant 0 <= r <= b.Length1
          invariant forall i, k :: 0 <= i < c && 0 <= k < b.Length1 ==> rows[i][k] == b[i, k]
          invariant forall k :: 0 <= k < r ==> rows[c][k] == b[c, k]
        {
          b[c, r] := rows[c][r];
          r := r + 1;
        }
        c := c + 1;
      }
    }

    /** What fs_dsize counts of this group. */
    function Space(): int
      reads this
    {
      nbfree * shape.frag + nffree
    }

    /** cg_cs */
    function Summary(): Csum
      reads this
    {
      Csum(ndir, nbfree, nffree)
    }

    method InitCg(e: Extent)
      requires Valid() && e.lower % shape.frag == 0 && e.lower <= e.upper
      requires RoundUp(e.upper, shape.frag) <= e.end <= |frags.free|
      modifies this, frags.cp, frags`free, frsum, btot, b
      ensures Valid() && Consistent() && |frags.free| == old(|frags.free|)
      ensures Shows(e, |frags.free|)
      ensures ndblk == e.end && ndir == 0 && nbfree >= 0 && nffree >= 0 && Space() == Size(e)
    {
      ndblk := e.end;
      Reset();
      ghost var h;
      var d;
      d, h := LowerBlocks(e);
      d, h := TableBlocks(e, d, h, RoundUp(e.upper, shape.frag));
      TableTail(e, d, h);
      Upper(e, d, h);
      SpaceIsSize(e);
    }

    /** Everything from the end of the tables up. */
    method Upper(e: Extent, from: nat, ghost first: nat)
      requires Valid() && from == first * shape.frag && e.lower <= e.upper <= from <= e.end <= |frags.free|
      requires Agree(first) && Shows(e, from)
      modifies this`nbfree, this`nffree, frags.cp, frags`free, frsum, btot, b
      ensures Valid() && |frags.free| == old(|frags.free|)
      ensures |frags.free| == frags.Blocks() * shape.frag
      ensures Agree(frags.Blocks()) && Shows(e, |frags.free|)
    {
      ghost var h;
      var d;
      d, h := UpperBlocks(e, from, first);
      if d < e.end {
        d := LastPart(e, d, h);
        h := h + 1;
      }
      BeyondEnd(e, d, h);
    }

    /** The tables of the first group may end inside a block, whose rest is available. */
    method TableTail(e: Extent, d: nat, ghost h: nat)
      requires Valid() && d == h * shape.frag && e.lower <= e.upper && e.lower % shape.frag == 0
      requires d == RoundUp(e.upper, shape.frag) && d <= e.end && d <= |frags.free| && Agree(h) && ShowsLower(e, d)
      modifies this`nffree, frags.cp, frags`free, frsum
      ensures Valid() && |frags.free| == old(|frags.free|) && Agree(h) && Shows(e, d)
    {
      if d > e.upper {
        TailFits(e, h, d);
        FreeTail(e.upper, d, h - 1, h);
      }
    }

    lemma TailFits(e: Extent, h: nat, d: nat)
      requires Valid() && d == h * shape.frag == RoundUp(e.upper, shape.frag) && e.upper < d
      requires e.lower <= e.upper && e.lower % shape.frag == 0
      ensures h > 0 && e.lower <= (h - 1) * shape.frag < e.upper && d == (h - 1) * shape.frag + shape.frag
    {
      BlockAt(shape.frag, h - 1);
      if (h - 1) * shape.frag < e.lower {
        AlignedRoom(shape.frag, (h - 1) * shape.frag, e.lower);
      }
    }

    lemma SpaceIsSize(e: Extent)
      requires Valid() && frags.Blocks() * shape.frag == |frags.free| && Agree(frags.Blocks()) && Shows(e, |frags.free|)
      requires e.lower <= e.upper <= e.end <= |frags.free|
      ensures nbfree >= 0 && nffree >= 0 && Space() == Size(e)
    {
      assert Counter(Whole) == nbfree && Counter(Loose) == nffree;
      TotalsAreAllFree(shape, frags.free, frags.Blocks());
      CountAvail(e, frags.free, |frags.free|);
    }

    lemma NotWhole(g: nat, h: nat)
      requires Valid() && Consistent() && h * shape.frag >= ndblk && g < frags.Blocks()
      requires g < h ==> !WholeBlock(shape, frags.free, g)
      ensures !WholeBlock(shape, frags.free, g)
    {
      RoomForBlocks(g);
      if g >= h {
        MulMono(h, g, shape.frag);
        assert !BlockBits(frags.free, shape.frag, g)[0];
      }
    }

    /** Is there a whole block below cg_ndblk, and where is the first? */
    method FindWhole() returns (found: bool, d: nat, ghost h: nat)
      requires Valid() && Consistent()
      ensures found <==> nbfree > 0
      ensures found ==> d == h * shape.frag < ndblk && FirstWhole(shape, frags.free, h)
    {
      d, h := 0, 0;
      ghost var n := frags.Blocks();
      while d < ndblk
        invariant d == h * shape.frag && h <= n == frags.Blocks()
        invariant forall g: nat :: g < h ==> !WholeBlock(shape, frags.free, g)
      {
        var full := CheckBlock(d, h);
        if full {
          return true, d, h;
        }
        d, h := d + shape.frag, h + 1;
      }
      NoneWhole(h);
      found := false;
    }

    /** Is the block at fragment d whole? */
    method CheckBlock(d: nat, ghost h: nat) returns (full: bool)
      requires Valid() && Consistent() && d == h * shape.frag < ndblk
      ensures full <==> WholeBlock(shape, frags.free, h)
      ensures h < frags.Blocks() && d + shape.frag == (h + 1) * shape.frag
      ensures full ==> nbfree > 0
    {
      RoomInMap(d, h);
      BlockAt(shape.frag, h);
      FullIsWhole(h);
      full := frags.IsBlock(d / shape.frag);
      if full {
        assert Counter(Whole) == nbfree;
        SomeWhole(shape, frags.free, frags.Blocks(), h);
      }
    }

    lemma NoneWhole(h: nat)
      requires Valid() && Consistent() && h * shape.frag >= ndblk
      requires forall g: nat :: g < h ==> !WholeBlock(shape, frags.free, g)
      ensures nbfree == 0
    {
      forall g: nat | g < frags.Blocks()
        ensures !WholeBlock(shape, frags.free, g)
      {
        NotWhole(g, h);
      }
      NoWhole(shape, frags.free, frags.Blocks());
      assert Counter(Whole) == nbfree;
    }

    lemma FullIsWhole(h: nat)
      requires Valid() && h < frags.Blocks()
      ensures frags.Full(h) <==> WholeBlock(shape, frags.free, h)
    {
      RoomForBlocks(h);
      if WholeBlock(shape, frags.free, h) {
        forall i | h * shape.frag <= i < h * shape.frag + shape.frag
          ensures frags.free[i]
        {
          assert BlockBits(frags.free, shape.frag, h)[i - h * shape.frag];
        }
      }
    }

    /** Takes the first `used` fragments of the whole block h, and gives back the rest. */
    method Take(d: nat, ghost h: nat, used: nat, part: bool, isDir: bool)
      requires Valid() && Consistent() && d == h * shape.frag < ndblk && WholeBlock(shape, frags.free, h)
      requires 0 < used <= shape.frag && (!part ==> used == shape.frag)
      modifies this`nbfree, this`nffree, this`ndir, frags.cp, frags`free, frsum, btot, b
      ensures Valid() && Consistent()
      ensures Taken(old(frags.free), d, used, frags.free)
      ensures Summary() == Plus(old(Summary()), Charge(shape.frag, used, isDir))
    {
      RoomInMap(d, h);
      FullIsWhole(h);
      BlockInGroup(d, h);
      TakeBlock(d, h);
      CountDir(isDir);
      if part {
        LoosenRest(d, h, used);
      }
    }

    method CountDir(isDir: bool)
      requires Valid() && Consistent()
      modifies this`ndir
      ensures Valid() && Consistent() && ndir == old(ndir) + (if isDir then 1 else 0)
    {
      if isDir {
        ndir := ndir + 1;
      }
      forall m | Kept(m)
        ensures Counter(m) == Total(shape, m, frags.free, frags.Blocks())
      {
        assert Counter(m) == old(Counter(m));
      }
    }

    /** Block h, which was whole, is no longer available. */
    method TakeBlock(d: nat, ghost h: nat)
      requires Valid() && Consistent() && h < frags.Blocks() && d == h * shape.frag < ndblk && frags.Full(h)
      modifies frags.cp, frags`free, this`nbfree, btot, b
      ensures Valid() && Consistent() && d + shape.frag <= |frags.free| == old(|frags.free|)
      ensures frags.free == Filled(old(frags.free), d, d + shape.frag, false)
      ensures nbfree == old(nbfree) - 1
    {
      RoomForBlocks(h);
      ghost var was := frags.free;
      ghost var n := frags.Blocks();
      assert Counter(Whole) == nbfree;
      frags.ClrBlock(d / shape.frag);
      CountWhole(d, -1);
      forall m | Kept(m)
        ensures Counter(m) == Total(shape, m, frags.free, n)
      {
        assert Counter(m) == old(Counter(m)) - Adds(shape, m, h, 0, shape.frag);
        PartTotal(shape, m, frags.free, was, n, h, 0, shape.frag);
      }
      assert Counter(Whole) == nbfree;
    }

    /** All but the first `used` fragments of block h, which is taken, become available. */
    method LoosenRest(d: nat, ghost h: nat, used: nat)
      requires Valid() && Consistent() && h < frags.Blocks() && d == h * shape.frag
      requires 0 < used <= shape.frag && d + shape.frag <= ndblk
      requires forall i :: d <= i < d + shape.frag ==> !frags.free[i]
      modifies frags.cp, frags`free, this`nffree, frsum
      ensures Valid() && Consistent() && d + shape.frag <= |frags.free| == old(|frags.free|)
      ensures frags.free == Filled(old(frags.free), d + used, d + shape.frag, true)
      ensures nffree == old(nffree) + shape.frag - used
    {
      RoomForBlocks(h);
      ghost var was := frags.free;
      ghost var n := frags.Blocks();
      nffree := nffree + (shape.frag - used);
      frsum[shape.frag - used] := frsum[shape.frag - used] + 1;
      RaiseFree(d, used, shape.frag);
      forall m | Kept(m)
        ensures Counter(m) == Total(shape, m, frags.free, n)
      {
        assert Counter(m) == old(Counter(m)) + Adds(shape, m, h, used, shape.frag);
        PartTotal(shape, m, was, frags.free, n, h, used, shape.frag);
      }
    }

    /** for (i = frag; i < fs_frag; i++) setbit(cg_free, d + i) */
    method RaiseFree(d: nat, used: nat, frag: nat)
      requires Valid() && used <= frag && d + frag <= |frags.free|
      modifies frags.cp, frags`free
      ensures Valid() && frags.free == Filled(old(frags.free), d + used, d + frag, true)
    {
      var i := used;
      while i < frag
        invariant used <= i <= frag && Valid() && |frags.free| == old(|frags.free|)
        invariant frags.free == Filled(old(frags.free), d + used, d + i, true)
      {
        frags.SetBit(d + i);
        i := i + 1;
      }
    }

    lemma BlockInGroup(d: nat, h: nat)
      requires Valid() && Consistent() && h < frags.Blocks() && d == h * shape.frag && frags.Full(h)
      ensures d + shape.frag <= ndblk
    {
      RoomForBlocks(h);
      assert frags.free[d + shape.frag - 1];
    }
  }

  /** A whole block is counted. */
  lemma {:induction false} SomeWhole(sh: Shape, free: seq<bool>, n: nat, h: nat)
    requires n * sh.frag <= |free| && h < n && h * sh.frag + sh.frag <= |free|
    requires AllFree(BlockBits(free, sh.frag, h))
    ensures Total(sh, Whole, free, n) > 0
  {
    BlockFits(sh.frag, n - 1, n);
    if h < n - 1 {
      SomeWhole(sh, free, n - 1, h);
    }
  }

  lemma {:induction false} NoWhole(sh: Shape, free: seq<bool>, n: nat)
    requires n * sh.frag <= |free|
    requires forall g: nat :: g < n ==> !WholeBlock(sh, free, g)
    ensures Total(sh, Whole, free, n) == 0
  {
    if n > 0 {
      BlockFits(sh.frag, n - 1, n);
      NoWhole(sh, free, n - 1);
      assert !WholeBlock(sh, free, n - 1);
    }
  }

  predicate WholeBlock(sh: Shape, free: seq<bool>, g: nat) {
    g * sh.frag + sh.frag <= |free| && AllFree(BlockBits(free, sh.frag, g))
  }
}
