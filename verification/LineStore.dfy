/** ed's line store: lines in a temporary file behind one input and one output
    block buffer, named by addresses whose low bit is a mark. */
module LineStore {
  import opened Common

  const BLOCK := 512
  const LBSIZE := 512
  const LASTBLOCK := 255
  const NEWLINE := '\n' as byte

  /** (atl >> 8) & 0377 */
  function BlockOf(atl: nat): nat { atl / 256 % 256 }

  /** (atl << 1) & 0774 : where in its block an address points; the mark bit drops out. */
  function OffsetOf(atl: nat): nat { atl / 2 % 128 * 4 }

  /** The byte position an address names in the temporary file. */
  function Position(a: nat): nat { a / 2 * 4 }

  lemma AddressIsPosition(a: nat)
    requires a < 0x1_0000
    ensures BlockOf(a) * BLOCK + OffsetOf(a) == Position(a)
    ensures OffsetOf(a) <= BLOCK - 4
  {
    assert a / 256 == a / 2 / 128;
    assert a / 2 == a / 2 / 128 * 128 + a / 2 % 128;
  }

  lemma BlockStart(b: nat)
    requires b < 256
    ensures BlockOf(b * 256) == b && OffsetOf(b * 256) == 0
  {
    assert b * 256 / 256 == b;
    assert b * 256 / 2 == b * 128;
  }

  /** ((n + 3) >> 1) & 077776 : the space a line of n bytes takes, in address units. */
  function Units(n: nat): nat { (n + 3) / 2 - (n + 3) / 2 % 2 }

  lemma UnitsCover(n: nat)
    ensures Units(n) % 2 == 0 && n <= 2 * Units(n) <= n + 3 && 2 * Units(n) % 4 == 0
  {
  }

  /** Block b of flat contents. */
  function Slice(flat: seq<byte>, b: nat): seq<byte>
    requires (b + 1) * BLOCK <= |flat|
  {
    flat[b * BLOCK..(b + 1) * BLOCK]
  }

  /** The contents hold s, ended by NUL, at position pos. */
  predicate Holds(flat: seq<byte>, pos: nat, s: seq<byte>) {
    pos + |s| < |flat| && flat[pos..pos + |s|] == s && flat[pos + |s|] == 0
  }

  /** Every address below limit stands for a line that is in place, and no two lines
      share a byte. */
  ghost predicate Lines(flat: seq<byte>, stored: map<nat, seq<byte>>, limit: nat) {
    && (forall a <- stored ::
          && a % 2 == 0 && a + Units(|stored[a]| + 1) <= limit
          && |stored[a]| < LBSIZE && 0 !in stored[a] && NEWLINE !in stored[a]
          && Holds(flat, Position(a), stored[a]))
    && (forall a, a' | a in stored && a' in stored && a < a' :: a + Units(|stored[a]| + 1) <= a')
  }

  /** Lines survive any change above them. */
  lemma LinesKept(was: seq<byte>, flat: seq<byte>, stored: map<nat, seq<byte>>, limit: nat)
    requires Lines(was, stored, limit) && limit % 2 == 0 && Below(was, Position(limit)) <= flat
    ensures Lines(flat, stored, limit)
  {
    forall a <- stored
      ensures Holds(flat, Position(a), stored[a])
    {
      UnitsCover(|stored[a]| + 1);
      var pos, end := Position(a), Position(a) + |stored[a]|;
      var kept := Below(was, Position(limit));
      assert end < |kept|;
      assert kept[pos..end] == was[pos..end] && flat[pos..end] == kept[pos..end];
      assert kept[end] == was[end];
    }
  }

  /** One more line, at the limit. */
  lemma LinesPlusOne(flat: seq<byte>, stored: map<nat, seq<byte>>, limit: nat, line: seq<byte>, limit': nat)
    requires Lines(flat, stored, limit) && limit % 2 == 0 && Holds(flat, Position(limit), line)
    requires |line| < LBSIZE && 0 !in line && NEWLINE !in line
    requires limit' == limit + Units(|line| + 1)
    ensures limit !in stored && Lines(flat, stored[limit := line], limit')
  {
    forall a <- stored
      ensures a < limit
    {
      UnitsCover(|stored[a]| + 1);
    }
    var more := stored[limit := line];
    UnitsCover(|line| + 1);
    assert forall a <- more :: a == limit || (a in stored && more[a] == stored[a]);
    PairsApart(stored, limit, line);
  }

  lemma PairsApart(stored: map<nat, seq<byte>>, limit: nat, line: seq<byte>)
    requires forall a <- stored :: a < limit && a + Units(|stored[a]| + 1) <= limit
    requires forall a, a' | a in stored && a' in stored && a < a' :: a + Units(|stored[a]| + 1) <= a'
    ensures var more := stored[limit := line];
      forall a, a' | a in more && a' in more && a < a' :: a + Units(|more[a]| + 1) <= a'
  {
    var more := stored[limit := line];
    forall a, a' | a in more && a' in more && a < a'
      ensures a + Units(|more[a]| + 1) <= a'
    {
      assert a in stored && (a' == limit || a' in stored);
    }
  }

  /** A line that ends in block k leaves the limit in block k, or at its end. */
  lemma LimitAfter(limit: nat, n: nat, k: nat, limit': nat)
    requires limit % 2 == 0 && k == (Position(limit) + n) / BLOCK && limit' == limit + Units(n + 1)
    ensures k * 256 <= limit' <= (k + 1) * 256 && limit' % 2 == 0 && limit < limit'
  {
    var h := Half(limit);
    var q := InFours(n);
    RoundedUp(h, n, q, k);
  }

  lemma Half(limit: nat) returns (h: nat)
    requires limit % 2 == 0
    ensures limit == 2 * h && Position(limit) == 4 * h
  {
    h := limit / 2;
  }

  lemma InFours(n: nat) returns (q: nat)
    ensures 4 * q - 4 <= n <= 4 * q - 1 && Units(n + 1) == 2 * q
  {
    q := (n + 4) / 4;
  }

  lemma RoundedUp(h: nat, n: nat, q: nat, k: nat)
    requires 4 * q - 4 <= n <= 4 * q - 1 && k == (4 * h + n) / 512
    ensures k * 256 <= 2 * h + 2 * q <= (k + 1) * 256
  {
    assert 512 * k <= 4 * h + n < 512 * k + 512;
  }

  /** The part of the contents below a position. */
  function Below(flat: seq<byte>, pos: nat): (s: seq<byte>)
    ensures |s| <= pos && |s| <= |flat|
  {
    if pos < |flat| then flat[..pos] else flat
  }

  /** The contents begin with kept and hold s at position pos. */
  ghost predicate InPlace(flat: seq<byte>, kept: seq<byte>, pos: nat, s: seq<byte>) {
    |kept| <= pos && pos + |s| <= |flat| && kept <= flat && flat[pos..pos + |s|] == s
  }

  lemma InPlaceMore(flat: seq<byte>, kept: seq<byte>, pos: nat, s: seq<byte>, x: byte)
    requires InPlace(flat, kept, pos, s) && pos + |s| < |flat|
    ensures InPlace(flat[pos + |s| := x], kept, pos, s + [x])
    ensures InPlace(flat[pos + |s| := x], kept, pos, s)
  {
  }

  lemma InPlaceAfter(flat: seq<byte>, flat': seq<byte>, kept: seq<byte>, pos: nat, s: seq<byte>)
    requires InPlace(flat, kept, pos, s) && flat <= flat'
    ensures InPlace(flat', kept, pos, s)
  {
    assert flat'[..|flat|] == flat;
    assert flat'[pos..pos + |s|] == flat'[..|flat|][pos..pos + |s|];
  }

  lemma SliceOfAppend(flat: seq<byte>, block: seq<byte>, b: nat)
    requires |block| == BLOCK && |flat| % BLOCK == 0 && b * BLOCK <= |flat|
    ensures Slice(flat + block, b) == if b * BLOCK == |flat| then block else Slice(flat, b)
  {
  }

  lemma SliceOfUpdate(flat: seq<byte>, last: nat, off: nat, x: byte, b: nat)
    requires off < BLOCK && (last + 1) * BLOCK == |flat| && b <= last
    ensures Slice(flat[last * BLOCK + off := x], b)
            == if b == last then Slice(flat, b)[off := x] else Slice(flat, b)
  {
  }

  class LineStore {
    const ibuff: array<byte>
    const obuff: array<byte>
    const linebuf: array<byte>
    var iblock: int
    var oblock: int
    var ichanged: bool
    var nleft: nat
    var tline: nat
    var linebp: nat
    var tfile: seq<seq<byte>>   // the temporary file, block by block

    /** The contents of blocks 0..oblock, wherever they are kept. */
    ghost var flat: seq<byte>

    /** What each address handed out by PutLine stands for. */
    ghost var stored: map<nat, seq<byte>>

    /** Block b: the last one is in the output buffer, one other may be in the input
        buffer, perhaps newer than on file, the rest are on file. */
    ghost function Block(b: nat): seq<byte>
      requires b < |tfile| || b == oblock
      reads `tfile, `iblock, `oblock, ibuff, obuff
    {
      if b == oblock then obuff[..] else if b == iblock then ibuff[..] else tfile[b]
    }

    /** The two buffers and the file agree with the flat contents. */
    ghost predicate Coherent()
      reads `tfile, `iblock, `oblock, `ichanged, `flat, ibuff, obuff
    {
      && ibuff.Length == BLOCK && obuff.Length == BLOCK && linebuf.Length == LBSIZE
      && ibuff != obuff && ibuff != linebuf && obuff != linebuf
      && -1 <= iblock && -1 <= oblock < LASTBLOCK
      && oblock <= |tfile|
      && (ichanged ==> iblock >= 0)
      && (iblock >= 0 ==> iblock < oblock && (ichanged || ibuff[..] == tfile[iblock]))
      && (forall b :: 0 <= b < |tfile| ==> |tfile[b]| == BLOCK)
      && |flat| == (oblock + 1) * BLOCK
      && (forall b :: 0 <= b <= oblock ==> Slice(flat, b) == Block(b))
    }

    ghost predicate Valid()
      reads this, ibuff, obuff
    {
      Coherent() && NextLine() && Lines(flat, stored, tline)
    }

    /** The next line goes into the last block, or begins the block after it. */
    ghost predicate NextLine()
      reads `tline, `oblock
    {
      && tline % 2 == 0 && 2 <= tline <= LASTBLOCK * 256
      && (if oblock < 0 then tline < 256 else oblock * 256 <= tline <= (oblock + 1) * 256)
    }

    constructor ()
      ensures Valid() && stored == map[] && tline == 2
      ensures fresh(ibuff) && fresh(obuff) && fresh(linebuf)
    {
      ibuff := new byte[BLOCK];
      obuff := new byte[BLOCK];
      linebuf := new byte[LBSIZE];
      tline := 2;
      iblock := -1;
      oblock := -1;
      ichanged := false;
      tfile := [];
      nleft, linebp := 0, 0;
      stored, flat := map[], [];
    }

    /** blkio(b, buf, write): past the end of the file a hole reads as zeros. */
    method WriteBlock(b: nat, buf: array<byte>)
      requires buf.Length == BLOCK && forall k :: 0 <= k < |tfile| ==> |tfile[k]| == BLOCK
      modifies `tfile
      ensures |tfile| == if b < old(|tfile|) then old(|tfile|) else b + 1
      ensures tfile[b] == buf[..]
      ensures forall k :: 0 <= k < old(|tfile|) && k != b ==> tfile[k] == old(tfile[k])
      ensures forall k :: 0 <= k < |tfile| ==> |tfile[k]| == BLOCK
    {
      if b >= |tfile| {
        tfile := tfile + seq(b + 1 - |tfile|, i => seq(BLOCK, j => 0));
      }
      tfile := tfile[b := buf[..]];
    }

    /** blkio(b, ibuff, read) */
    method ReadBlock(b: nat) returns (ok: bool)
      requires ibuff.Length == BLOCK && forall k :: 0 <= k < |tfile| ==> |tfile[k]| == BLOCK
      modifies ibuff
      ensures ok <==> b < |tfile|
      ensures ok ==> ibuff[..] == tfile[b]
    {
      ok := b < |tfile|;
      if ok {
        var i := 0;
        while i < BLOCK
          invariant 0 <= i <= BLOCK && ibuff[..i] == tfile[b][..i]
        {
          ibuff[i] := tfile[b][i];
          i := i + 1;
        }
      }
    }

    /** Finds or makes room for the block of an address.  Reads name a block in
        use; a write may also name a block in a buffer, or begin the next block. */
    method GetBlock(atl: nat, write: bool) returns (ok: bool, buf: array<byte>, off: nat)
      requires Coherent()
      requires BlockOf(atl) >= LASTBLOCK || BlockOf(atl) <= oblock || (write && BlockOf(atl) == oblock + 1)
      requires write && BlockOf(atl) < LASTBLOCK ==> BlockOf(atl) == iblock || BlockOf(atl) >= oblock
      modifies `nleft, `iblock, `oblock, `ichanged, `tfile, `flat, ibuff, obuff
      ensures Coherent() && (ok <==> BlockOf(atl) < LASTBLOCK)
      ensures old(flat) <= flat
      ensures oblock == if ok && BlockOf(atl) > old(oblock) then BlockOf(atl) else old(oblock)
      ensures ok ==> off == OffsetOf(atl) && nleft == BLOCK - off && BlockOf(atl) <= oblock
      ensures ok ==> buf in {ibuff, obuff} && buf[..] == Block(BlockOf(atl))
      ensures ok && BlockOf(atl) >= old(oblock) ==> buf == obuff
      ensures ok && buf == ibuff && write ==> ichanged
    {
      var bno := BlockOf(atl);
      off := OffsetOf(atl);
      ok, buf := true, obuff;
      if bno >= LASTBLOCK {
        ok := false;
        return;
      }
      nleft := BLOCK - off;
      if bno == iblock {
        ichanged := ichanged || write;
        buf := ibuff;
        return;
      }
      if bno == oblock {
        return;
      }
      if !write {
        if ichanged {
          WriteBlock(iblock, ibuff);
        }
        ichanged := false;
        iblock := bno;
        ok := ReadBlock(bno);
        buf := ibuff;
        return;
      }
      if oblock >= 0 {
        WriteBlock(oblock, obuff);
      }
      forall b: nat | b <= bno
        ensures Slice(flat + obuff[..], b) == if b == bno then obuff[..] else Slice(flat, b)
      {
        SliceOfAppend(flat, obuff[..], b);
      }
      oblock := bno;
      flat := flat + obuff[..];
    }

    /** linebuf holds a line of n bytes, ended by NUL or newline. */
    ghost predicate LineInBuffer(n: nat)
      reads this, linebuf
    {
      && n < linebuf.Length
      && linebuf[n] in {0, NEWLINE}
      && forall i :: 0 <= i < n ==> linebuf[i] != 0 && linebuf[i] != NEWLINE
    }

    /** Position p is in the output buffer, at offset off, with nl bytes to go. */
    ghost predicate Cursor(p: nat, tl: nat, off: nat, nl: nat)
      reads this
    {
      oblock >= 0 && tl == oblock * 256 && nl > 0 && off + nl == BLOCK && p == oblock * BLOCK + off
    }

    /** *bp = b, in the output buffer */
    method PutByte(off: nat, b: byte, ghost q: nat)
      requires Coherent() && oblock >= 0 && off < BLOCK && q == oblock * BLOCK + off
      modifies obuff, `flat
      ensures Coherent() && flat == old(flat)[q := b]
    {
      forall k: nat | k <= oblock
        ensures Slice(flat[q := b], k) == if k == oblock then Slice(flat, k)[off := b] else Slice(flat, k)
      {
        SliceOfUpdate(flat, oblock, off, b, k);
      }
      ghost var was := obuff[..];
      assert Slice(flat, oblock) == was;
      obuff[off] := b;
      assert obuff[..] == was[off := b];
      flat := flat[q := b];
      forall k: nat | k <= oblock
        ensures Slice(flat, k) == Block(k)
      {
        assert k < oblock ==> Block(k) == old(Block(k));
      }
    }

    /** Puts one byte more after s at position pos. */
    method PutAfter(off: nat, b: byte, ghost kept: seq<byte>, ghost pos: nat, ghost s: seq<byte>)
      requires Coherent() && oblock >= 0 && off < BLOCK && pos + |s| == oblock * BLOCK + off
      requires InPlace(flat, kept, pos, s)
      modifies obuff, `flat
      ensures Coherent() && InPlace(flat, kept, pos, s + [b]) && InPlace(flat, kept, pos, s)
      ensures pos + |s| < |flat| && flat[pos + |s|] == b
    {
      InPlaceMore(flat, kept, pos, s, b);
      PutByte(off, b, pos + |s|);
    }

    /** Stores the line in linebuf; fails when it would reach the last block. */
    method PutLine(ghost n: nat) returns (ok: bool, addr: nat)
      requires Valid() && LineInBuffer(n)
      modifies this, ibuff, obuff
      ensures Valid()
      ensures ok <==> (Position(old(tline)) + n) / BLOCK < LASTBLOCK
      ensures ok ==> addr == old(tline) && addr !in old(stored) && stored == old(stored)[addr := linebuf[..n]]
      ensures ok ==> tline == addr + Units(n + 1)
      ensures ok ==> linebp == if linebuf[n] == NEWLINE then n + 1 else old(linebp)
      ensures !ok ==> stored == old(stored) && tline == old(tline)
    {
      addr := tline;
      var lp;
      ok, lp := CopyLine(n, Position(tline), Below(flat, Position(tline)));
      LinesKept(old(flat), flat, stored, tline);
      if ok {
        Commit(lp, linebuf[..n]);
      }
    }

    /** tline += (((lp - linebuf) + 03) >> 1) & 077776 */
    method Commit(lp: nat, ghost line: seq<byte>)
      requires Coherent() && oblock >= 0 && tline % 2 == 0 && 2 <= tline && Lines(flat, stored, tline)
      requires |line| < LBSIZE && 0 !in line && NEWLINE !in line && Holds(flat, Position(tline), line)
      requires lp == |line| + 1 && oblock == (Position(tline) + |line|) / BLOCK
      modifies `tline, `stored
      ensures Valid() && old(tline) !in old(stored)
      ensures tline == old(tline) + Units(lp) && stored == old(stored)[old(tline) := line]
    {
      var limit := tline + Units(lp);
      LinesPlusOne(flat, stored, tline, line, limit);
      LimitAfter(tline, |line|, oblock, limit);
      stored := stored[tline := line];
      tline := limit;
    }

    /** The next block to write, once the current one is full. */
    method NextBlock(tl0: nat, ghost p: nat, ghost kept: seq<byte>, ghost pos: nat, ghost s: seq<byte>)
      returns (ok: bool, tl: nat, off: nat, nl: nat)
      requires Coherent() && oblock >= 0 && tl0 == oblock * 256 && p == (oblock + 1) * BLOCK
      requires InPlace(flat, kept, pos, s)
      modifies `nleft, `iblock, `oblock, `ichanged, `tfile, `flat, ibuff, obuff
      ensures Coherent() && InPlace(flat, kept, pos, s)
      ensures ok <==> p / BLOCK < LASTBLOCK
      ensures if ok then Cursor(p, tl, off, nl) && oblock == old(oblock) + 1 else oblock == old(oblock)
    {
      tl := tl0 + 256;
      ghost var was := flat;
      var buf;
      ok, buf, off := GetBlock(tl, true);
      InPlaceAfter(was, flat, kept, pos, s);
      nl := nleft;
    }

    /** One pass of the copying loop: byte lp of the line goes to position q. */
    method CopyByte(lp: nat, tl0: nat, off0: nat, nl0: nat, ghost n: nat, ghost pos: nat, ghost kept: seq<byte>)
      returns (status: Status, tl: nat, off: nat, nl: nat)
      requires Coherent() && LineInBuffer(n) && lp <= n && Cursor(pos + lp, tl0, off0, nl0)
      requires InPlace(flat, kept, pos, linebuf[..lp])
      modifies `nleft, `iblock, `oblock, `ichanged, `tfile, `linebp, `flat, ibuff, obuff
      ensures Coherent() && (status.Done? <==> lp == n)
      ensures InPlace(flat, kept, pos, linebuf[..if lp == n then n else lp + 1])
      ensures status.Done? ==> oblock == old(oblock) && flat[pos + n] == 0
      ensures linebp == if status.Done? && linebuf[n] == NEWLINE then n + 1 else old(linebp)
      ensures status.More? ==> Cursor(pos + lp + 1, tl, off, nl) && oblock in {old(oblock), old(oblock) + 1}
      ensures status.Full? ==> pos + lp + 1 == LASTBLOCK * BLOCK && oblock == old(oblock)
    {
      tl, off, nl := tl0, off0, nl0;
      var c := linebuf[lp];
      PutAfter(off, c, kept, pos, linebuf[..lp]);
      assert linebuf[..lp] + [c] == linebuf[..lp + 1];
      if c == 0 {
        return Done, tl, off, nl;
      }
      off := off + 1;
      if c == NEWLINE {
        off := off - 1;
        PutAfter(off, 0, kept, pos, linebuf[..n]);
        linebp := lp + 1;
        return Done, tl, off, nl;
      }
      nl := nl - 1;
      status := More;
      if nl == 0 {
        var ok;
        ok, tl, off, nl := NextBlock(tl, pos + lp + 1, kept, pos, linebuf[..lp + 1]);
        status := if ok then More else Full;
      }
    }

    /** The block a line starts in. */
    method FirstBlock() returns (ok: bool, tl: nat, off: nat, nl: nat)
      requires Coherent() && NextLine()
      modifies `nleft, `iblock, `oblock, `ichanged, `tfile, `flat, ibuff, obuff
      ensures Coherent() && old(flat) <= flat && old(oblock) <= oblock
      ensures ok <==> tline < LASTBLOCK * 256
      ensures if ok then Cursor(Position(tline), tl, off, nl) else oblock == old(oblock)
    {
      AddressIsPosition(tline);
      tl := tline;
      var buf;
      ok, buf, off := GetBlock(tl, true);
      nl := nleft;
      tl := tl - tl % 256;
    }

    /** The copying loop of PutLine. */
    method CopyLine(ghost n: nat, ghost pos: nat, ghost kept: seq<byte>) returns (ok: bool, lp: nat)
      requires pos == Position(tline) && |kept| <= pos && kept <= flat
      requires Coherent() && NextLine() && LineInBuffer(n)
      modifies `nleft, `iblock, `oblock, `ichanged, `tfile, `linebp, `flat, ibuff, obuff
      ensures Coherent() && kept <= flat && old(oblock) <= oblock
      ensures if ok then 0 <= oblock * BLOCK <= pos + n < (oblock + 1) * BLOCK else pos + n >= LASTBLOCK * BLOCK
      ensures !ok ==> oblock * BLOCK <= pos
      ensures ok ==> lp == n + 1 && Holds(flat, pos, linebuf[..n])
      ensures ok ==> linebp == if linebuf[n] == NEWLINE then n + 1 else old(linebp)
    {
      lp := 0;
      var tl, off, nl;
      ok, tl, off, nl := FirstBlock();
      if !ok {
        return;
      }
      while true
        invariant Coherent() && lp <= n && InPlace(flat, kept, pos, linebuf[..lp])
        invariant Cursor(pos + lp, tl, off, nl)
        invariant ok && linebp == old(linebp) && old(oblock) <= oblock
        decreases n - lp
      {
        var status;
        status, tl, off, nl := CopyByte(lp, tl, off, nl, n, pos, kept);
        lp := lp + 1;
        if status.Done? {
          return;
        }
        if status.Full? {
          assert lp < LBSIZE && oblock * BLOCK <= pos;
          return false, lp;
        }
      }
    }

    /** A buffer that holds block bno of the store, for reading. */
    method ReadingBlock(tl: nat, ghost bno: nat) returns (buf: array<byte>, off: nat, nl: nat)
      requires Coherent() && bno == BlockOf(tl) && bno <= oblock
      modifies `nleft, `iblock, `oblock, `ichanged, `tfile, `flat, ibuff, obuff
      ensures Coherent() && flat == old(flat) && oblock == old(oblock)
      ensures off == OffsetOf(tl) && nl == BLOCK - off
      ensures buf in {ibuff, obuff} && buf[..] == Slice(flat, bno)
    {
      var ok;
      ok, buf, off := GetBlock(tl, false);
      nl := nleft;
      assert flat[..|old(flat)|] == flat;
    }

    /** Fetches the line an address stands for; the mark bit makes no difference. */
    method GetLine(tl0: nat)
      requires Valid() && tl0 - tl0 % 2 in stored
      modifies `nleft, `iblock, `oblock, `ichanged, `tfile, `flat, ibuff, obuff, linebuf
      ensures Valid() && flat == old(flat)
      ensures var s := stored[tl0 - tl0 % 2]; linebuf[..|s|] == s && linebuf[|s|] == 0
    {
      ghost var s := stored[tl0 - tl0 % 2];
      ghost var pos := Position(tl0);
      UnitsCover(|s| + 1);
      AddressIsPosition(tl0);
      CopyOut(tl0, pos, s);
    }

    /** The copying loop of GetLine. */
    method CopyOut(tl0: nat, ghost pos: nat, ghost s: seq<byte>)
      requires Coherent() && Holds(flat, pos, s) && 0 !in s && |s| < LBSIZE
      requires pos == BlockOf(tl0) * BLOCK + OffsetOf(tl0) && tl0 < 0x1_0000
      modifies `nleft, `iblock, `oblock, `ichanged, `tfile, `flat, ibuff, obuff, linebuf
      ensures Coherent() && flat == old(flat) && oblock == old(oblock)
      ensures linebuf[..|s|] == s && linebuf[|s|] == 0
    {
      var lp: nat := 0;
      var buf: array<byte>, tl: nat, off: nat, nl: nat;
      ghost var b: nat;
      buf, tl, off, nl, b := FirstReadingBlock(tl0, pos);
      while true
        invariant Coherent() && flat == old(flat) && oblock == old(oblock)
        invariant b <= oblock && tl == b * 256 && off + nl == BLOCK && nl > 0 && pos + lp == b * BLOCK + off
        invariant buf in {ibuff, obuff} && buf[..] == Slice(flat, b)
        invariant lp <= |s| && linebuf[..lp] == s[..lp]
        decreases |s| - lp
      {
        FlatByte(pos, lp, s, b, off, buf[..]);
        var c := buf[off];
        StoreByte(lp, c, s);
        if c == 0 {
          return;
        }
        lp, off, nl := lp + 1, off + 1, nl - 1;
        if nl == 0 {
          b := b + 1;
          buf, tl, off, nl := NextReadingBlock(tl, b);
        }
      }
    }

    /** The first block to read a line from. */
    method FirstReadingBlock(tl0: nat, ghost pos: nat) returns (buf: array<byte>, tl: nat, off: nat, nl: nat, ghost b: nat)
      requires Coherent() && tl0 < 0x1_0000 && pos == BlockOf(tl0) * BLOCK + OffsetOf(tl0) && pos < |flat|
      modifies `nleft, `iblock, `oblock, `ichanged, `tfile, `flat, ibuff, obuff
      ensures Coherent() && flat == old(flat) && oblock == old(oblock)
      ensures b <= oblock && tl == b * 256 && off + nl == BLOCK && nl > 0 && pos == b * BLOCK + off
      ensures buf in {ibuff, obuff} && buf[..] == Slice(flat, b)
    {
      b := BlockOf(tl0);
      AddressIsPosition(tl0);
      buf, off, nl := ReadingBlock(tl0, b);
      tl := tl0 - tl0 % 256;
    }

    /** The block after it. */
    method NextReadingBlock(tl0: nat, ghost b: nat) returns (buf: array<byte>, tl: nat, off: nat, nl: nat)
      requires Coherent() && 0 < b <= oblock && tl0 == (b - 1) * 256
      modifies `nleft, `iblock, `oblock, `ichanged, `tfile, `flat, ibuff, obuff
      ensures Coherent() && flat == old(flat) && oblock == old(oblock)
      ensures tl == b * 256 && off == 0 && nl == BLOCK
      ensures buf in {ibuff, obuff} && buf[..] == Slice(flat, b)
    {
      BlockStart(b);
      tl := tl0 + 256;
      buf, off, nl := ReadingBlock(tl, b);
    }

    /** *lp++ = c */
    method StoreByte(lp: nat, c: byte, ghost s: seq<byte>)
      requires lp < linebuf.Length && lp <= |s| && linebuf[..lp] == s[..lp] && c == if lp == |s| then 0 else s[lp]
      modifies linebuf
      ensures linebuf[lp] == c && linebuf[..lp] == s[..lp]
      ensures lp < |s| ==> linebuf[..lp + 1] == s[..lp + 1]
    {
      linebuf[lp] := c;
    }

    lemma FlatByte(pos: nat, lp: nat, s: seq<byte>, b: nat, off: nat, block: seq<byte>)
      requires Holds(flat, pos, s) && 0 !in s && lp <= |s| && pos + lp == b * BLOCK + off && off < BLOCK
      requires (b + 1) * BLOCK <= |flat| && block == Slice(flat, b)
      ensures block[off] == if lp == |s| then 0 else s[lp]
      ensures block[off] == 0 <==> lp == |s|
    {
      if lp < |s| {
        assert flat[pos..pos + |s|][lp] == flat[pos + lp];
        assert s[lp] in s;
      }
    }
  }

  datatype Status = More | Done | Full
}
