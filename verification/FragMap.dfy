/** A map with one bit per fragment, read and written by whole blocks of 1, 2, 4 or
    8 fragments. */
module FragMap {

  /** 1 << k */
  function Bit(k: nat): bv8
    requires k < 8
  {
    if k == 0 then 0x01 else if k == 1 then 0x02 else if k == 2 then 0x04 else if k == 3 then 0x08
    else if k == 4 then 0x10 else if k == 5 then 0x20 else if k == 6 then 0x40 else 0x80
  }

  /** The bits of block j of a byte: 0xff, 0x0f << (j << 2), 0x03 << (j << 1), 0x01 << j. */
  function Mask(frag: nat, j: nat): bv8
    requires frag in {1, 2, 4, 8} && j < 8 / frag
  {
    if frag == 8 then 0xff
    else if frag == 4 then if j == 0 then 0x0f else 0xf0
    else if frag == 2 then if j == 0 then 0x03 else if j == 1 then 0x0c else if j == 2 then 0x30 else 0xc0
    else Bit(j)
  }

  predicate Has(b: bv8, k: nat)
    requires k < 8
  {
    b & Bit(k) != 0
  }

  lemma MaskBits(frag: nat, j: nat, k: nat)
    requires frag in {1, 2, 4, 8} && j < 8 / frag && k < 8
    ensures Has(Mask(frag, j), k) <==> j * frag <= k < j * frag + frag
  {
  }

  lemma OrBits(b: bv8, m: bv8, k: nat)
    requires k < 8
    ensures Has(b | m, k) <==> Has(b, k) || Has(m, k)
  {
  }

  lemma AndNotBits(b: bv8, m: bv8, k: nat)
    requires k < 8
    ensures Has(b & !m, k) <==> Has(b, k) && !Has(m, k)
  {
  }

  lemma AllBits(b: bv8, m: bv8)
    ensures b & m == m <==> forall k: nat :: k < 8 && Has(m, k) ==> Has(b, k)
  {
    if forall k: nat :: k < 8 && Has(m, k) ==> Has(b, k) {
      assert Has(m, 0) ==> Has(b, 0);
      assert Has(m, 1) ==> Has(b, 1);
      assert Has(m, 2) ==> Has(b, 2);
      assert Has(m, 3) ==> Has(b, 3);
      assert Has(m, 4) ==> Has(b, 4);
      assert Has(m, 5) ==> Has(b, 5);
      assert Has(m, 6) ==> Has(b, 6);
      assert Has(m, 7) ==> Has(b, 7);
    } else {
      var k: nat :| k < 8 && Has(m, k) && !Has(b, k);
    }
  }

  /** b | mask */
  method OrMask(b: bv8, frag: nat, j: nat) returns (r: bv8)
    requires frag in {1, 2, 4, 8} && j < 8 / frag
    ensures forall k: nat {:trigger Has(r, k)} :: k < 8 ==>
      (Has(r, k) <==> if j * frag <= k < j * frag + frag then true else Has(b, k))
  {
    r := b | Mask(frag, j);
    forall k: nat | k < 8
      ensures Has(r, k) <==> if j * frag <= k < j * frag + frag then true else Has(b, k)
    {
      MaskBits(frag, j, k);
      OrBits(b, Mask(frag, j), k);
    }
  }

  /** b & ~mask */
  method AndNotMask(b: bv8, frag: nat, j: nat) returns (r: bv8)
    requires frag in {1, 2, 4, 8} && j < 8 / frag
    ensures forall k: nat {:trigger Has(r, k)} :: k < 8 ==>
      (Has(r, k) <==> if j * frag <= k < j * frag + frag then false else Has(b, k))
  {
    r := b & !Mask(frag, j);
    forall k: nat | k < 8
      ensures Has(r, k) <==> if j * frag <= k < j * frag + frag then false else Has(b, k)
    {
      MaskBits(frag, j, k);
      AndNotBits(b, Mask(frag, j), k);
    }
  }

  /** (b & mask) == mask */
  method HasMask(b: bv8, frag: nat, j: nat) returns (r: bool)
    requires frag in {1, 2, 4, 8} && j < 8 / frag
    ensures r <==> forall k: nat {:trigger Has(b, k)} :: k < 8 && j * frag <= k < j * frag + frag ==> Has(b, k)
  {
    var m := Mask(frag, j);
    r := b & m == m;
    AllBits(b, m);
    forall k: nat | k < 8
      ensures Has(m, k) <==> j * frag <= k < j * frag + frag
    {
      MaskBits(frag, j, k);
    }
  }

  /** free with every fragment in lo..hi - 1 made free, or not. */
  function Filled(free: seq<bool>, lo: nat, hi: nat, value: bool): (r: seq<bool>)
    requires lo <= hi <= |free|
    ensures |r| == |free|
  {
    seq(|free|, i requires 0 <= i < |free| => if lo <= i < hi then value else free[i])
  }

  /** The fragments that are free in a map of these bytes. */
  function BitsOf(bytes: seq<bv8>): (free: seq<bool>)
    ensures |free| == 8 * |bytes|
  {
    seq(8 * |bytes|, i requires 0 <= i < 8 * |bytes| => Has(bytes[i / 8], i % 8))
  }

  class FragMap {
    const cp: array<bv8>
    const frag: nat
    ghost var free: seq<bool>

    ghost predicate Valid()
      reads this, cp
    {
      && frag in {1, 2, 4, 8}
      && |free| == 8 * cp.Length
      && forall i :: 0 <= i < |free| ==> (free[i] <==> Has(cp[i / 8], i % 8))
    }

    /** A map of whatever the bytes happen to hold. */
    constructor (frag: nat, bytes: nat)
      requires frag in {1, 2, 4, 8}
      ensures Valid() && fresh(cp) && this.frag == frag && cp.Length == bytes
    {
      this.frag := frag;
      var store := new bv8[bytes];
      cp := store;
      ghost var held := store[..];
      free := seq(8 * bytes, i requires 0 <= i < 8 * bytes => Has(held[i / 8], i % 8));
    }

    /** The number of blocks the map has room for. */
    function Blocks(): nat
      requires frag > 0
    {
      8 * cp.Length / frag
    }

    /** Is every fragment of block h free? */
    ghost predicate Full(h: nat)
      requires Valid() && h < Blocks()
      reads this, cp
    {
      forall i :: h * frag <= i < h * frag + frag ==> free[i]
    }

    lemma BlockInByte(h: nat)
      requires Valid() && h < Blocks()
      ensures h * frag + frag <= |free| && h / (8 / frag) < cp.Length && h % (8 / frag) < 8 / frag
      ensures h * frag == h / (8 / frag) * 8 + h % (8 / frag) * frag
    {
      if frag == 8 {
      } else if frag == 4 {
      } else if frag == 2 {
      } else {
      }
    }

    /** Byte j becomes b: fragments lo..hi - 1, all in that byte, take the value. */
    method PutByte(j: nat, b: bv8, ghost lo: nat, ghost hi: nat, ghost value: bool)
      requires Valid() && j < cp.Length && j * 8 <= lo <= hi <= j * 8 + 8
      requires forall k: nat :: k < 8 ==> (Has(b, k) <==> if lo <= j * 8 + k < hi then value else Has(cp[j], k))
      modifies cp, `free
      ensures Valid() && free == Filled(old(free), lo, hi, value)
    {
      cp[j] := b;
      free := Filled(free, lo, hi, value);
    }

    /** What the map says, byte by byte. */
    lemma FreeIsBits()
      requires Valid()
      ensures free == BitsOf(cp[..])
    {
      assert forall i :: 0 <= i < |free| ==> cp[..][i / 8] == cp[i / 8];
    }

    /** The map as it was written to the disk. */
    method Load(bytes: seq<bv8>)
      requires Valid() && |bytes| == cp.Length
      modifies cp, `free
      ensures Valid() && cp[..] == bytes
    {
      var i := 0;
      while i < |bytes|
        invariant 0 <= i <= |bytes| && cp[..i] == bytes[..i]
      {
        cp[i] := bytes[i];
        i := i + 1;
      }
      free := BitsOf(bytes);
      assert cp[..] == bytes;
    }

    method SetBlock(h: nat)
      requires Valid() && h < Blocks()
      modifies cp, `free
      ensures Valid() && free == Filled(old(free), h * frag, h * frag + frag, true)
    {
      BlockInByte(h);
      var j := h / (8 / frag);
      var b := OrMask(cp[j], frag, h % (8 / frag));
      PutByte(j, b, h * frag, h * frag + frag, true);
    }

    method ClrBlock(h: nat)
      requires Valid() && h < Blocks()
      modifies cp, `free
      ensures Valid() && free == Filled(old(free), h * frag, h * frag + frag, false)
    {
      BlockInByte(h);
      var j := h / (8 / frag);
      var b := AndNotMask(cp[j], frag, h % (8 / frag));
      PutByte(j, b, h * frag, h * frag + frag, false);
    }

    method IsBlock(h: nat) returns (full: bool)
      requires Valid() && h < Blocks()
      ensures full <==> Full(h)
    {
      BlockInByte(h);
      var j, r := h / (8 / frag), h % (8 / frag);
      full := HasMask(cp[j], frag, r);
      FullByte(h, j, r, h * frag, r * frag);
    }

    lemma FullByte(h: nat, j: nat, r: nat, lo: nat, first: nat)
      requires Valid() && h < Blocks() && lo == h * frag && lo == j * 8 + first && j < cp.Length && first + frag <= 8
      ensures Full(h) <==> forall k: nat {:trigger Has(cp[j], k)} :: k < 8 && first <= k < first + frag ==> Has(cp[j], k)
    {
      if Full(h) {
        forall k: nat | k < 8 && first <= k < first + frag
          ensures Has(cp[j], k)
        {
          assert free[j * 8 + k];
        }
      } else {
        var i :| lo <= i < lo + frag && !free[i];
        assert !Has(cp[j], i - j * 8);
      }
    }

    /** setbit(cp, i) */
    method SetBit(i: nat)
      requires Valid() && i < |free|
      modifies cp, `free
      ensures Valid() && free == Filled(old(free), i, i + 1, true)
    {
      var b := OrMask(cp[i / 8], 1, i % 8);
      PutByte(i / 8, b, i, i + 1, true);
    }

    /** clrbit(cp, i) */
    method ClrBit(i: nat)
      requires Valid() && i < |free|
      modifies cp, `free
      ensures Valid() && free == Filled(old(free), i, i + 1, false)
    {
      var b := AndNotMask(cp[i / 8], 1, i % 8);
      PutByte(i / 8, b, i, i + 1, false);
    }
  }
}
