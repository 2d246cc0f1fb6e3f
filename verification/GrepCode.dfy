/** The byte code of a pattern: opcodes, operands and classes.  ed uses the same code,
    but writes out the members of a class where grep has a bitmap. */
module GrepCode {
  import opened Common
  import opened Patterns
  import opened GrepSyntax

  const CBRA: byte := 1
  const CCHR: byte := 2
  const CDOT: byte := 4
  const CCL: byte := 6
  const NCCL: byte := 8
  const CDOL: byte := 10
  const CEOF: byte := 11
  const CKET: byte := 12
  const STAR: byte := 1

  /** b & (1 << k), written on the binary digits of b. */
  predicate HasBit(b: nat, k: nat) {
    if k == 0 then b % 2 == 1 else HasBit(b / 2, k - 1)
  }

  /** b | (1 << k) in a word of w bits */
  function SetBit(b: nat, k: nat, w: nat): (r: nat)
    requires k < w && b < Pow2(w)
    ensures r < Pow2(w)
    decreases k
  {
    if k == 0 then b - b % 2 + 1 else b % 2 + 2 * SetBit(b / 2, k - 1, w - 1)
  }

  /** b ^ -1 in a word of w bits */
  function FlipBits(b: nat, w: nat): (r: nat)
    ensures r < Pow2(w)
  {
    if w == 0 then 0 else 1 - b % 2 + 2 * FlipBits(b / 2, w - 1)
  }

  /** b & ~1 */
  function ClearBit0(b: nat): nat {
    b - b % 2
  }

  lemma {:induction false} SetBitEffect(b: nat, k: nat, w: nat, m: nat)
    requires k < w && b < Pow2(w)
    ensures HasBit(SetBit(b, k, w), m) <==> m == k || HasBit(b, m)
    decreases k
  {
    var r := SetBit(b, k, w);
    if k == 0 {
      assert r / 2 == b / 2 && r % 2 == 1;
    } else {
      assert r / 2 == SetBit(b / 2, k - 1, w - 1) && r % 2 == b % 2;
      if m > 0 {
        SetBitEffect(b / 2, k - 1, w - 1, m - 1);
      }
    }
  }

  lemma {:induction false} FlipBitsEffect(b: nat, w: nat, m: nat)
    requires m < w
    ensures HasBit(FlipBits(b, w), m) <==> !HasBit(b, m)
  {
    var r := FlipBits(b, w);
    assert r / 2 == FlipBits(b / 2, w - 1) && r % 2 == 1 - b % 2;
    if m > 0 {
      FlipBitsEffect(b / 2, w - 1, m - 1);
    }
  }

  lemma ClearBit0Effect(b: nat, m: nat)
    ensures HasBit(ClearBit0(b), m) <==> m > 0 && HasBit(b, m)
  {
    assert ClearBit0(b) / 2 == b / 2;
  }

  lemma {:induction false} ZeroHasNoBit(m: nat)
    ensures !HasBit(0, m)
  {
    if m > 0 {
      ZeroHasNoBit(m - 1);
    }
  }

  lemma Pow2Of8()
    ensures Pow2(8) == 256
  {
    assert Pow2(4) == 16;
    assert Pow2(6) == 64;
  }

  /** The 16 bytes from at are the bitmap of members. */
  ghost predicate Bitmap(code: seq<byte>, at: nat, members: set<byte>)
    requires at + 16 <= |code|
  {
    forall c: byte {:trigger c in members} :: c < 128 ==> (HasBit(code[at + c / 8], c % 8) <==> c in members)
  }

  /** A count, itself included, and the members one by one. */
  ghost predicate ListAt(code: seq<byte>, at: nat, end: nat, listed: seq<byte>)
    requires at <= end <= |code|
  {
    end == at + 1 + |listed| && code[at] == |listed| + 1 && code[at + 1..end] == listed
  }

  ghost predicate AtomAt(code: seq<byte>, e: nat, end: nat, a: Atom)
    requires e < end <= |code|
  {
    match a
    case Char(c) => end == e + 2 && code[e + 1] == c
    case Any => end == e + 1
    case Class(members) => end == e + 17 && Bitmap(code, e + 1, members)
    case Listed(listed) => ListAt(code, e + 1, end, listed)
    case Unlisted(listed) => ListAt(code, e + 1, end, listed)
  }

  function Opcode(a: Atom): byte {
    match a
    case Char(_) => CCHR
    case Any => CDOT
    case Unlisted(_) => NCCL
    case _ => CCL
  }

  /** code[e..end) is the byte code of the item. */
  ghost predicate ItemAt(code: seq<byte>, e: nat, end: nat, it: Item) {
    && e < end <= |code|
    && match it
       case One(a) => code[e] == Opcode(a) && AtomAt(code, e, end, a)
       case Many(a) => code[e] == Opcode(a) + STAR && AtomAt(code, e, end, a)
       case EndOfLine => end == e + 1 && code[e] == CDOL
       case Open(n) => end == e + 2 && code[e] == CBRA && code[e + 1] == n
       case Close(n) => end == e + 2 && code[e] == CKET && code[e + 1] == n
  }

  /** Item k of the program occupies code[offsets[k]..offsets[k + 1]). */
  ghost predicate Laid(code: seq<byte>, items: seq<Item>, offsets: seq<nat>) {
    && |offsets| == |items| + 1
    && offsets[0] == 0
    && offsets[|items|] <= |code|
    && forall k :: 0 <= k < |items| ==> ItemAt(code, offsets[k], offsets[k + 1], items[k])
  }

  lemma LaidIsMonotonic(code: seq<byte>, items: seq<Item>, offsets: seq<nat>, k: nat)
    requires Laid(code, items, offsets) && k <= |items|
    ensures offsets[k] <= offsets[|items|]
    ensures k < |items| ==> offsets[k] < offsets[k + 1] <= offsets[|items|]
    decreases |items| - k
  {
    if k < |items| {
      assert ItemAt(code, offsets[k], offsets[k + 1], items[k]);
      LaidIsMonotonic(code, items, offsets, k + 1);
    }
  }

  /** Bytes past the laid code do not matter. */
  lemma LaidIsLocal(code: seq<byte>, code': seq<byte>, items: seq<Item>, offsets: seq<nat>)
    requires Laid(code, items, offsets)
    requires offsets[|items|] <= |code'|
    requires forall i :: 0 <= i < offsets[|items|] ==> code'[i] == code[i]
    ensures Laid(code', items, offsets)
  {
    forall k | 0 <= k < |items|
      ensures ItemAt(code', offsets[k], offsets[k + 1], items[k])
    {
      LaidIsMonotonic(code, items, offsets, k);
      ItemIsLocal(code, code', offsets[k], offsets[k + 1], items[k]);
    }
  }

  lemma ItemIsLocal(code: seq<byte>, code': seq<byte>, e: nat, end: nat, it: Item)
    requires ItemAt(code, e, end, it) && end <= |code'|
    requires forall i :: e <= i < end ==> code'[i] == code[i]
    ensures ItemAt(code', e, end, it)
  {
    if it.One? || it.Many? {
      AtomIsLocal(code, code', e, end, it.atom);
    }
  }

  lemma AtomIsLocal(code: seq<byte>, code': seq<byte>, e: nat, end: nat, a: Atom)
    requires e < end <= |code| && end <= |code'| && AtomAt(code, e, end, a)
    requires forall i :: e < i < end ==> code'[i] == code[i]
    ensures AtomAt(code', e, end, a)
  {
    match a {
      case Class(members) =>
        forall c: byte | c < 128
          ensures HasBit(code'[e + 1 + c / 8], c % 8) <==> c in members
        {
          assert code'[e + 1 + c / 8] == code[e + 1 + c / 8];
        }
      case Listed(listed) => assert code'[e + 2..end] == code[e + 2..end];
      case Unlisted(listed) => assert code'[e + 2..end] == code[e + 2..end];
      case _ =>
    }
  }

  /** One more item after the laid code. */
  lemma LaidAppend(code: seq<byte>, code': seq<byte>, items: seq<Item>, offsets: seq<nat>, it: Item, end: nat)
    requires Laid(code, items, offsets)
    requires offsets[|items|] <= |code'|
    requires forall i :: 0 <= i < offsets[|items|] ==> code'[i] == code[i]
    requires ItemAt(code', offsets[|items|], end, it)
    ensures Laid(code', items + [it], offsets + [end])
  {
    LaidIsLocal(code, code', items, offsets);
  }

  /** Setting the star bit of the last opcode repeats the last item. */
  lemma LaidRepeated(code: seq<byte>, items: seq<Item>, offsets: seq<nat>)
    requires Laid(code, items, offsets) && Repeatable(items)
    requires code[offsets[|items| - 1]] % 2 == 0
    ensures ItemAt(code, offsets[|items| - 1], offsets[|items|], items[|items| - 1])
    ensures var e := offsets[|items| - 1]; Laid(code[e := code[e] + STAR], Repeated(items), offsets)
  {
    var n := |items| - 1;
    var e := offsets[n];
    var code' := code[e := code[e] + STAR];
    assert ItemAt(code, e, offsets[n + 1], items[n]);
    forall k | 0 <= k < |items|
      ensures ItemAt(code', offsets[k], offsets[k + 1], Repeated(items)[k])
    {
      if k < n {
        PrefixLaid(code, items, offsets, k, n);
        ItemIsLocal(code, code', offsets[k], offsets[k + 1], items[k]);
      } else {
        AtomIsLocal(code, code', e, offsets[n + 1], items[n].atom);
      }
    }
  }

  lemma PrefixLaid(code: seq<byte>, items: seq<Item>, offsets: seq<nat>, k: nat, n: nat)
    requires Laid(code, items, offsets) && k < n <= |items|
    ensures offsets[k + 1] <= offsets[n]
    decreases n - k
  {
    if k + 1 < n {
      assert ItemAt(code, offsets[k + 1], offsets[k + 2], items[k + 1]);
      PrefixLaid(code, items, offsets, k + 1, n);
    }
  }

  lemma {:induction false} LaidSize(code: seq<byte>, items: seq<Item>, offsets: seq<nat>)
    requires Laid(code, items, offsets)
    ensures offsets[|items|] == CodeSize(items)
  {
    if items != [] {
      var n := |items| - 1;
      assert ItemAt(code, offsets[n], offsets[n + 1], items[n]);
      var front := items[..n];
      assert Laid(code, front, offsets[..n + 1]);
      LaidSize(code, front, offsets[..n + 1]);
    }
  }
}
