/** ed's array of line addresses, edited in place by shifting and by reversals. */
module EdLines {
  import opened Common

  lemma {:induction false} ReversedTwice(s: seq<int>)
    ensures Reversed(Reversed(s)) == s
  {
    if s != [] {
      ReversedOfConcat(Reversed(s[1..]), [s[0]]);
      ReversedTwice(s[1..]);
      assert Reversed([s[0]]) == [s[0]];
    }
  }

  /** Three reversals exchange two neighbouring blocks. */
  lemma ThreeReversals(s: seq<int>, t: seq<int>)
    ensures Reversed(Reversed(s) + Reversed(t)) == t + s
  {
    ReversedOfConcat(Reversed(s), Reversed(t));
    ReversedTwice(s);
    ReversedTwice(t);
  }

  lemma ReversedIs(was: seq<int>, now: seq<int>, a1: nat, a2: nat)
    requires a1 <= a2 <= |was| == |now|
    requires forall k :: 0 <= k < |was| && !(a1 <= k < a2) ==> now[k] == was[k]
    requires forall k :: a1 <= k < a2 ==> now[k] == was[a1 + a2 - 1 - k]
    ensures now == was[..a1] + Reversed(was[a1..a2]) + was[a2..]
  {
    var x := was[a1..a2];
    forall k | 0 <= k < |x|
      ensures now[a1..a2][k] == Reversed(x)[k]
    {
      ReversedAt(x, k);
      assert x[|x| - 1 - k] == was[a2 - 1 - k];
    }
    assert now[a1..a2] == Reversed(x);
  }

  /** An address without its mark: a & ~01 */
  function Unmarked(a: int): int { a - a % 2 }

  predicate Marked(a: int) { a % 2 == 1 }

  function UnmarkAll(s: seq<int>): seq<int> {
    seq(|s|, i requires 0 <= i < |s| => Unmarked(s[i]))
  }

  /** Lines first..last without their marks. */
  function Unmarking(s: seq<int>, first: nat, last: nat): seq<int>
    requires 1 <= first <= last <= |s|
  {
    s[..first - 1] + UnmarkAll(s[first - 1..last]) + s[last..]
  }

  /** The unmarked lines, in order. */
  function Survivors(s: seq<int>): seq<int> {
    if s == [] then []
    else if Marked(s[|s| - 1]) then Survivors(s[..|s| - 1])
    else Survivors(s[..|s| - 1]) + [s[|s| - 1]]
  }

  lemma {:induction false} SurvivorsLength(s: seq<int>)
    ensures |Survivors(s)| <= |s|
    ensures (forall i :: 0 <= i < |s| ==> !Marked(s[i])) ==> Survivors(s) == s
  {
    if s != [] {
      SurvivorsLength(s[..|s| - 1]);
    }
  }

  /** Deleting lines first..last (counted from 1). */
  function Without(s: seq<int>, first: nat, last: nat): seq<int>
    requires 1 <= first <= last <= |s|
  {
    s[..first - 1] + s[last..]
  }

  /** Putting block after line at (0 for the front). */
  function Inserted(s: seq<int>, at: nat, block: seq<int>): seq<int>
    requires at <= |s|
  {
    s[..at] + block + s[at..]
  }

  /** What moving lines first..last after line to means: take them out, put them in. */
  function Moved(s: seq<int>, first: nat, last: nat, to: nat): seq<int>
    requires 1 <= first <= last <= |s| && to <= |s| && !(first <= to <= last)
  {
    var rest := Without(s, first, last);
    Inserted(rest, if to < first then to else to - (last - first + 1), UnmarkAll(s[first - 1..last]))
  }

  /** The number of the last moved line in its new place. */
  function DotAfterMove(first: nat, last: nat, to: nat): nat
    requires first <= last
  {
    if to < first then to + (last - first + 1) else to
  }

  /** dot ends on the last moved line; the other lines keep their order. */
  lemma MoveLeavesDotOnLastLine(s: seq<int>, first: nat, last: nat, to: nat)
    requires 1 <= first <= last <= |s| && to <= |s| && !(first <= to <= last)
    ensures Moved(s, first, last, to)[DotAfterMove(first, last, to) - 1] == Unmarked(s[last - 1])
    ensures var m, d, n := Moved(s, first, last, to), DotAfterMove(first, last, to), last - first + 1;
      m[..d - n] + m[d..] == Without(s, first, last) && m[d - n..d] == UnmarkAll(s[first - 1..last])
  {
    if to < first {
      MovedUp(s, first, last, to);
    } else {
      MovedDown(s, first, last, to);
    }
  }

  class Buffer {
    /** Slot 0 is never a line; lines are in slots 1..dol. */
    const zero: array<int>
    var dot: nat
    var dol: nat
    var fchange: bool

    constructor (slots: nat)
      requires slots >= 2
      ensures Valid() && Lines() == [] && dot == 0 && !fchange && zero.Length == slots && fresh(zero)
    {
      zero := new int[slots](_ => 0);
      dot, dol, fchange := 0, 0, false;
    }

    /** There is always a free slot past the last line. */
    ghost predicate Valid()
      reads this, zero
    {
      dot <= dol && dol + 1 < zero.Length
    }

    ghost function Lines(): seq<int>
      requires Valid()
      reads this, zero
    {
      zero[1..dol + 1]
    }

    /** Reverses slots a1..a2 - 1. */
    method Reverse(a1: nat, a2: nat)
      requires a1 <= a2 <= zero.Length && 0 < a2
      modifies zero
      ensures zero[..] == old(zero[..a1]) + Reversed(old(zero[a1..a2])) + old(zero[a2..])
    {
      var i, j: int := a1, a2;
      ghost var was := zero[..];
      while true
        invariant a1 <= i <= a2 && i <= j + 1 && j <= a2 && 0 < j + 1 && i - a1 == a2 - j
        invariant i < j || i == j || i == j + 1
        invariant forall k :: 0 <= k < zero.Length && !(a1 <= k < i || j <= k < a2) ==> zero[k] == was[k]
        invariant forall k :: a1 <= k < i ==> zero[k] == was[a1 + a2 - 1 - k]
        invariant forall k :: j <= k < a2 ==> zero[k] == was[a1 + a2 - 1 - k]
        decreases j
      {
        j := j - 1;
        if j <= i {
          break;
        }
        var t := zero[j];
        zero[j] := zero[i];
        zero[i] := t;
        i := i + 1;
      }
      ReversedIs(was, zero[..], a1, a2);
    }

    /** The m command: moves lines addr1..addr2 after line adt. */
    method Move(addr1: nat, addr2: nat, adt: nat) returns (ok: bool)
      requires Valid() && 1 <= addr1 <= addr2 <= dol && adt <= dol
      modifies this, zero
      ensures Valid() && dol == old(dol)
      ensures ok <==> !(addr1 <= adt <= addr2)
      ensures ok ==> Lines() == Moved(old(Lines()), addr1, addr2, adt)
      ensures ok ==> dot == DotAfterMove(addr1, addr2, adt)
      ensures fchange == (old(fchange) || (ok && adt + 1 != addr1))
      ensures !ok ==> dot == old(dot)
      ensures !ok ==> Lines() == Unmarking(old(Lines()), addr1, addr2)
    {
      ghost var s, z, beyond := Lines(), zero[0], zero[dol + 1..];
      Slots();
      ClearBlock(addr1, addr2, z, s, beyond);
      ok := Relocate(addr1, addr2, adt, z, s, beyond);
    }

    lemma Slots()
      requires Valid()
      ensures zero[..] == [zero[0]] + Lines() + zero[dol + 1..]
    {
    }

    /** Moves the lines first..last, already unmarked. */
    method Relocate(first: nat, last: nat, adt: nat, ghost z: int, ghost s: seq<int>, ghost beyond: seq<int>) returns (ok: bool)
      requires Valid() && 1 <= first <= last <= dol && adt <= dol == |s|
      requires zero[..] == ([z] + s[..first - 1]) + UnmarkAll(s[first - 1..last]) + (s[last..] + beyond)
      requires Lines() == Unmarking(s, first, last)
      modifies `dot, `fchange, zero
      ensures Valid() && (ok <==> !(first <= adt <= last))
      ensures ok ==> Lines() == Moved(s, first, last, adt) && dot == DotAfterMove(first, last, adt)
      ensures fchange == (old(fchange) || (ok && adt + 1 != first))
      ensures !ok ==> dot == old(dot) && Lines() == Unmarking(s, first, last)
    {
      var ad1, ad2 := first, last + 1;
      ghost var u := UnmarkAll(s[first - 1..last]);
      ok := true;
      if adt < ad1 {
        dot := adt + (ad2 - ad1);
        MovedUp(s, first, last, adt);
        if adt + 1 == ad1 {
          return;
        }
        MoveUp(ad1, ad2, adt, z, s[..adt], s[adt..first - 1], u, s[last..], beyond);
      } else if adt >= ad2 {
        dot := adt;
        MovedDown(s, first, last, adt);
        MoveDown(ad1, ad2, adt, z, s[..first - 1], u, s[last..adt], s[adt..], beyond);
      } else {
        return false;
      }
      fchange := true;
    }

    method ClearBlock(addr1: nat, addr2: nat, ghost z: int, ghost s: seq<int>, ghost beyond: seq<int>)
      requires Valid() && 1 <= addr1 <= addr2 <= dol == |s| && zero[..] == [z] + s + beyond
      modifies zero
      ensures zero[..] == ([z] + s[..addr1 - 1]) + UnmarkAll(s[addr1 - 1..addr2]) + (s[addr2..] + beyond)
      ensures Lines() == Unmarking(s, addr1, addr2)
    {
      Pieces(z, s, beyond, addr1, addr2);
      ClearMarks(addr1, addr2, [z] + s[..addr1 - 1], s[addr1 - 1..addr2], s[addr2..] + beyond);
      SetLines(z, s[..addr1 - 1], UnmarkAll(s[addr1 - 1..addr2]), s[addr2..], [], beyond);
    }

    method MoveUp(ad1: nat, ad2: nat, adt: nat, ghost z: int, ghost p: seq<int>, ghost q: seq<int>, ghost u: seq<int>,
                  ghost t: seq<int>, ghost beyond: seq<int>)
      requires Valid() && zero[..] == ([z] + (p + q)) + u + (t + beyond) && u != [] && q != []
      requires |p| == adt && |p + q| == ad1 - 1 && |p + q + u| == ad2 - 1 && |p + q + u + t| == dol
      modifies zero
      ensures Lines() == p + u + q + t
    {
      assert zero[..] == ([z] + p) + q + u + (t + beyond);
      Exchange(adt + 1, ad1, ad2, [z] + p, q, u, t + beyond);
      SetLines(z, p, u, q, t, beyond);
    }

    method MoveDown(ad1: nat, ad2: nat, adt: nat, ghost z: int, ghost p: seq<int>, ghost u: seq<int>, ghost q: seq<int>,
                    ghost t: seq<int>, ghost beyond: seq<int>)
      requires Valid() && zero[..] == ([z] + p) + u + ((q + t) + beyond) && u != [] && q != []
      requires |p| == ad1 - 1 && |p + u| == ad2 - 1 && |p + u + q| == adt && |p + u + q + t| == dol
      modifies zero
      ensures Lines() == p + q + u + t
    {
      assert zero[..] == ([z] + p) + u + q + (t + beyond);
      Exchange(ad1, ad2, adt + 1, [z] + p, u, q, t + beyond);
      SetLines(z, p, q, u, t, beyond);
    }

    /** Reads the lines off the contents of the array. */
    lemma SetLines(z: int, a: seq<int>, b: seq<int>, c: seq<int>, d: seq<int>, beyond: seq<int>)
      requires Valid() && dol == |a + b + c + d|
      requires zero[..] == ([z] + a) + b + (c + (d + beyond)) || zero[..] == ([z] + a) + b + c + (d + beyond)
      ensures Lines() == a + b + c + d
    {
      assert zero[..] == [z] + (a + b + c + d) + beyond;
      LinesOf(z, a + b + c + d, beyond);
    }

    method ClearMarks(addr1: nat, addr2: nat, ghost pre: seq<int>, ghost block: seq<int>, ghost post: seq<int>)
      requires addr1 <= addr2 < zero.Length && zero[..] == pre + block + post
      requires |pre| == addr1 && |block| == addr2 + 1 - addr1
      modifies zero
      ensures zero[..] == pre + UnmarkAll(block) + post
    {
      var ad1 := addr1;
      while ad1 <= addr2
        invariant addr1 <= ad1 <= addr2 + 1
        invariant zero[..] == pre + UnmarkAll(block[..ad1 - addr1]) + block[ad1 - addr1..] + post
      {
        ghost var k := ad1 - addr1;
        assert UnmarkAll(block[..k + 1]) == UnmarkAll(block[..k]) + [Unmarked(block[k])];
        zero[ad1] := Unmarked(zero[ad1]);
        ad1 := ad1 + 1;
      }
      assert block[..ad1 - addr1] == block;
    }

    /** The three reversals: slots a..b - 1 and b..c - 1 change places. */
    method Exchange(a: nat, b: nat, c: nat, ghost pre: seq<int>, ghost x: seq<int>, ghost y: seq<int>, ghost post: seq<int>)
      requires 0 < b && zero[..] == pre + x + y + post
      requires |pre| == a && |pre + x| == b && |pre + x + y| == c
      modifies zero
      ensures zero[..] == pre + y + x + post
    {
      ReversePiece(a, b, pre, x, y + post);
      ReversePiece(b, c, pre + Reversed(x), y, post);
      ReversePiece(a, c, pre, Reversed(x) + Reversed(y), post);
      ThreeReversals(x, y);
    }

    method ReversePiece(a1: nat, a2: nat, ghost pre: seq<int>, ghost x: seq<int>, ghost post: seq<int>)
      requires 0 < a2 && zero[..] == pre + x + post && |pre| == a1 && |pre + x| == a2
      modifies zero
      ensures zero[..] == pre + Reversed(x) + post
    {
      assert zero[..a1] == pre && zero[a1..a2] == x && zero[a2..] == post;
      Reverse(a1, a2);
    }

    /** Inserts the given addresses after line a, one at a time. */
    method Append(a: nat, tls: seq<int>) returns (nline: nat)
      requires Valid() && a <= dol && dol + |tls| + 1 < zero.Length
      modifies this, zero
      ensures Valid() && nline == |tls| && dot == a + |tls|
      ensures Lines() == Inserted(old(Lines()), a, tls)
      ensures fchange == (old(fchange) || tls != [])
    {
      nline := 0;
      dot := a;
      ghost var was := Lines();
      assert was == was[..a] + tls[..0] + was[a..];
      while nline < |tls|
        invariant nline <= |tls| && dot == a + nline && dol == old(dol) + nline && Valid()
        invariant Lines() == was[..a] + tls[..nline] + was[a..]
        invariant fchange == (old(fchange) || nline > 0)
      {
        fchange := true;
        InsertStep(was[..a], tls[..nline], was[a..], tls[nline]);
        assert tls[..nline] + [tls[nline]] == tls[..nline + 1];
        InsertOne(tls[nline]);
        nline := nline + 1;
      }
    }

    /** Opens a slot after dot and puts one address there. */
    method InsertOne(tl: int)
      requires Valid() && dol + 2 < zero.Length
      modifies `dot, `dol, zero
      ensures Valid() && dot == old(dot) + 1 && dol == old(dol) + 1
      ensures Lines() == old(Lines())[..old(dot)] + [tl] + old(Lines())[old(dot)..]
    {
      ghost var was := zero[..];
      dol := dol + 1;
      dot := dot + 1;
      var a1, a2, rdot := dol, dol + 1, dot;
      while a1 > rdot
        invariant dol == old(dol) + 1 && dot == rdot && rdot <= a1 <= dol && a2 == a1 + 1
        invariant forall k :: 0 < a1 < k <= dol ==> zero[k] == was[k - 1]
        invariant forall k :: 0 <= k <= a1 && k < dol ==> zero[k] == was[k]
      {
        a2, a1 := a2 - 1, a1 - 1;
        zero[a2] := zero[a1];
      }
      zero[rdot] := tl;
      InsertedSlots(was, zero[..], dol - 1, dot - 1, tl);
    }

    /** Deletes lines ad1..ad2. */
    method Delete(ad1: nat, ad2: nat)
      requires Valid() && 1 <= ad1 <= ad2 <= dol
      modifies this, zero
      ensures Valid() && fchange && Lines() == Without(old(Lines()), ad1, ad2)
      ensures dot == if ad1 <= dol then ad1 else dol
    {
      ghost var was := zero[..];
      var a1, a2, a3 := ad1, ad2 + 1, dol;
      dol := dol - (a2 - a1);
      ShiftDown(a1, a2, a3);
      WithoutSlots(was, zero[..], a3, ad1, ad2);
      dot := if ad1 > dol then dol else ad1;
      fchange := true;
    }

    /** Copies slots a2..a3 down to a1; the first copy is made even when there is none. */
    method ShiftDown(first: nat, second: nat, a3: nat)
      requires first < second <= a3 + 1 < zero.Length
      modifies zero
      ensures forall k :: 0 <= k < first ==> zero[k] == old(zero[k])
      ensures forall k :: first <= k && k + (second - first) <= a3 ==> zero[k] == old(zero[k + (second - first)])
    {
      ghost var was := zero[..];
      var a1, a2 := first, second;
      ghost var gap := a2 - a1;
      zero[a1] := zero[a2];
      a1, a2 := a1 + 1, a2 + 1;
      while a2 <= a3
        invariant first < a1 && a2 == a1 + gap && a2 <= a3 + 2
        invariant forall k :: 0 <= k < first ==> zero[k] == was[k]
        invariant forall k :: first <= k < a1 && k + gap <= a3 ==> zero[k] == was[k + gap]
        invariant forall k :: a1 <= k < zero.Length ==> zero[k] == was[k]
      {
        zero[a1] := zero[a2];
        a1, a2 := a1 + 1, a2 + 1;
      }
    }

    /** The first marked line, or the first slot of an empty buffer. */
    method FirstMarked() returns (found: bool, a1: nat)
      requires Valid()
      ensures 1 <= a1 && (a1 <= dol || (dol == 0 && a1 == 1))
      ensures found && dol > 0 ==> Marked(zero[a1]) && forall k :: 1 <= k < a1 ==> !Marked(zero[k])
      ensures !found ==> forall k :: 1 <= k <= dol ==> !Marked(zero[k])
    {
      a1 := 1;
      while !Marked(zero[a1])
        invariant 1 <= a1 <= dol || (dol == 0 && a1 == 1)
        invariant forall k :: 1 <= k < a1 ==> !Marked(zero[k])
        decreases dol + 1 - a1
      {
        if a1 >= dol {
          return false, a1;
        }
        a1 := a1 + 1;
      }
      found := true;
    }

    /** Deletes the marked lines. */
    method DeleteMarked()
      requires Valid()
      modifies this, zero
      ensures Valid() && Lines() == Survivors(old(Lines()))
      ensures var d := DotAfter(old(Lines()), old(dot)); dot == if d > dol then dol else d
      ensures Survivors(old(Lines())) != old(Lines()) ==> fchange
    {
      ghost var was := Lines();
      var found, a1 := FirstMarked();
      if !found {
        NothingMarked(was, dot);
        return;
      }
      a1 := CloseUp(a1, was);
      dol := a1 - 1;
      if dot > dol {
        dot := dol;
      }
      fchange := true;
    }

    /** Moves the unmarked lines down over the marked ones; a1 is the first marked. */
    method CloseUp(first: nat, ghost was: seq<int>) returns (a1: nat)
      requires Valid() && was == Lines() && (1 <= first <= dol || (dol == 0 && first == 1))
      requires dol > 0 ==> Marked(zero[first]) && forall k :: 1 <= k < first ==> !Marked(zero[k])
      modifies `dot, zero
      ensures 1 <= a1 <= dol + 1 < zero.Length && zero[1..a1] == Survivors(was) && dot == DotAfter(was, old(dot))
    {
      a1 := first;
      StartClosing(first, was);
      var a2 := a1 + 1;
      while a2 <= dol
        invariant dol > 0 ==> CloseState(was, a1, a2, old(dot))
        invariant dol == 0 ==> dot == old(dot) && a1 == 1 && a2 == 2
        decreases dol + 1 - a2
      {
        a1 := CloseStep(a1, a2, was, old(dot));
        a2 := a2 + 1;
      }
      assert was[..|was|] == was;
    }

    lemma StartClosing(first: nat, was: seq<int>)
      requires Valid() && was == Lines() && (1 <= first <= dol || (dol == 0 && first == 1))
      requires dol > 0 ==> Marked(zero[first]) && forall k :: 1 <= k < first ==> !Marked(zero[k])
      ensures dol > 0 ==> CloseState(was, first, first + 1, dot)
    {
      if dol > 0 {
        assert forall k :: 1 <= k <= dol ==> zero[k] == was[k - 1];
        OneMarked(was[..first], dot);
      }
    }

    /** Drops or keeps the line in slot a2. */
    method CloseStep(a1: nat, a2: nat, ghost was: seq<int>, ghost dot0: nat) returns (a1': nat)
      requires CloseState(was, a1, a2, dot0) && a2 <= dol
      modifies `dot, zero
      ensures CloseState(was, a1', a2 + 1, dot0)
    {
      SurvivorsStep(was, a2 - 1, dot0);
      a1' := a1;
      if Marked(zero[a2]) {
        dot := a1;
      } else {
        ghost var done := zero[1..a1];
        zero[a1] := zero[a2];
        a1' := a1 + 1;
        assert zero[1..a1'] == done + [was[a2 - 1]];
      }
    }

    /** Lines before a2 are dealt with: their survivors are in slots 1..a1 - 1. */
    ghost predicate CloseState(was: seq<int>, a1: nat, a2: nat, dot0: nat)
      reads this, zero
    {
      && dol + 1 < zero.Length && 1 <= a1 < a2 <= dol + 1 && |was| == dol
      && zero[1..a1] == Survivors(was[..a2 - 1]) && a1 < a2
      && dot == DotAfter(was[..a2 - 1], dot0)
      && forall k :: a2 <= k <= dol ==> zero[k] == was[k - 1]
    }
  }

  /** The array is slot 0, the lines, and what lies beyond. */
  lemma LinesOf(z: int, lines: seq<int>, beyond: seq<int>)
    ensures ([z] + lines + beyond)[1..|lines| + 1] == lines
  {
  }

  /** Inserting one line, on the array contents. */
  lemma InsertedSlots(was: seq<int>, now: seq<int>, dol: nat, dot: nat, tl: int)
    requires dot <= dol && dol + 2 < |was| && |was| == |now|
    requires forall k :: 0 <= k <= dot ==> now[k] == was[k]
    requires forall k :: dot + 1 < k <= dol + 1 ==> now[k] == was[k - 1]
    requires now[dot + 1] == tl
    ensures now[1..dol + 2] == was[1..dol + 1][..dot] + [tl] + was[1..dol + 1][dot..]
  {
    var s, r := was[1..dol + 1], now[1..dol + 2];
    forall k | 0 <= k < |r|
      ensures r[k] == (s[..dot] + [tl] + s[dot..])[k]
    {
      assert r[k] == now[k + 1];
    }
  }

  /** Deleting lines, on the array contents. */
  lemma WithoutSlots(was: seq<int>, now: seq<int>, dol: nat, ad1: nat, ad2: nat)
    requires 1 <= ad1 <= ad2 <= dol < |was| == |now|
    requires forall k :: 0 <= k < ad1 ==> now[k] == was[k]
    requires forall k :: ad1 <= k <= dol - (ad2 + 1 - ad1) ==> now[k] == was[k + (ad2 + 1 - ad1)]
    ensures now[1..dol - (ad2 + 1 - ad1) + 1] == Without(was[1..dol + 1], ad1, ad2)
  {
    var s, r := was[1..dol + 1], now[1..dol - (ad2 + 1 - ad1) + 1];
    forall k | 0 <= k < |r|
      ensures r[k] == Without(s, ad1, ad2)[k]
    {
      assert r[k] == now[k + 1];
    }
  }

  /** One more line inserted after the m lines already inserted. */
  lemma InsertStep(p: seq<int>, m: seq<int>, q: seq<int>, x: int)
    ensures (p + m + q)[..|p + m|] + [x] + (p + m + q)[|p + m|..] == p + (m + [x]) + q
  {
  }

  lemma Pieces(z: int, s: seq<int>, beyond: seq<int>, addr1: nat, addr2: nat)
    requires 1 <= addr1 <= addr2 <= |s|
    ensures [z] + s + beyond == ([z] + s[..addr1 - 1]) + s[addr1 - 1..addr2] + (s[addr2..] + beyond)
  {
  }

  /** Moving a block up, over the lines adt + 1..addr1 - 1. */
  lemma MovedUp(s: seq<int>, addr1: nat, addr2: nat, adt: nat)
    requires adt < addr1 <= addr2 <= |s|
    ensures Moved(s, addr1, addr2, adt) ==
            s[..adt] + UnmarkAll(s[addr1 - 1..addr2]) + s[adt..addr1 - 1] + s[addr2..]
    ensures s[..addr1 - 1] == s[..adt] + s[adt..addr1 - 1]
    ensures adt + 1 == addr1 ==> Moved(s, addr1, addr2, adt) == Unmarking(s, addr1, addr2)
    ensures Moved(s, addr1, addr2, adt)[adt + (addr2 - addr1)] == Unmarked(s[addr2 - 1])
  {
    var rest := Without(s, addr1, addr2);
    assert rest[..adt] == s[..adt];
    assert rest[adt..] == s[adt..addr1 - 1] + s[addr2..];
  }

  /** Moving a block down, over the lines addr2 + 1..adt. */
  lemma MovedDown(s: seq<int>, addr1: nat, addr2: nat, adt: nat)
    requires 1 <= addr1 <= addr2 < adt <= |s|
    ensures Moved(s, addr1, addr2, adt) ==
            s[..addr1 - 1] + s[addr2..adt] + UnmarkAll(s[addr1 - 1..addr2]) + s[adt..]
    ensures s[addr2..] == s[addr2..adt] + s[adt..]
    ensures Moved(s, addr1, addr2, adt)[adt - 1] == Unmarked(s[addr2 - 1])
  {
    var rest := Without(s, addr1, addr2);
    var at := adt - (addr2 - addr1 + 1);
    assert rest[..at] == s[..addr1 - 1] + s[addr2..adt];
    assert rest[at..] == s[adt..];
  }

  lemma SurvivorsStep(s: seq<int>, n: nat, dot: nat)
    requires n < |s|
    ensures Survivors(s[..n + 1]) == if Marked(s[n]) then Survivors(s[..n]) else Survivors(s[..n]) + [s[n]]
    ensures DotAfter(s[..n + 1], dot) ==
      if Marked(s[n]) && |Survivors(s[..n])| < n then |Survivors(s[..n])| + 1 else DotAfter(s[..n], dot)
  {
    assert s[..n + 1][..n] == s[..n] && s[..n + 1][n] == s[n];
  }

  lemma OneMarked(s: seq<int>, dot: nat)
    requires s != [] && Marked(s[|s| - 1]) && forall i :: 0 <= i < |s| - 1 ==> !Marked(s[i])
    ensures Survivors(s) == s[..|s| - 1] && DotAfter(s, dot) == dot
  {
    NothingMarked(s[..|s| - 1], dot);
  }

  /** Where deleting the marked lines leaves dot, before it is cut back to the end:
      after the survivors in front of the last marked line, unless only one was marked. */
  function DotAfter(s: seq<int>, dot: nat): nat {
    if s == [] then dot
    else
      var front := s[..|s| - 1];
      if Marked(s[|s| - 1]) && |Survivors(front)| < |front| then |Survivors(front)| + 1 else DotAfter(front, dot)
  }

  lemma {:induction false} NothingMarked(s: seq<int>, dot: nat)
    requires forall i :: 0 <= i < |s| ==> !Marked(s[i])
    ensures Survivors(s) == s && DotAfter(s, dot) == dot
  {
    if s != [] {
      NothingMarked(s[..|s| - 1], dot);
    }
  }
}
