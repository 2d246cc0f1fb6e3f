/** ed: compile a pattern into byte code, and find its leftmost match in a line. */
module EdRegex {
  import opened Common
  import opened Patterns
  import opened EdSyntax
  import opened GrepCode
  import opened Greedy
  import S = GrepSyntax

  /** What getchr gives at p[i]; 0 stands for the end of the input. */
  function At(p: seq<byte>, i: nat): (b: byte)
    requires Ascii(p)
    ensures b == 0 <==> i >= |p|
    ensures b < 128
  {
    if i < |p| then p[i] else 0
  }

  ghost predicate Begins(items: seq<Item>, m: nat, g: nat) {
    exists t :: m <= t < |items| && items[t] == Open(g)
  }

  ghost predicate Ends(items: seq<Item>, m: nat, g: nat) {
    exists t :: m <= t < |items| && items[t] == Close(g)
  }

  /** One step of reading class members, at position i of the pattern. */
  lemma MembersStep(p: seq<byte>, i: nat, listed: seq<byte>)
    requires i < |p| && Ascii(p) && p[i] != NEWLINE && (listed != [] ==> p[i] != S.RBRACKET)
    ensures if p[i] == S.DASH && listed != [] then
              if i + 1 >= |p| then ParseMembers(p[i..], listed).BadClass?
              else if p[i + 1] == S.RBRACKET then ParseMembers(p[i..], listed) == Members(listed + [S.DASH], p[i + 2..])
              else ParseMembers(p[i..], listed)
                   == ParseMembers(p[i + 2..], listed + Between(listed[|listed| - 1], p[i + 1]) + [p[i + 1]])
            else
              ParseMembers(p[i..], listed) == ParseMembers(p[i + 1..], listed + [p[i]])
  {
    var q := p[i..];
    assert q[0] == p[i] && q[1..] == p[i + 1..];
    if |q| > 1 {
      assert q[1] == p[i + 1] && q[2..] == p[i + 2..];
    }
  }

  /** Where groups begin and end. */
  datatype Marks = Marks(begins: seq<int>, ends: seq<int>) {
    predicate Sized() {
      |begins| == NBRA && |ends| == NBRA
    }
  }

  /** Items m..to - 1 of the preferred match from i have left their marks. */
  ghost predicate Captured(items: seq<Item>, line: Text, k: Marks, m: nat, i: nat, to: nat)
    requires k.Sized() && Grouped(items) && m <= to <= |items| && i <= |line| && CanMatch(items, m, line, i)
  {
    && (forall t :: m <= t < to && items[t].Open? ==> k.begins[items[t].group] == Reach(items, m, line, i, t))
    && (forall t :: m <= t < to && items[t].Close? ==> k.ends[items[t].group] == Reach(items, m, line, i, t))
  }

  /** Only marks of groups that items[m..] begin or end have changed. */
  ghost predicate Frame(items: seq<Item>, m: nat, k: Marks, k': Marks)
    requires k.Sized() && k'.Sized()
  {
    && (forall g: nat :: g < NBRA && !Begins(items, m, g) ==> k'.begins[g] == k.begins[g])
    && (forall g: nat :: g < NBRA && !Ends(items, m, g) ==> k'.ends[g] == k.ends[g])
  }

  lemma FrameTrans(items: seq<Item>, m: nat, m': nat, k: Marks, k': Marks, k'': Marks)
    requires k.Sized() && k'.Sized() && k''.Sized() && m <= m' && Frame(items, m, k, k') && Frame(items, m', k', k'')
    ensures Frame(items, m, k, k'')
  {
    forall g: nat | g < NBRA && !Begins(items, m, g)
      ensures k''.begins[g] == k.begins[g]
    {
      assert !Begins(items, m', g);
    }
    forall g: nat | g < NBRA && !Ends(items, m, g)
      ensures k''.ends[g] == k.ends[g]
    {
      assert !Ends(items, m', g);
    }
  }

  /** Marks made before item m survive what the later items do. */
  lemma CapturedKept(items: seq<Item>, line: Text, k: Marks, k': Marks, m0: nat, i: nat, m: nat)
    requires k.Sized() && k'.Sized() && Grouped(items) && m0 <= m <= |items| && i <= |line| && CanMatch(items, m0, line, i)
    requires Captured(items, line, k, m0, i, m) && Frame(items, m, k, k')
    ensures Captured(items, line, k', m0, i, m)
  {
    forall t | m0 <= t < m && items[t].Open?
      ensures k'.begins[items[t].group] == Reach(items, m0, line, i, t)
    {
      assert !Begins(items, m, items[t].group);
    }
    forall t | m0 <= t < m && items[t].Close?
      ensures k'.ends[items[t].group] == Reach(items, m0, line, i, t)
    {
      assert !Ends(items, m, items[t].group);
    }
  }

  lemma CapturedJoin(items: seq<Item>, line: Text, k: Marks, m0: nat, i: nat, m: nat, at: nat)
    requires k.Sized() && Grouped(items) && m0 <= m <= |items| && i <= |line| && CanMatch(items, m0, line, i)
    requires at == Reach(items, m0, line, i, m) && Captured(items, line, k, m0, i, m)
    requires Captured(items, line, k, m, at, |items|)
    ensures Captured(items, line, k, m0, i, |items|)
    ensures Reach(items, m0, line, i, |items|) == Reach(items, m, line, at, |items|)
  {
    forall t | m <= t <= |items|
      ensures Reach(items, m0, line, i, t) == Reach(items, m, line, at, t)
    {
      ReachSplit(items, m0, line, i, m, t);
    }
  }

  /** Item m, where the preferred match stands at lp, notes the place. */
  lemma CapturedNext(items: seq<Item>, line: Text, k: Marks, k': Marks, m0: nat, i: nat, m: nat, lp: nat)
    requires k.Sized() && k'.Sized() && Grouped(items) && m0 <= m < |items| && i <= |line| && CanMatch(items, m0, line, i)
    requires Captured(items, line, k, m0, i, m) && lp == Reach(items, m0, line, i, m)
    requires match items[m]
             case Open(g) => k' == k.(begins := k.begins[g := lp])
             case Close(g) => k' == k.(ends := k.ends[g := lp])
             case _ => k' == k
    ensures Captured(items, line, k', m0, i, m + 1)
  {
    forall t | m0 <= t <= m && items[t].Open?
      ensures k'.begins[items[t].group] == Reach(items, m0, line, i, t)
    {
    }
    forall t | m0 <= t <= m && items[t].Close?
      ensures k'.ends[items[t].group] == Reach(items, m0, line, i, t)
    {
    }
  }

  /** The pattern matches from no place before p. */
  ghost predicate NoneBelow(items: seq<Item>, line: Text, p: nat)
    requires p <= |line|
  {
    forall k: nat :: k < p ==> !CanMatch(items, 0, line, k)
  }

  /** The matcher, begun at item m0 and place i, has come to item m and place lp. */
  ghost predicate Progress(items: seq<Item>, line: Text, k: Marks, m0: nat, i: nat, m: nat, lp: nat)
    requires k.Sized() && Grouped(items) && m0 <= m <= |items| && i <= |line| && lp <= |line|
  {
    && (CanMatch(items, m, line, lp) <==> CanMatch(items, m0, line, i))
    && (CanMatch(items, m0, line, i) ==> Reach(items, m0, line, i, m) == lp && Captured(items, line, k, m0, i, m))
  }

  /** Past an item that is not a repetition. */
  lemma ProgressNext(items: seq<Item>, line: Text, k: Marks, k': Marks, m0: nat, i: nat, m: nat, lp: nat, lp': nat)
    requires k.Sized() && k'.Sized() && Grouped(items) && m0 <= m < |items| && !items[m].Many?
    requires i <= |line| && lp <= |line| && lp' <= |line| && Progress(items, line, k, m0, i, m, lp)
    requires lp' == if items[m].One? then lp + 1 else lp
    requires CanMatch(items, m + 1, line, lp') <==> CanMatch(items, m, line, lp)
    requires match items[m]
             case Open(g) => k' == k.(begins := k.begins[g := lp])
             case Close(g) => k' == k.(ends := k.ends[g := lp])
             case _ => k' == k
    ensures Progress(items, line, k', m0, i, m + 1, lp')
  {
    if CanMatch(items, m0, line, i) {
      ReachNext(items, m0, line, i, m);
      CapturedNext(items, line, k, k', m0, i, m, lp);
    }
  }

  /** A repetition, after which the rest of the items match from at. */
  lemma ProgressStar(items: seq<Item>, line: Text, k: Marks, k': Marks, m0: nat, i: nat, m: nat, lp: nat, top: nat, at: nat)
    requires k.Sized() && k'.Sized() && Grouped(items) && m0 <= m < |items| && items[m].Many?
    requires i <= |line| && lp <= at <= top <= |line| && Progress(items, line, k, m0, i, m, lp)
    requires TakesAll(items[m].atom, line, lp, top) && (top < |line| ==> !items[m].atom.Takes(line[top]))
    requires CanMatch(items, m + 1, line, at) && NoneAbove(items, m + 1, line, at, top)
    requires Frame(items, m + 1, k, k') && Captured(items, line, k', m + 1, at, |items|)
    ensures CanMatch(items, m0, line, i) && Captured(items, line, k', m0, i, |items|)
    ensures Reach(items, m0, line, i, |items|) == Reach(items, m + 1, line, at, |items|)
  {
    FirstDown(items, m, line, lp, top, at);
    ReachNext(items, m0, line, i, m);
    CapturedNext(items, line, k, k, m0, i, m, lp);
    CapturedKept(items, line, k, k', m0, i, m + 1);
    CapturedJoin(items, line, k', m0, i, m + 1, at);
  }

  /** A repetition, after which the rest of the items match from nowhere. */
  lemma StarFails(items: seq<Item>, line: Text, k: Marks, m0: nat, i: nat, m: nat, lp: nat, top: nat)
    requires k.Sized() && Grouped(items) && m0 <= m < |items| && items[m].Many?
    requires i <= |line| && lp <= top <= |line| && Progress(items, line, k, m0, i, m, lp)
    requires TakesAll(items[m].atom, line, lp, top) && (top < |line| ==> !items[m].atom.Takes(line[top]))
    requires NoneAbove(items, m + 1, line, lp - 1, top)
    ensures !CanMatch(items, m0, line, i)
  {
    ManyStops(items, m, line, lp, top);
  }

  class Matcher {
    const expbuf: array<byte>
    const linebuf: array<byte>
    const braslist: array<int>   // where each group begins in the line
    const braelist: array<int>   // and where it ends
    var circfl: int
    var loc1: nat
    var loc2: nat

    ghost var program: seq<Item>
    ghost var offsets: seq<nat>
    ghost var line: Text

    /** The buffers when the program starts, and a line has been fetched. */
    constructor (text: Text)
      ensures expbuf.Length == ESIZE + 4 && expbuf[0] == 0 && Loaded() && line == text && Apart()
      ensures fresh(expbuf) && fresh(linebuf) && fresh(braslist) && fresh(braelist)
    {
      expbuf := new byte[ESIZE + 4](_ => 0);
      linebuf := new byte[|text| + 1](i => if 0 <= i < |text| then text[i] else 0);
      braslist := new int[NBRA](_ => 0);
      braelist := new int[NBRA](_ => 0);
      circfl, loc1, loc2 := 0, 0, 0;
      program, offsets, line := [], [], text;
    }

    /** expbuf holds the code of program, ended by CEOF. */
    ghost predicate Compiled()
      reads this, expbuf
    {
      && expbuf.Length == ESIZE + 4
      && Laid(expbuf[..], program, offsets)
      && GoodItems(program)
      && (forall k :: 0 <= k <= |program| ==> offsets[k] < ESIZE)
      && expbuf[offsets[|program|]] == CEOF
    }

    /** linebuf holds line, ended by NUL. */
    ghost predicate Loaded()
      reads this, linebuf
    {
      |line| < linebuf.Length && linebuf[..|line|] == line && linebuf[|line|] == 0
    }

    /** While compiling: items laid out up to ep, over whatever the buffer held. */
    ghost predicate Layout(items: seq<Item>, offs: seq<nat>, ep: nat)
      reads expbuf
    {
      && expbuf.Length == ESIZE + 4
      && Laid(expbuf[..], items, offs)
      && GoodItems(items)
      && ep == offs[|items|]
    }

    method EmitOne(ep: nat, op: byte, ghost items: seq<Item>, ghost offs: seq<nat>, ghost it: Item) returns (end: nat)
      requires Layout(items, offs, ep) && ep < ESIZE
      requires (it == One(Any) && op == CDOT) || (it == EndOfLine && op == CDOL)
      modifies expbuf
      ensures end == ep + 1 && Layout(items + [it], offs + [end], end)
      ensures expbuf[ep] == op && forall i :: 0 <= i < ep ==> expbuf[i] == old(expbuf[i])
    {
      ghost var code := expbuf[..];
      expbuf[ep] := op;
      end := ep + 1;
      LaidAppend(code, expbuf[..], items, offs, it, end);
    }

    method EmitTwo(ep: nat, op: byte, arg: byte, ghost items: seq<Item>, ghost offs: seq<nat>, ghost it: Item)
      returns (end: nat)
      requires Layout(items, offs, ep) && ep < ESIZE && GoodItem(it)
      requires || (it == One(Char(arg)) && op == CCHR)
               || (it == Open(arg) && op == CBRA)
               || (it == Close(arg) && op == CKET)
      modifies expbuf
      ensures end == ep + 2 && Layout(items + [it], offs + [end], end)
      ensures expbuf[ep] == op && forall i :: 0 <= i < ep ==> expbuf[i] == old(expbuf[i])
    {
      ghost var code := expbuf[..];
      expbuf[ep] := op;
      expbuf[ep + 1] := arg;
      end := ep + 2;
      LaidAppend(code, expbuf[..], items, offs, it, end);
    }

    /** Appends the members after expbuf[ep - 1] up to c; false if the buffer fills. */
    method AppendRange(ep0: nat, c: byte) returns (ok: bool, ep: nat)
      requires expbuf.Length == ESIZE + 4 && 0 < ep0 < ESIZE && c < 128
      modifies expbuf
      ensures !ok ==> ep0 + |Between(old(expbuf[ep0 - 1]), c)| >= ESIZE
      ensures ok ==> ep == ep0 + |Between(old(expbuf[ep0 - 1]), c)| < ESIZE
      ensures ok ==> expbuf[ep0..ep] == Between(old(expbuf[ep0 - 1]), c)
      ensures forall i :: 0 <= i < ep0 ==> expbuf[i] == old(expbuf[i])
    {
      ep := ep0;
      ghost var all := Between(expbuf[ep - 1], c);
      ghost var lo := expbuf[ep - 1];
      while expbuf[ep - 1] < c
        invariant ep0 <= ep < ESIZE && ep - ep0 <= |all| && expbuf[ep - 1] == lo + (ep - ep0)
        invariant expbuf[ep0..ep] == all[..ep - ep0]
        invariant forall i :: 0 <= i < ep0 ==> expbuf[i] == old(expbuf[i])
        decreases c - expbuf[ep - 1]
      {
        expbuf[ep] := expbuf[ep - 1] + 1;
        ep := ep + 1;
        if ep >= ESIZE {
          return false, ep;
        }
      }
      ok := true;
    }

    /** The members written so far, from index at of the code on. */
    ghost predicate Listing(at: nat, ep: nat, listed: seq<byte>)
      reads expbuf
    {
      && expbuf.Length == ESIZE + 4 && 0 < at <= ESIZE + 1
      && ep == at + |listed| <= ESIZE + 1 && expbuf[at..ep] == listed
      && (listed == [] ==> expbuf[ep - 1] == 0)
      && (listed != [] ==> ep < ESIZE && 0 < expbuf[ep - 1] < 128 && expbuf[ep - 1] == listed[|listed| - 1])
    }

    method AppendByte(at: nat, ep: nat, c: byte, ghost listed: seq<byte>)
      requires expbuf.Length == ESIZE + 4 && at <= ep <= ESIZE + 1 && expbuf[at..ep] == listed
      modifies expbuf
      ensures expbuf[at..ep + 1] == listed + [c] && expbuf[ep] == c
      ensures forall i :: 0 <= i < ep ==> expbuf[i] == old(expbuf[i])
    {
      expbuf[ep] := c;
      assert expbuf[at..ep] == listed;
    }

    /** Adds the member c, or what is missing of a range up to c; false if the buffer fills. */
    method AddMember(at: nat, ep0: nat, c: byte, range: bool, ghost listed: seq<byte>, ghost front: seq<byte>,
                     ghost longer: seq<byte>)
      returns (ok: bool, ep: nat)
      requires Listing(at, ep0, listed) && 0 < c < 128 && (range ==> listed != [])
      requires front == if range then listed + Between(listed[|listed| - 1], c) else listed
      requires longer == front + [c]
      modifies expbuf
      ensures !ok ==> at + |longer| >= ESIZE
      ensures ok ==> Listing(at, ep, longer)
      ensures forall i :: 0 <= i < at ==> expbuf[i] == old(expbuf[i])
    {
      ep := ep0;
      if range {
        ok, ep := AddRange(at, ep0, c, listed, front);
        if !ok {
          return;
        }
      }
      AppendByte(at, ep, c, front);
      ep := ep + 1;
      ok := ep < ESIZE;
    }

    /** What lies between the last member and c. */
    method AddRange(at: nat, ep0: nat, c: byte, ghost listed: seq<byte>, ghost front: seq<byte>) returns (ok: bool, ep: nat)
      requires Listing(at, ep0, listed) && 0 < c < 128 && listed != []
      requires front == listed + Between(listed[|listed| - 1], c)
      modifies expbuf
      ensures !ok ==> at + |front| >= ESIZE
      ensures ok ==> ep == at + |front| < ESIZE && expbuf[at..ep] == front
      ensures forall i :: 0 <= i < at ==> expbuf[i] == old(expbuf[i])
    {
      ghost var was := expbuf[..];
      assert was[at..ep0] == listed;
      ok, ep := AppendRange(ep0, c);
      if ok {
        Joined(was, expbuf[..], at, ep0, ep);
      }
    }

    lemma Joined(was: seq<byte>, code: seq<byte>, at: nat, mid: nat, ep: nat)
      requires at <= mid <= ep <= |code| && mid <= |was| && forall i :: 0 <= i < mid ==> code[i] == was[i]
      ensures code[at..ep] == was[at..mid] + code[mid..ep]
    {
    }

    /** One pass of the loop over the members, the first of them p[sp0 - 1]. */
    method OneMember(p: seq<byte>, sp0: nat, at: nat, ep0: nat, ghost listed: seq<byte>)
      returns (ok: bool, done: bool, sp: nat, ep: nat, ghost longer: seq<byte>)
      requires Ascii(p) && 0 < sp0 <= |p| && Listing(at, ep0, listed)
      requires p[sp0 - 1] != NEWLINE && (listed != [] ==> p[sp0 - 1] != S.RBRACKET)
      modifies expbuf
      ensures !ok ==> Fails(p, sp0, at, listed)
      ensures ok && done ==> sp <= |p| && ParseMembers(p[sp0 - 1..], listed) == Members(longer, p[sp..])
      ensures ok && done ==> ep == at + |longer| <= ESIZE && expbuf[at..ep] == longer
      ensures ok && !done ==> Listing(at, ep, longer) && longer != []
      ensures ok && !done ==> sp0 <= sp <= |p| && ParseMembers(p[sp0 - 1..], listed) == ParseMembers(p[sp..], longer)
      ensures forall i :: 0 <= i < at ==> expbuf[i] == old(expbuf[i])
    {
      var c := p[sp0 - 1];
      ghost var front := listed;
      sp, ep, done, longer := sp0, ep0, false, listed + [c];
      MembersStep(p, sp0 - 1, listed);
      var range := c == S.DASH && expbuf[ep - 1] != 0;
      if range {
        c := At(p, sp);
        sp := sp + 1;
        if c == S.RBRACKET {
          AppendByte(at, ep, S.DASH, listed);
          return true, true, sp, ep + 1, longer;
        }
        if c == 0 {
          return false, done, sp, ep, longer;
        }
        front := listed + Between(listed[|listed| - 1], c);
        longer := front + [c];
      }
      ok, ep := AddMember(at, ep, c, range, listed, front, longer);
      Longer(p[sp..], longer);
    }

    ghost predicate Fails(p: seq<byte>, sp: nat, at: nat, listed: seq<byte>)
      requires 0 < sp <= |p|
    {
      var r := ParseMembers(p[sp - 1..], listed);
      r.Members? ==> at + |r.listed| >= ESIZE
    }

    /** The members of a class, up to and including the closing bracket. */
    method CompileMembers(p: seq<byte>, sp0: nat, at: nat) returns (ok: bool, sp: nat, ep: nat)
      requires Ascii(p) && sp0 <= |p| && Listing(at, at, [])
      modifies expbuf
      ensures var r := ParseMembers(p[sp0..], []);
        && (!ok ==> r.Members? ==> at + |r.listed| >= ESIZE)
        && (ok ==> r.Members? && sp <= |p| && p[sp..] == r.rest)
        && (ok ==> ep == at + |r.listed| <= ESIZE && expbuf[at..ep] == r.listed)
      ensures forall i :: 0 <= i < at ==> expbuf[i] == old(expbuf[i])
    {
      ghost var listed: seq<byte> := [];
      ghost var goal := ParseMembers(p[sp0..], []);
      sp, ep := sp0 + 1, at;
      while true
        invariant sp0 < sp <= |p| + 1 && (listed != [] ==> At(p, sp - 1) != S.RBRACKET)
        invariant ParseMembers(p[sp - 1..], listed) == goal && Listing(at, ep, listed)
        invariant forall i :: 0 <= i < at ==> expbuf[i] == old(expbuf[i])
        decreases |p| + 1 - sp
      {
        var c := At(p, sp - 1);
        if c == NEWLINE || c == 0 {
          return false, sp, ep;
        }
        var done;
        ok, done, sp, ep, listed := OneMember(p, sp, at, ep, listed);
        if !ok || done {
          return;
        }
        c := At(p, sp);
        sp := sp + 1;
        if c == S.RBRACKET {
          break;
        }
      }
      assert p[sp - 1..][1..] == p[sp..];
      ok := true;
    }

    lemma Longer(p: seq<byte>, listed: seq<byte>)
      ensures ParseMembers(p, listed).Members? ==> |ParseMembers(p, listed).listed| >= |listed|
    {
      if ParseMembers(p, listed).Members? {
        MembersGrow(p, listed);
      }
    }

    /** `*lastep |= STAR` on the last item. */
    method Repeat(lastep: nat, ghost items: seq<Item>, ghost offs: seq<nat>)
      requires exists ep :: Layout(items, offs, ep)
      requires S.Repeatable(items) && lastep == offs[|items| - 1]
      modifies expbuf
      ensures Layout(S.Repeated(items), offs, offs[|items|])
    {
      LaidIsMonotonic(expbuf[..], items, offs, |items| - 1);
      assert ItemAt(expbuf[..], offs[|items| - 1], offs[|items|], items[|items| - 1]);
      if expbuf[lastep] % 2 == 0 {
        LaidRepeated(expbuf[..], items, offs);
        ghost var code := expbuf[..];
        expbuf[lastep] := expbuf[lastep] + STAR;
        assert expbuf[..] == code[lastep := code[lastep] + STAR];
      } else {
        assert S.Repeated(items) == items;
      }
    }

    /** What lastep tells the compiler about a star that comes next; -1 for a null pointer. */
    ghost predicate StarState(st: State, lastep: int, items: seq<Item>, offs: seq<nat>)
      reads expbuf
    {
      && |offs| == |items| + 1
      && if st.starable then S.Repeatable(items) && lastep == offs[|items| - 1]
         else lastep == -1 || (0 <= lastep < expbuf.Length && lastep < offs[|items|] && expbuf[lastep] in {CBRA, CKET})
    }

    /** What compiling one token at p[sp - 1] must achieve: read what Scan reads
        and reach the state Next gives. */
    ghost predicate TokenDone(p: seq<byte>, sp: nat, st: State, sp': nat, st': State)
      requires 0 < sp <= |p| && st.Valid()
    {
      var s := Scan(p[sp - 1..]);
      sp' <= |p| && p[sp'..] == s.rest && Next(st, s.token) == Go(st')
    }

    ghost predicate TokenFails(p: seq<byte>, sp: nat, st: State)
      requires 0 < sp <= |p| && st.Valid()
    {
      var r := Next(st, Scan(p[sp - 1..]).token);
      r.Bad? || (r.Go? && S.CodeSize(r.state.body) >= ESIZE)
    }

    function ClassOf(p: seq<byte>, negated: bool): Bracketed
      requires negated ==> p != []
    {
      ParseMembers(if negated then p[1..] else p, [])
    }

    function ClassAtom(negated: bool, listed: seq<byte>): Atom {
      if negated then Unlisted(listed) else Listed(listed)
    }

    /** The opcode of a class, its count, and its members; false if it is malformed or too long. */
    method WriteClass(p: seq<byte>, sp0: nat, ep0: nat) returns (ok: bool, negated: bool, sp: nat, ep: nat)
      requires Ascii(p) && sp0 <= |p| && ep0 < ESIZE && expbuf.Length == ESIZE + 4
      modifies expbuf
      ensures negated <==> Anchored(p[sp0..])
      ensures var r := ClassOf(p[sp0..], negated);
        && (!ok ==> r.Members? ==> ep0 + 2 + |r.listed| >= ESIZE)
        && (ok ==> r.Members? && sp <= |p| && p[sp..] == r.rest)
        && (ok ==> ep == ep0 + 2 + |r.listed| <= expbuf.Length)
        && (ok ==> expbuf[ep0] == Opcode(ClassAtom(negated, r.listed)))
        && (ok ==> ListAt(expbuf[..], ep0 + 1, ep, r.listed))
      ensures forall i :: 0 <= i < ep0 ==> expbuf[i] == old(expbuf[i])
    {
      sp, ep := sp0, ep0;
      expbuf[ep] := CCL;
      expbuf[ep + 1] := 0;
      negated := At(p, sp) == S.CARET;
      if negated {
        sp := sp + 1;
        expbuf[ep] := NCCL;
        assert p[sp0..][1..] == p[sp..];
      }
      ok, sp, ep := CompileMembers(p, sp, ep0 + 2);
      if ok {
        expbuf[ep0 + 1] := ep - ep0 - 1;
        assert expbuf[..][ep0 + 2..ep] == expbuf[ep0 + 2..ep];
      }
    }

    /** The bracket expression after an opening bracket at p[sp0 - 1]. */
    method EmitClass(p: seq<byte>, sp0: nat, ep0: nat, ghost st: State, ghost offs: seq<nat>)
      returns (ok: bool, sp: nat, ep: nat, ghost st': State)
      requires Ascii(p) && st.Valid() && Layout(st.body, offs, ep0) && ep0 < ESIZE
      requires 0 < sp0 <= |p| && p[sp0 - 1] == S.LBRACKET
      modifies expbuf
      ensures !ok ==> TokenFails(p, sp0, st)
      ensures ok ==> TokenDone(p, sp0, st, sp, st') && st'.Valid()
      ensures ok ==> Layout(st'.body, offs + [ep], ep) && StarState(st', ep0, st'.body, offs + [ep])
    {
      ghost var code := expbuf[..];
      var negated;
      ok, negated, sp, ep := WriteClass(p, sp0, ep0);
      ghost var q, r := p[sp0 - 1..], ClassOf(p[sp0..], negated);
      assert q[0] == S.LBRACKET && q[1..] == p[sp0..];
      ClassScan(q, negated, r);
      ghost var listed := if r.Members? then r.listed else [];
      ClassNext(st, negated, listed);
      ghost var a := ClassAtom(negated, listed);
      st' := st.Add(One(a));
      if ok {
        LaidAppend(code, expbuf[..], st.body, offs, One(a), ep);
      } else {
        LaidSize(code, st.body, offs);
      }
    }

    /** What a bracket expression means to the parser. */
    lemma ClassScan(q: seq<byte>, negated: bool, r: Bracketed)
      requires q != [] && q[0] == S.LBRACKET && (negated <==> Anchored(q[1..])) && r == ClassOf(q[1..], negated)
      ensures r.Members? ==> Scan(q) == Scanned(Bracket(negated, r.listed), r.rest)
      ensures r.BadClass? ==> Scan(q).token == BadToken
    {
    }

    lemma ClassNext(st: State, negated: bool, listed: seq<byte>)
      requires st.Valid()
      ensures Next(st, Bracket(negated, listed)) == Go(st.Add(One(ClassAtom(negated, listed))))
      ensures S.CodeSize(st.Add(One(ClassAtom(negated, listed))).body) == S.CodeSize(st.body) + 2 + |listed|
    {
      S.CodeSizeOfAppend(st.body, One(ClassAtom(negated, listed)));
    }

    /** Any other token: a dot, a star or an ordinary character. */
    method EmitPlain(c: byte, ep0: nat, lastep: int, ghost st: State, ghost offs: seq<nat>, ghost p: seq<byte>)
      returns (ep: nat, ghost offs': seq<nat>)
      requires st.Valid() && Layout(st.body, offs, ep0) && ep0 < ESIZE
      requires p != [] && p[0] == c && c !in {0, NEWLINE, S.LBRACKET, S.BACKSLASH}
      requires if c == S.STARCH then StarState(st, lastep, st.body, offs) else lastep == ep0
      modifies expbuf
      ensures Next(st, Scan(p).token).Go?
      ensures var st' := Next(st, Scan(p).token).state;
        Layout(st'.body, offs', ep) && StarState(st', lastep, st'.body, offs')
    {
      ep, offs' := ep0, offs;
      if c == S.STARCH && st.starable {
        StarableOpcode(st, lastep, offs);
      }
      if c == S.DOT {
        ep := EmitOne(ep, CDOT, st.body, offs, One(Any));
        offs' := offs + [ep];
      } else if c == S.STARCH && !(lastep == -1 || expbuf[lastep] == CBRA || expbuf[lastep] == CKET) {
        Repeat(lastep, st.body, offs);
      } else {
        ep := EmitTwo(ep, CCHR, c, st.body, offs, One(Char(c)));
        offs' := offs + [ep];
      }
    }

    lemma StarableOpcode(st: State, lastep: int, offs: seq<nat>)
      requires StarState(st, lastep, st.body, offs) && st.starable
      requires Layout(st.body, offs, offs[|st.body|])
      ensures 0 <= lastep < expbuf.Length && expbuf[lastep] !in {CBRA, CKET}
    {
      assert ItemAt(expbuf[..], offs[|st.body| - 1], offs[|st.body|], st.body[|st.body| - 1]);
    }

    ghost predicate Brackets(st: State, bracket: array<byte>, bracketp: nat, nbra: nat)
      reads bracket
    {
      && bracket.Length == NBRA && |st.open| == bracketp <= nbra == st.begun <= NBRA
      && forall i :: 0 <= i < bracketp ==> bracket[i] == st.open[i]
    }

    method CompileEscape(p: seq<byte>, sp0: nat, ep0: nat, bracket: array<byte>, bracketp0: nat, nbra0: nat,
                         ghost st: State, ghost offs: seq<nat>)
      returns (ok: bool, sp: nat, ep: nat, bracketp: nat, nbra: nat, ghost st': State, ghost offs': seq<nat>)
      requires Ascii(p) && 0 < sp0 <= |p| && p[sp0 - 1] == S.BACKSLASH && ep0 < ESIZE && st.Valid()
      requires Layout(st.body, offs, ep0) && Brackets(st, bracket, bracketp0, nbra0) && bracket != expbuf
      requires !Next(st, Scan(p[sp0 - 1..]).token).Odd?
      modifies expbuf, bracket
      ensures !ok ==> TokenFails(p, sp0, st)
      ensures ok ==> TokenDone(p, sp0, st, sp, st') && st'.Valid()
      ensures ok ==> Layout(st'.body, offs', ep) && StarState(st', ep0, st'.body, offs')
      ensures ok ==> Brackets(st', bracket, bracketp, nbra)
    {
      sp, ep, bracketp, nbra, st', offs' := sp0, ep0, bracketp0, nbra0, st, offs;
      ghost var q := p[sp - 1..];
      assert q[0] == S.BACKSLASH && q[1..] == p[sp..];
      var c := At(p, sp);
      if c == 0 {
        ok := false;
        return;
      }
      assert q[1..][0] == c && q[1..][1..] == p[sp + 1..];
      ghost var it := One(Char(c));
      sp := sp + 1;
      if c == S.LPAREN {
        if nbra >= NBRA {
          ok := false;
          return;
        }
        it := Open(nbra);
        bracket[bracketp] := nbra;
        bracketp := bracketp + 1;
        ep := EmitTwo(ep, CBRA, nbra, st.body, offs, it);
        nbra := nbra + 1;
      } else if c == S.RPAREN {
        if bracketp <= 0 {
          ok := false;
          return;
        }
        bracketp := bracketp - 1;
        it := Close(bracket[bracketp]);
        ep := EmitTwo(ep, CKET, bracket[bracketp], st.body, offs, it);
      } else if c == NEWLINE {
        ok := false;
        return;
      } else {
        ep := EmitTwo(ep, CCHR, c, st.body, offs, it);
      }
      st' := Next(st, Scan(q).token).state;
      offs' := offs + [ep];
      ok := true;
    }

    method CompileToken(p: seq<byte>, sp0: nat, ep0: nat, lastep0: int, bracket: array<byte>, bracketp0: nat, nbra0: nat,
                        ghost st: State, ghost offs: seq<nat>)
      returns (ok: bool, sp: nat, ep: nat, lastep: int, bracketp: nat, nbra: nat, ghost st': State, ghost offs': seq<nat>)
      requires Ascii(p) && 0 < sp0 <= |p| && ep0 < ESIZE && st.Valid()
      requires Layout(st.body, offs, ep0) && StarState(st, lastep0, st.body, offs)
      requires Brackets(st, bracket, bracketp0, nbra0) && bracket != expbuf
      requires !Next(st, Scan(p[sp0 - 1..]).token).Odd?
      modifies expbuf, bracket
      ensures !ok ==> TokenFails(p, sp0, st)
      ensures ok ==> TokenDone(p, sp0, st, sp, st') && st'.Valid()
      ensures ok ==> Layout(st'.body, offs', ep) && StarState(st', lastep, st'.body, offs')
      ensures ok ==> Brackets(st', bracket, bracketp, nbra)
    {
      sp, ep, lastep, bracketp, nbra, st', offs' := sp0, ep0, lastep0, bracketp0, nbra0, st, offs;
      ghost var q := p[sp - 1..];
      var c := p[sp - 1];
      assert q[0] == c && q[1..] == p[sp..];
      if c != S.STARCH {
        lastep := ep;
      }
      if c == S.BACKSLASH {
        ok, sp, ep, bracketp, nbra, st', offs' := CompileEscape(p, sp, ep, bracket, bracketp, nbra, st, offs);
        return;
      }
      if c == NEWLINE {
        ok := false;
        return;
      }
      if c == S.LBRACKET {
        ok, sp, ep, st' := EmitClass(p, sp, ep, st, offs);
        offs' := offs + [ep];
      } else {
        ep, offs' := EmitPlain(c, ep, lastep, st, offs, q);
        ok := true;
        st' := Next(st, Scan(q).token).state;
      }
    }

    /** The pass of the compiling loop that meets the delimiter. */
    method Finish(ep: nat, ghost items: seq<Item>, ghost offs: seq<nat>) returns (ok: bool)
      requires Layout(items, offs, ep)
      modifies `program, `offsets, expbuf
      ensures ok <==> S.CodeSize(items) < ESIZE
      ensures ok ==> Compiled() && program == items
    {
      ghost var code := expbuf[..];
      LaidSize(code, items, offs);
      if ep >= ESIZE {
        return false;
      }
      expbuf[ep] := CEOF;
      program, offsets := items, offs;
      LaidIsLocal(code, expbuf[..], items, offs);
      forall k | 0 <= k <= |items|
        ensures offsets[k] < ESIZE
      {
        LaidIsMonotonic(expbuf[..], items, offs, k);
      }
      ok := true;
    }

    /** What the compiling loop must make of the pattern. */
    ghost predicate Reads(r: Parsed, ok: bool, p: seq<byte>, sp: nat)
      reads this, expbuf
    {
      && (ok <==> r.Regex? && S.CodeSize(Program(r.body, r.atEnd)) < ESIZE)
      && (ok ==> Compiled() && program == Program(r.body, r.atEnd) && sp <= |p| && p[sp..] == r.rest)
    }

    /** The compiling loop. */
    method CompileItems(p: seq<byte>, eof: byte, sp0: nat) returns (ok: bool, sp: nat)
      requires expbuf.Length == ESIZE + 4 && Ascii(p) && eof != 0 && sp0 <= |p|
      requires !ParseItems(p[sp0..], eof, START).Unmodelled?
      modifies `program, `offsets, expbuf
      ensures Reads(ParseItems(p[sp0..], eof, START), ok, p, sp)
    {
      var ep: nat, lastep: int := 0, -1;
      var bracket := new byte[NBRA];
      var bracketp: nat, nbra: nat := 0, 0;
      ghost var st, offs := NothingRead();
      ghost var r := ParseItems(p[sp0..], eof, st);
      sp := sp0;
      while true
        invariant sp <= |p| && st.Valid() && Unanchored(st.body) && r == ParseItems(p[sp..], eof, st)
        invariant Layout(st.body, offs, ep) && StarState(st, lastep, st.body, offs)
        invariant Brackets(st, bracket, bracketp, nbra) && fresh(bracket)
        decreases |p| - sp
      {
        if ep >= ESIZE {
          TooLong(expbuf[..], offs, p[sp..], eof, st);
          return false, sp;
        }
        var c := At(p, sp);
        if c == 0 {
          return false, sp;
        }
        sp := sp + 1;
        if c == eof || (c == S.DOLLAR && At(p, sp) == eof) {
          ok, sp := Ended(p, eof, c, sp, ep, bracketp, st, offs);
          return;
        }
        ok, sp, ep, lastep, bracketp, nbra, st, offs :=
          Token(p, eof, sp, ep, lastep, bracket, bracketp, nbra, st, offs, r);
        if !ok {
          return;
        }
      }
    }

    lemma NothingRead() returns (st: State, offs: seq<nat>)
      ensures st == START && offs == [0]
    {
      st, offs := START, [0];
    }

    /** One token, seen from the loop: what is read so far has the meaning r. */
    method Token(p: seq<byte>, eof: byte, sp0: nat, ep0: nat, lastep0: int, bracket: array<byte>, bracketp0: nat, nbra0: nat,
                 ghost st: State, ghost offs: seq<nat>, ghost r: Parsed)
      returns (ok: bool, sp: nat, ep: nat, lastep: int, bracketp: nat, nbra: nat, ghost st': State, ghost offs': seq<nat>)
      requires Ascii(p) && 0 < sp0 <= |p| && ep0 < ESIZE && st.Valid() && Unanchored(st.body)
      requires p[sp0 - 1] != eof && !(p[sp0 - 1] == S.DOLLAR && sp0 < |p| && p[sp0] == eof)
      requires Layout(st.body, offs, ep0) && StarState(st, lastep0, st.body, offs)
      requires Brackets(st, bracket, bracketp0, nbra0) && bracket != expbuf
      requires !r.Unmodelled? && r == ParseItems(p[sp0 - 1..], eof, st)
      modifies expbuf, bracket
      ensures !ok ==> r.Regex? ==> S.CodeSize(Program(r.body, r.atEnd)) >= ESIZE
      ensures ok ==> sp0 <= sp <= |p| && st'.Valid() && Unanchored(st'.body) && r == ParseItems(p[sp..], eof, st')
      ensures ok ==> Layout(st'.body, offs', ep) && StarState(st', lastep, st'.body, offs')
      ensures ok ==> Brackets(st', bracket, bracketp, nbra)
    {
      ghost var from := p[sp0 - 1..];
      assert from[0] == p[sp0 - 1] && (|from| > 1 ==> from[1] == p[sp0]);
      ok, sp, ep, lastep, bracketp, nbra, st', offs' :=
        CompileToken(p, sp0, ep0, lastep0, bracket, bracketp0, nbra0, st, offs);
      if ok {
        NextGrows(st, Scan(from).token);
      } else {
        StepTooLong(from, eof, st);
      }
    }

    /** The end of the pattern, at the delimiter or at a dollar sign before it. */
    method Ended(p: seq<byte>, eof: byte, c: byte, sp0: nat, ep0: nat, bracketp: nat, ghost st: State, ghost offs: seq<nat>)
      returns (ok: bool, sp: nat)
      requires Ascii(p) && eof != 0 && 0 < sp0 <= |p| && c == p[sp0 - 1] && st.Valid() && |st.open| == bracketp
      requires c == eof || (c == S.DOLLAR && At(p, sp0) == eof)
      requires Layout(st.body, offs, ep0) && ep0 < ESIZE
      modifies `program, `offsets, expbuf
      ensures Reads(ParseItems(p[sp0 - 1..], eof, st), ok, p, sp)
    {
      ghost var from := p[sp0 - 1..];
      assert from[0] == c && from[1..] == p[sp0..];
      sp := sp0;
      var ep := ep0;
      ghost var items, offs' := st.body, offs;
      if c != eof {
        assert from[1] == eof && from[2..] == p[sp0 + 1..];
        ep := EmitOne(ep, CDOL, st.body, offs, EndOfLine);
        items, offs' := st.body + [EndOfLine], offs + [ep];
        sp := sp + 1;
      }
      if bracketp != 0 {
        return false, sp;
      }
      ok := Finish(ep, items, offs');
    }

    /** Compiles p up to the delimiter; an empty pattern stands for the last one, if there is one. */
    method Compile(p: seq<byte>, eof: byte) returns (ok: bool, sp: nat)
      requires expbuf.Length == ESIZE + 4 && Ascii(p) && eof != 0 && !Parse(p, eof).Unmodelled?
      modifies `circfl, `program, `offsets, expbuf
      ensures p != [] && p[0] == eof ==>
        (ok <==> old(expbuf[0]) != 0) && sp == 1 && expbuf[..] == old(expbuf[..]) && program == old(program)
      ensures !(p != [] && p[0] == eof) ==>
        Reads(Parse(p, eof), ok, p, sp) && (ok ==> Grouped(program) && (circfl != 0 <==> Anchored(p)))
      ensures !ok ==> expbuf[0] == 0
    {
      if At(p, 0) == eof {
        return expbuf[0] != 0, 1;
      }
      sp, circfl := 0, 0;
      if At(p, sp) == S.CARET {
        sp := sp + 1;
        circfl := circfl + 1;
      }
      assert p[0..] == p;
      ok, sp := CompileItems(p, eof, sp);
      if !ok {
        expbuf[0] := 0;
      } else {
        ParseGroups(if Anchored(p) then p[1..] else p, eof, START);
      }
    }

    // ---- Running the code ----

    /** Code and line are in place, and the arrays are different ones. */
    ghost predicate Ready()
      reads this, expbuf, linebuf
    {
      Compiled() && Loaded() && Grouped(program) && Apart()
    }

    ghost predicate Apart() {
      var text, marks: set<object> := {expbuf, linebuf}, {braslist, braelist};
      braslist.Length == NBRA && braelist.Length == NBRA && braslist != braelist && expbuf != linebuf && text !! marks
    }

    /** What linebuf holds at lp. */
    lemma ByteAt(lp: nat)
      requires Loaded() && lp <= |line|
      ensures linebuf[lp] == 0 <==> lp == |line|
      ensures lp < |line| ==> linebuf[lp] == line[lp]
    {
      if lp < |line| {
        assert linebuf[..|line|][lp] == linebuf[lp] && line[lp] in line;
      }
    }

    /** cclass(ep, c, af) */
    method InClass(ep: nat, c: byte, af: bool, ghost a: Atom) returns (r: bool)
      requires expbuf.Length == ESIZE + 4 && ep < expbuf.Length && (a.Listed? || a.Unlisted?)
      requires ep + 1 + |a.listed| <= expbuf.Length && ListAt(expbuf[..], ep, ep + 1 + |a.listed|, a.listed)
      requires af <==> a.Listed?
      ensures r <==> c != 0 && a.Takes(c)
    {
      if c == 0 {
        return false;
      }
      var n: int, sp := expbuf[ep], ep + 1;
      n := n - 1;
      ghost var k := 0;
      while n != 0
        invariant 0 <= k <= |a.listed| && n == |a.listed| - k && sp == ep + 1 + k
        invariant c !in a.listed[..k]
        decreases n
      {
        assert expbuf[sp] == expbuf[..][ep + 1..ep + 1 + |a.listed|][k];
        if expbuf[sp] == c {
          return af;
        }
        assert a.listed[..k + 1] == a.listed[..k] + [a.listed[k]];
        sp, n, k := sp + 1, n - 1, k + 1;
      }
      assert a.listed[..k] == a.listed;
      r := !af;
    }

    /** What the byte code of a class item says. */
    lemma ClassAt(m: nat)
      requires Compiled() && m < |program| && (program[m].One? || program[m].Many?)
      requires program[m].atom.Listed? || program[m].atom.Unlisted?
      ensures var e, a := offsets[m], program[m].atom;
        && e + 2 + |a.listed| == offsets[m + 1] <= expbuf.Length
        && ListAt(expbuf[..], e + 1, e + 2 + |a.listed|, a.listed) && expbuf[e + 1] == |a.listed| + 1
    {
      LaidIsMonotonic(expbuf[..], program, offsets, m);
      assert ItemAt(expbuf[..], offsets[m], offsets[m + 1], program[m]);
    }

    /** while (*lp++); stopping at the end of the line */
    method ScanLine(curlp: nat) returns (lp: nat)
      requires Loaded() && curlp <= |line|
      ensures lp == |line|
    {
      lp := curlp;
      ByteAt(lp);
      while linebuf[lp] != 0
        invariant curlp <= lp <= |line| && (linebuf[lp] == 0 <==> lp == |line|)
        decreases |line| - lp
      {
        lp := lp + 1;
        ByteAt(lp);
      }
    }

    /** while (*lp++ == c); stopping where it is not */
    method ScanChar(curlp: nat, c: byte) returns (lp: nat)
      requires Loaded() && curlp <= |line| && c != 0
      ensures curlp <= lp <= |line| && TakesAll(Char(c), line, curlp, lp) && (lp < |line| ==> line[lp] != c)
    {
      lp := curlp;
      ByteAt(lp);
      while linebuf[lp] == c
        invariant curlp <= lp <= |line| && TakesAll(Char(c), line, curlp, lp)
        invariant (linebuf[lp] == 0 <==> lp == |line|) && (lp < |line| ==> linebuf[lp] == line[lp])
        decreases |line| - lp
      {
        lp := lp + 1;
        ByteAt(lp);
      }
    }

    /** The scanning loops in front of the label star: runs over everything the repeated
        atom can take, and one byte more. */
    method ScanRun(op: byte, ep: nat, curlp: nat, ghost m: nat) returns (lp: nat)
      requires Compiled() && Loaded() && m < |program| && program[m].Many?
      requires curlp <= |line| && ep == offsets[m] + 1 && op == expbuf[offsets[m]]
      ensures curlp < lp <= |line| + 1 && TakesAll(program[m].atom, line, curlp, lp - 1)
      ensures lp - 1 < |line| ==> !program[m].atom.Takes(line[lp - 1])
    {
      assert ItemAt(expbuf[..], offsets[m], offsets[m + 1], program[m]);
      assert GoodItem(program[m]);
      ghost var a := program[m].atom;
      lp := curlp;
      if op == CDOT + STAR {
        lp := ScanLine(lp);
      } else if op == CCHR + STAR {
        lp := ScanChar(lp, expbuf[ep]);
      } else {
        ClassAt(m);
        lp := ScanClass(op == CCL + STAR, ep, lp, a);
      }
      lp := lp + 1;
    }

    method ScanClass(af: bool, ep: nat, curlp: nat, ghost a: Atom) returns (lp: nat)
      requires Loaded() && curlp <= |line| && expbuf.Length == ESIZE + 4 && (a.Listed? || a.Unlisted?)
      requires ep + 1 + |a.listed| <= expbuf.Length && ListAt(expbuf[..], ep, ep + 1 + |a.listed|, a.listed)
      requires af <==> a.Listed?
      ensures curlp <= lp <= |line| && TakesAll(a, line, curlp, lp)
      ensures lp < |line| ==> !a.Takes(line[lp])
    {
      lp := curlp;
      ByteAt(lp);
      var taken := InClass(ep, linebuf[lp], af, a);
      while taken
        invariant curlp <= lp <= |line| && TakesAll(a, line, curlp, lp)
        invariant taken <==> lp < |line| && a.Takes(line[lp])
        decreases |line| - lp
      {
        lp := lp + 1;
        ByteAt(lp);
        taken := InClass(ep, linebuf[lp], af, a);
      }
    }

    ghost function Marked(): Marks
      reads braslist, braelist
    {
      Marks(braslist[..], braelist[..])
    }

    /** loc2 and the marks are those of the preferred match of items[m..] from i. */
    ghost predicate Matched(m: nat, i: nat)
      requires Ready() && m <= |program| && i <= |line| && CanMatch(program, m, line, i)
      reads this, expbuf, linebuf, braslist, braelist
    {
      loc2 == Reach(program, m, line, i, |program|) && Captured(program, line, Marked(), m, i, |program|)
    }

    /** The part after the label star: tries the rest of the code from top down to curlp. */
    method TryBackwards(curlp: nat, top: nat, ep: nat, ghost m: nat) returns (r: bool, ghost k: nat)
      requires Ready() && 0 < m <= |program| && curlp <= top <= |line| && ep == offsets[m]
      modifies `loc2, braslist, braelist
      ensures Ready() && Frame(program, m, old(Marked()), Marked())
      ensures r ==> curlp <= k <= top && CanMatch(program, m, line, k) && NoneAbove(program, m, line, k, top) && Matched(m, k)
      ensures !r ==> NoneAbove(program, m, line, curlp - 1, top)
      decreases |program| - m, 3
    {
      var lp: int := top + 1;
      k := 0;
      while true
        invariant curlp < lp <= top + 1 && Ready() && NoneAbove(program, m, line, lp - 1, top)
        invariant Frame(program, m, old(Marked()), Marked())
        decreases lp
      {
        lp := lp - 1;
        r := Advance(lp, ep, m);
        if r {
          k := lp;
          return;
        }
        if lp <= curlp {
          return;
        }
      }
    }

    /** CBRA or CKET: notes where a group begins or ends. */
    method Mark(op: byte, ep: nat, lp: nat, ghost m0: nat, ghost i: nat, ghost m: nat)
      requires Ready() && m0 <= m < |program| && i <= |line| && lp <= |line| && ep == offsets[m] + 1
      requires op == expbuf[offsets[m]] && (op == CBRA || op == CKET)
      requires Progress(program, line, Marked(), m0, i, m, lp)
      modifies braslist, braelist
      ensures Ready() && ep + 1 == offsets[m + 1]
      ensures Progress(program, line, Marked(), m0, i, m + 1, lp)
      ensures Frame(program, m0, old(Marked()), Marked())
    {
      assert ItemAt(expbuf[..], offsets[m], offsets[m + 1], program[m]);
      ghost var was := Marked();
      if op == CBRA {
        assert program[m] == Open(expbuf[ep]);
        braslist[expbuf[ep]] := lp;
      } else {
        assert program[m] == Close(expbuf[ep]);
        braelist[expbuf[ep]] := lp;
      }
      MatchStep(program, m, line, lp);
      ProgressNext(program, line, was, Marked(), m0, i, m, lp, lp);
    }

    /** CCHR, CDOT, CDOL, CCL and NCCL: the next item takes one byte of the line, or tests for its end. */
    method Plain(op: byte, ep0: nat, lp0: nat, ghost m: nat) returns (ok: bool, ep: nat, lp: nat)
      requires Compiled() && Loaded() && m < |program| && lp0 <= |line| && ep0 == offsets[m] + 1
      requires op == expbuf[offsets[m]] && op in {CCHR, CDOT, CDOL, CCL, NCCL}
      ensures program[m].One? || program[m].EndOfLine?
      ensures !ok ==> !CanMatch(program, m, line, lp0)
      ensures ok ==> lp == (if program[m].One? then lp0 + 1 else lp0) && lp <= |line| && ep == offsets[m + 1]
      ensures ok ==> (CanMatch(program, m + 1, line, lp) <==> CanMatch(program, m, line, lp0))
    {
      assert ItemAt(expbuf[..], offsets[m], offsets[m + 1], program[m]);
      assert GoodItem(program[m]);
      ep, lp := ep0, lp0;
      ByteAt(lp);
      MatchStep(program, m, line, lp);
      if op == CCHR {
        ok := expbuf[ep] == linebuf[lp];
        ep, lp := ep + 1, lp + 1;
      } else if op == CDOT {
        ok := linebuf[lp] != 0;
        lp := lp + 1;
      } else if op == CDOL {
        ok := linebuf[lp] == 0;
      } else {
        ClassAt(m);
        ok := InClass(ep, linebuf[lp], op == CCL, program[m].atom);
        ep, lp := ep + expbuf[ep], lp + 1;
      }
    }

    /** A repetition, and all that follows it. */
    method Star(op: byte, ep0: nat, lp: nat, ghost m0: nat, ghost i: nat, ghost m: nat) returns (r: bool)
      requires Ready() && m0 <= m < |program| && program[m].Many? && i <= |line| && lp <= |line|
      requires ep0 == offsets[m] + 1 && op == expbuf[offsets[m]]
      requires Progress(program, line, Marked(), m0, i, m, lp)
      modifies `loc2, braslist, braelist
      ensures Ready() && Frame(program, m + 1, old(Marked()), Marked())
      ensures r <==> CanMatch(program, m0, line, i)
      ensures r ==> Matched(m0, i)
      decreases |program| - m, 1
    {
      ghost var was := Marked();
      var top := ScanRun(op, ep0, lp, m);
      top := top - 1;
      var ep := SkipOperand(op, ep0, m);
      ghost var at;
      r, at := TryBackwards(lp, top, ep, m + 1);
      if r {
        ProgressStar(program, line, was, Marked(), m0, i, m, lp, top, at);
      } else {
        StarFails(program, line, was, m0, i, m, lp, top);
      }
    }

    /** Past the operand of a repetition. */
    method SkipOperand(op: byte, ep0: nat, ghost m: nat) returns (ep: nat)
      requires Compiled() && m < |program| && program[m].Many? && ep0 == offsets[m] + 1 && op == expbuf[offsets[m]]
      ensures ep == offsets[m + 1]
    {
      assert ItemAt(expbuf[..], offsets[m], offsets[m + 1], program[m]);
      assert GoodItem(program[m]);
      if op == CCHR + STAR {
        ep := ep0 + 1;
      } else if op == CDOT + STAR {
        ep := ep0;
      } else {
        ClassAt(m);
        ep := ep0 + expbuf[ep0];
      }
    }

    /** Runs the code from ep on the line from lp. */
    method Advance(lp0: nat, ep0: nat, ghost m0: nat) returns (r: bool)
      requires Ready() && m0 <= |program| && lp0 <= |line| && ep0 == offsets[m0]
      modifies `loc2, braslist, braelist
      ensures Ready() && Frame(program, m0, old(Marked()), Marked())
      ensures r <==> CanMatch(program, m0, line, lp0)
      ensures r ==> Matched(m0, lp0)
      decreases |program| - m0, 2
    {
      var lp: nat, ep: nat := lp0, ep0;
      ghost var m: nat := m0;
      while true
        invariant m0 <= m <= |program| && lp <= |line| && ep == offsets[m] && Ready()
        invariant Progress(program, line, Marked(), m0, lp0, m, lp)
        invariant Frame(program, m0, old(Marked()), Marked())
        decreases |program| - m
      {
        var op := expbuf[ep];
        ep := ep + 1;
        OpcodeOf(m);
        if op == CEOF {
          EndMatches(program, line, lp);
          loc2 := lp;
          return true;
        }
        ghost var was := Marked();
        if op in {CCHR, CDOT, CDOL, CCL, NCCL} {
          ghost var from := lp;
          var ok;
          ok, ep, lp := Plain(op, ep, lp, m);
          if !ok {
            return false;
          }
          ProgressNext(program, line, was, was, m0, lp0, m, from, lp);
        } else if op == CBRA || op == CKET {
          Mark(op, ep, lp, m0, lp0, m);
          FrameTrans(program, m0, m0, old(Marked()), was, Marked());
          ep := ep + 1;
        } else {
          r := Star(op, ep, lp, m0, lp0, m);
          FrameTrans(program, m0, m + 1, old(Marked()), was, Marked());
          return;
        }
        m := m + 1;
      }
    }

    lemma OpcodeOf(m: nat)
      requires Compiled() && m <= |program|
      ensures expbuf[offsets[m]] == CEOF <==> m == |program|
      ensures m < |program| && expbuf[offsets[m]] !in {CCHR, CDOT, CDOL, CCL, NCCL, CBRA, CKET} ==> program[m].Many?
    {
      if m < |program| {
        assert ItemAt(expbuf[..], offsets[m], offsets[m + 1], program[m]);
        assert GoodItem(program[m]);
      }
    }

    /** Looks for the pattern in the line in linebuf, with no earlier match to continue from. */
    method Execute() returns (found: bool)
      requires Ready()
      modifies `loc1, `loc2, braslist, braelist
      ensures Ready() && (found <==> Found(circfl != 0, program, line))
      ensures found ==> loc1 <= |line| && (circfl != 0 ==> loc1 == 0) && CanMatch(program, 0, line, loc1)
      ensures found ==> loc2 == MatchEnd(program, line, loc1) && Captured(program, line, Marked(), 0, loc1, |program|)
      ensures found ==> circfl == 0 ==> NoneBelow(program, line, loc1)
    {
      ClearMarks();
      var p1, p2 := 0, 0;
      if circfl != 0 {
        loc1 := p1;
        found := Advance(p1, p2, 0);
        return;
      }
      if expbuf[p2] == CCHR {
        found := FastSearch(expbuf[p2 + 1]);
        return;
      }
      while true
        invariant p1 <= |line| && Ready() && NoneBelow(program, line, p1)
        decreases |line| - p1
      {
        found := Advance(p1, p2, 0);
        if found {
          loc1 := p1;
          return;
        }
        ByteAt(p1);
        if linebuf[p1] == 0 {
          return false;
        }
        p1 := p1 + 1;
      }
    }

    method ClearMarks()
      requires Ready()
      modifies braslist, braelist
      ensures Ready()
    {
      var c := 0;
      while c < NBRA
        invariant 0 <= c <= NBRA && Ready()
      {
        braslist[c] := -1;
        braelist[c] := -1;
        c := c + 1;
      }
    }

    /** The loop that skips places where the first character does not match. */
    method FastSearch(c: byte) returns (found: bool)
      requires Ready() && expbuf[0] == CCHR && c == expbuf[1]
      modifies `loc1, `loc2, braslist, braelist
      ensures Ready() && (found <==> Found(false, program, line))
      ensures found ==> loc1 <= |line| && CanMatch(program, 0, line, loc1) && NoneBelow(program, line, loc1)
      ensures found ==> loc2 == MatchEnd(program, line, loc1) && Captured(program, line, Marked(), 0, loc1, |program|)
    {
      FirstCharacter();
      var p1 := 0;
      while true
        invariant p1 <= |line| && Ready() && NoneBelow(program, line, p1)
        decreases |line| - p1
      {
        if linebuf[p1] == c {
          found := Advance(p1, 0, 0);
          if found {
            loc1 := p1;
            return;
          }
        }
        ByteAt(p1);
        MatchStep(program, 0, line, p1);
        if linebuf[p1] == 0 {
          return false;
        }
        p1 := p1 + 1;
      }
    }

    lemma FirstCharacter()
      requires Compiled() && expbuf[0] == CCHR
      ensures program != [] && program[0] == One(Char(expbuf[1]))
    {
      if program != [] {
        assert ItemAt(expbuf[..], offsets[0], offsets[1], program[0]);
      }
    }
  }

  /** Code that fills the buffer is too long for any continuation of the pattern. */
  lemma TooLong(code: seq<byte>, offs: seq<nat>, p: seq<byte>, eof: byte, st: State)
    requires Laid(code, st.body, offs) && offs[|st.body|] >= ESIZE
    requires st.Valid() && Unanchored(st.body)
    ensures var r := ParseItems(p, eof, st); r.Regex? ==> S.CodeSize(Program(r.body, r.atEnd)) >= ESIZE
  {
    LaidSize(code, st.body, offs);
    if ParseItems(p, eof, st).Regex? {
      ParseGrows(p, eof, st);
    }
  }

  lemma StepTooLong(p: seq<byte>, eof: byte, st: State)
    requires p != [] && p[0] != eof && !(p[0] == S.DOLLAR && |p| > 1 && p[1] == eof)
    requires st.Valid() && Unanchored(st.body)
    requires var r := Next(st, Scan(p).token); r.Bad? || (r.Go? && S.CodeSize(r.state.body) >= ESIZE)
    ensures var r := ParseItems(p, eof, st); r.Regex? ==> S.CodeSize(Program(r.body, r.atEnd)) >= ESIZE
  {
    if ParseItems(p, eof, st).Regex? {
      NextGrows(st, Scan(p).token);
      ParseGrows(Scan(p).rest, eof, Next(st, Scan(p).token).state);
    }
  }
}
