/** grep: compile a pattern in place into byte code, and run the code on a line. */
module Grep {
  import opened Common
  import opened Patterns
  import opened GrepSyntax
  import opened GrepCode

  /** The byte at p[i], with the NUL that ends the text in memory. */
  function At(p: Text, i: nat): (b: byte)
    ensures b == 0 <==> i >= |p|
  {
    if i < |p| then (assert p[i] in p; p[i]) else 0
  }

  lemma NextIsGood(st: State, p: Text)
    requires st.Valid() && p != [] && GoodItems(st.body)
    requires Next(st, Scan(p).token).Go?
    ensures GoodItems(Next(st, Scan(p).token).state.body)
  {
    assert forall i :: 0 <= i < |p| ==> p[i] in p;
    if p[0] == LBRACKET {
      assert forall i :: 0 <= i < |p[1..]| ==> p[1..][i] == p[i + 1];
      ClassIsAscii(p[1..]);
    }
  }

  lemma ClassIsAscii(p: Text)
    requires ParseClass(p).Members?
    ensures forall b :: b in ParseClass(p).members ==> 0 < b < 128
  {
    if p != [] && p[0] == CARET {
      MembersAreAscii(p[1..], None, {});
    } else {
      MembersAreAscii(p, None, {});
    }
  }

  class Grep {
    const expbuf: array<byte>
    const linebuf: array<byte>
    var circf: int

    ghost var program: seq<Item>
    ghost var offsets: seq<nat>
    ghost var line: Text

    /** The buffers when the program starts, and a line has been read. */
    constructor (text: Text)
      ensures Fresh() && Loaded() && line == text && linebuf != expbuf && fresh(expbuf) && fresh(linebuf)
    {
      expbuf := new byte[ESIZE + 1](_ => 0);
      linebuf := new byte[|text| + 1](i => if 0 <= i < |text| then text[i] else 0);
      circf := 0;
      program, offsets, line := [], [], text;
    }

    /** Before compilation the code buffer is all zero.  One byte of slack stands
        for the last operand the compiler writes before it tests for overflow. */
    ghost predicate Fresh()
      reads this, expbuf
    {
      expbuf.Length == ESIZE + 1 && circf == 0 && forall i :: 0 <= i < expbuf.Length ==> expbuf[i] == 0
    }

    /** expbuf holds the code of program, ended by CEOF. */
    ghost predicate Compiled()
      reads this, expbuf
    {
      && expbuf.Length == ESIZE + 1
      && Laid(expbuf[..], program, offsets)
      && GoodItems(program)
      && (forall k :: 0 <= k <= |program| ==> offsets[k] < ESIZE)
      && expbuf[offsets[|program|]] == CEOF
    }

    /** linebuf holds line, ended by NUL. */
    ghost predicate Loaded()
      reads this, linebuf
    {
      |line| < linebuf.Length && linebuf[..|line|] == line && linebuf[|line|] == 0
    }

    /** The state of the code buffer while compiling: items laid out up to ep. */
    ghost predicate Layout(items: seq<Item>, offs: seq<nat>, ep: nat)
      reads expbuf
    {
      && expbuf.Length == ESIZE + 1
      && Laid(expbuf[..], items, offs)
      && GoodItems(items)
      && ep == offs[|items|]
      && forall i :: ep <= i < expbuf.Length ==> expbuf[i] == 0
    }

    method EmitOne(ep: nat, op: byte, ghost items: seq<Item>, ghost offs: seq<nat>, ghost it: Item) returns (end: nat)
      requires Layout(items, offs, ep) && ep < ESIZE
      requires (it == One(Any) && op == CDOT) || (it == EndOfLine && op == CDOL)
      modifies expbuf
      ensures end == ep + 1 && Layout(items + [it], offs + [end], end)
      ensures expbuf[ep] == op && forall i :: 0 <= i < ep ==> expbuf[i] == old(expbuf[i])
    {
      ghost var code := expbuf[..];
      expbuf[ep] := op;
      end := ep + 1;
      LaidAppend(code, expbuf[..], items, offs, it, end);
    }

    method EmitTwo(ep: nat, op: byte, arg: byte, ghost items: seq<Item>, ghost offs: seq<nat>, ghost it: Item)
      returns (end: nat)
      requires Layout(items, offs, ep) && ep < ESIZE && GoodItem(it)
      requires || (it == One(Char(arg)) && op == CCHR)
               || (it == Open(arg) && op == CBRA)
               || (it == Close(arg) && op == CKET)
      modifies expbuf
      ensures end == ep + 2 && Layout(items + [it], offs + [end], end)
      ensures expbuf[ep] == op && forall i :: 0 <= i < ep ==> expbuf[i] == old(expbuf[i])
    {
      ghost var code := expbuf[..];
      expbuf[ep] := op;
      expbuf[ep + 1] := arg;
      end := ep + 2;
      LaidAppend(code, expbuf[..], items, offs, it, end);
    }

    /** Adds one member to the bitmap at ep. */
    method AddMember(ep: nat, c: byte, ghost members: set<byte>)
      requires ep + 16 <= expbuf.Length && c < 128
      requires Bitmap(expbuf[..], ep, members)
      modifies expbuf
      ensures Bitmap(expbuf[..], ep, members + {c})
      ensures forall i :: 0 <= i < expbuf.Length && !(ep <= i < ep + 16) ==> expbuf[i] == old(expbuf[i])
    {
      Pow2Of8();
      ghost var was := expbuf[..];
      expbuf[ep + c / 8] := SetBit(expbuf[ep + c / 8], c % 8, 8);
      forall d: byte | d < 128
        ensures HasBit(expbuf[..][ep + d / 8], d % 8) <==> d in members + {c}
      {
        assert HasBit(was[ep + d / 8], d % 8) <==> d in members;
        if d / 8 == c / 8 {
          SetBitEffect(was[ep + c / 8], c % 8, 8, d % 8);
        }
      }
    }

    /** Adds lo, lo + 1, ..., hi - 1; returns where the loop variable stopped. */
    method AddRange(ep: nat, lo: byte, hi: byte, ghost members: set<byte>) returns (c: byte, ghost members': set<byte>)
      requires ep + 16 <= expbuf.Length && lo < 128 && hi < 128
      requires Bitmap(expbuf[..], ep, members)
      modifies expbuf
      ensures c < 128 && Bitmap(expbuf[..], ep, members')
      ensures members' + {c} == members + RangeMembers(lo, hi)
      ensures forall i :: 0 <= i < expbuf.Length && !(ep <= i < ep + 16) ==> expbuf[i] == old(expbuf[i])
    {
      c := lo;
      members' := members;
      while c < hi
        invariant lo <= c < 128 && (c <= hi || c == lo)
        invariant Bitmap(expbuf[..], ep, members')
        invariant members' + {c} == members + RangeMembers(lo, c)
        invariant forall i :: 0 <= i < expbuf.Length && !(ep <= i < ep + 16) ==> expbuf[i] == old(expbuf[i])
      {
        AddMember(ep, c, members');
        members' := members' + {c};
        c := c + 1;
      }
    }

    method Negate(ep: nat, ghost members: set<byte>)
      requires ep + 16 <= expbuf.Length
      requires Bitmap(expbuf[..], ep, members)
      modifies expbuf
      ensures Bitmap(expbuf[..], ep, Complement(members))
      ensures forall i :: 0 <= i < expbuf.Length && !(ep <= i < ep + 16) ==> expbuf[i] == old(expbuf[i])
    {
      Pow2Of8();
      ghost var was := expbuf[..];
      var cclcnt := 0;
      while cclcnt < 16
        invariant 0 <= cclcnt <= 16
        invariant forall i :: ep <= i < ep + cclcnt ==> expbuf[i] == FlipBits(was[i], 8)
        invariant forall i :: ep + cclcnt <= i < ep + 16 ==> expbuf[i] == was[i]
        invariant forall i :: 0 <= i < expbuf.Length && !(ep <= i < ep + 16) ==> expbuf[i] == was[i]
      {
        expbuf[ep + cclcnt] := FlipBits(expbuf[ep + cclcnt], 8);
        cclcnt := cclcnt + 1;
      }
      expbuf[ep] := ClearBit0(expbuf[ep]);
      forall d: byte | d < 128
        ensures HasBit(expbuf[..][ep + d / 8], d % 8) <==> d in Complement(members)
      {
        assert HasBit(was[ep + d / 8], d % 8) <==> d in members;
        FlipBitsEffect(was[ep + d / 8], 8, d % 8);
        ClearBit0Effect(FlipBits(was[ep], 8), d % 8);
      }
    }

    /** Compiles what follows an opening bracket into the bitmap at ep. */
    method CompileClass(astr: Text, sp0: nat, ep: nat) returns (ok: bool, sp: nat)
      requires sp0 <= |astr| && ep + 16 <= expbuf.Length
      requires !ParseClass(astr[sp0..]).UnmodelledClass?
      requires forall i :: ep <= i < ep + 16 ==> expbuf[i] == 0
      modifies expbuf
      ensures ok <==> ParseClass(astr[sp0..]).Members?
      ensures ok ==> sp <= |astr| && astr[sp..] == ParseClass(astr[sp0..]).rest
      ensures ok ==> Bitmap(expbuf[..], ep, ParseClass(astr[sp0..]).members)
      ensures forall i :: 0 <= i < expbuf.Length && !(ep <= i < ep + 16) ==> expbuf[i] == old(expbuf[i])
    {
      sp := sp0;
      forall d: byte | d < 128
        ensures !HasBit(expbuf[..][ep + d / 8], d % 8)
      {
        ZeroHasNoBit(d % 8);
      }
      var neg := At(astr, sp) == CARET;
      if neg {
        sp := sp + 1;
        assert astr[sp0..][1..] == astr[sp..];
      }
      ghost var from := astr[sp..];
      ok, sp := CompileMembers(astr, sp, ep);
      if ok && neg {
        Negate(ep, ParseMembers(from, None, {}).members);
      }
    }

    /** Adds the member c == astr[sp - 1], or the range whose dash c is.  On
        return astr[sp'..] is still to be read. */
    method AddOneOrRange(astr: Text, sp: nat, cstart: nat, ep: nat, ghost prev: Previous, ghost members: set<byte>)
      returns (sp': nat, ghost members': set<byte>)
      requires 0 < cstart <= sp <= |astr| && ep + 16 <= expbuf.Length
      requires prev == if sp == cstart then None else Some(astr[sp - 2])
      requires sp > cstart ==> astr[sp - 1] != RBRACKET && astr[sp - 2] < 128
      requires !ParseMembers(astr[sp - 1..], prev, members).UnmodelledClass?
      requires Bitmap(expbuf[..], ep, members)
      modifies expbuf
      ensures sp <= sp' <= |astr| && astr[sp' - 1] < 128
      ensures ParseMembers(astr[sp'..], Some(astr[sp' - 1]), members') == ParseMembers(astr[sp - 1..], prev, members)
      ensures Bitmap(expbuf[..], ep, members')
      ensures forall i :: 0 <= i < expbuf.Length && !(ep <= i < ep + 16) ==> expbuf[i] == old(expbuf[i])
    {
      var c := astr[sp - 1];
      sp', members' := sp, members;
      MembersStep(astr, sp - 1, prev, members);
      if c == DASH && sp > cstart && At(astr, sp) != RBRACKET {
        c, members' := AddRange(ep, astr[sp - 2], At(astr, sp), members);
        sp' := sp + 1;
      }
      AddMember(ep, c, members');
      members' := members' + {c};
    }

    lemma NoMembers() returns (prev: Previous, members: set<byte>)
      ensures prev == None && members == {}
    {
      prev, members := None, {};
    }

    /** The members of a class, up to and including the closing bracket. */
    method CompileMembers(astr: Text, sp0: nat, ep: nat) returns (ok: bool, sp: nat)
      requires sp0 <= |astr| && ep + 16 <= expbuf.Length
      requires !ParseMembers(astr[sp0..], None, {}).UnmodelledClass?
      requires Bitmap(expbuf[..], ep, {})
      modifies expbuf
      ensures var r := ParseMembers(astr[sp0..], None, {});
        && (ok <==> r.Members?)
        && (ok ==> sp <= |astr| && astr[sp..] == r.rest && Bitmap(expbuf[..], ep, r.members))
      ensures forall i :: 0 <= i < expbuf.Length && !(ep <= i < ep + 16) ==> expbuf[i] == old(expbuf[i])
    {
      ghost var prev, members := NoMembers();
      ghost var was, goal := expbuf[..], ParseMembers(astr[sp0..], prev, members);
      var c := At(astr, sp0);
      sp := sp0 + 1;
      var cstart := sp;
      while c != 0 && (c != RBRACKET || sp == cstart)
        invariant cstart <= sp && MembersRead(astr, sp, cstart, ep, c, prev, members, goal, was)
        decreases |astr| + 1 - sp
      {
        sp, c, prev, members := OneMember(astr, sp, cstart, ep, c, prev, members, goal, was);
      }
      MembersEnd(astr, sp - 1, prev, members);
      ok := c != 0;
    }

    /** Between two members; only the bitmap at ep has changed. */
    ghost predicate MembersRead(astr: Text, sp: nat, cstart: nat, ep: nat, c: byte, prev: Previous, members: set<byte>,
                                goal: ParsedClass, was: seq<byte>)
      reads expbuf
    {
      && 0 < cstart <= sp <= |astr| + 1 && c == At(astr, sp - 1) && ep + 16 <= expbuf.Length == |was|
      && prev == (if sp == cstart then None else Some(astr[sp - 2])) && (sp > cstart ==> astr[sp - 2] < 128)
      && ParseMembers(astr[sp - 1..], prev, members) == goal
      && Bitmap(expbuf[..], ep, members)
      && forall i :: 0 <= i < expbuf.Length && !(ep <= i < ep + 16) ==> expbuf[i] == was[i]
    }

    method OneMember(astr: Text, sp0: nat, cstart: nat, ep: nat, c0: byte, ghost prev0: Previous, ghost members0: set<byte>,
                     ghost goal: ParsedClass, ghost was: seq<byte>)
      returns (sp: nat, c: byte, ghost prev: Previous, ghost members: set<byte>)
      requires MembersRead(astr, sp0, cstart, ep, c0, prev0, members0, goal, was) && !goal.UnmodelledClass?
      requires c0 != 0 && (c0 != RBRACKET || sp0 == cstart)
      modifies expbuf
      ensures sp > sp0 && MembersRead(astr, sp, cstart, ep, c, prev, members, goal, was)
    {
      sp, members := AddOneOrRange(astr, sp0, cstart, ep, prev0, members0);
      prev := Some(astr[sp - 1]);
      c := At(astr, sp);
      sp := sp + 1;
    }

    /** `*lastep |= STAR` on the last item. */
    method Repeat(lastep: nat, ghost items: seq<Item>, ghost offs: seq<nat>)
      requires exists ep :: Layout(items, offs, ep)
      requires Repeatable(items) && lastep == offs[|items| - 1]
      modifies expbuf
      ensures Layout(Repeated(items), offs, offs[|items|])
    {
      LaidIsMonotonic(expbuf[..], items, offs, |items| - 1);
      assert ItemAt(expbuf[..], offs[|items| - 1], offs[|items|], items[|items| - 1]);
      if expbuf[lastep] % 2 == 0 {
        LaidRepeated(expbuf[..], items, offs);
        ghost var code := expbuf[..];
        expbuf[lastep] := expbuf[lastep] + STAR;
        assert expbuf[..] == code[lastep := code[lastep] + STAR];
      } else {
        assert Repeated(items) == items;
      }
    }

    /** What lastep tells the compiler about a star that comes next. */
    ghost predicate StarState(st: State, lastep: int, items: seq<Item>, offs: seq<nat>)
      reads expbuf
    {
      && |offs| == |items| + 1
      && if st.starable then Repeatable(items) && lastep == offs[|items| - 1]
         else lastep == -1 || (0 <= lastep < expbuf.Length && lastep < offs[|items|] && expbuf[lastep] in {CBRA, CKET})
    }

    /** What compiling one token at astr[sp - 1] must achieve: read what Scan reads
        and reach the state Next gives. */
    ghost predicate TokenDone(astr: Text, sp: nat, st: State, sp': nat, st': State)
      requires 0 < sp <= |astr| && st.Valid()
    {
      var s := Scan(astr[sp - 1..]);
      sp' <= |astr| && astr[sp'..] == s.rest && Next(st, s.token) == Go(st')
    }

    ghost predicate TokenFails(astr: Text, sp: nat, st: State)
      requires 0 < sp <= |astr| && st.Valid()
    {
      var r := Next(st, Scan(astr[sp - 1..]).token);
      r.Bad? || (r.Go? && CodeSize(r.state.body) >= ESIZE)
    }

    /** The bracket expression after an opening bracket at astr[sp - 1]. */
    method EmitClass(astr: Text, sp0: nat, ep: nat, ghost st: State, ghost offs: seq<nat>) returns (ok: bool, sp: nat)
      requires st.Valid() && Layout(st.body, offs, ep) && ep < ESIZE
      requires 0 < sp0 <= |astr| && astr[sp0 - 1] == LBRACKET
      requires !Next(st, Scan(astr[sp0 - 1..]).token).Odd?
      modifies expbuf
      ensures !ok ==> TokenFails(astr, sp0, st)
      ensures ok ==> Next(st, Scan(astr[sp0 - 1..]).token).Go?
      ensures ok ==> TokenDone(astr, sp0, st, sp, Next(st, Scan(astr[sp0 - 1..]).token).state)
      ensures ok ==> var st' := Next(st, Scan(astr[sp0 - 1..]).token).state;
        Layout(st'.body, offs + [ep + 17], ep + 17) && StarState(st', ep, st'.body, offs + [ep + 17])
    {
      ghost var p := astr[sp0 - 1..];
      assert p[0] == LBRACKET && p[1..] == astr[sp0..];
      ghost var r := ParseClass(astr[sp0..]);
      ghost var members := if r.Members? then r.members else {};
      ClassScan(p, r);
      ClassNext(st, members);
      if ep + 17 >= ESIZE {
        LaidSize(expbuf[..], st.body, offs);
        return false, sp0;
      }
      ok, sp := LayClass(astr, sp0, ep, st.body, offs, r);
    }

    /** The opcode and the bitmap of a class. */
    method LayClass(astr: Text, sp0: nat, ep: nat, ghost body: seq<Item>, ghost offs: seq<nat>, ghost r: ParsedClass)
      returns (ok: bool, sp: nat)
      requires Layout(body, offs, ep) && ep + 17 < ESIZE && sp0 <= |astr| && r == ParseClass(astr[sp0..]) && !r.UnmodelledClass?
      modifies expbuf
      ensures ok <==> r.Members?
      ensures ok ==> sp <= |astr| && astr[sp..] == r.rest && Layout(body + [One(Class(r.members))], offs + [ep + 17], ep + 17)
    {
      ghost var code := expbuf[..];
      expbuf[ep] := CCL;
      ok, sp := CompileClass(astr, sp0, ep + 1);
      if ok {
        ClassIsAscii(astr[sp0..]);
        LaidAppend(code, expbuf[..], body, offs, One(Class(r.members)), ep + 17);
      }
    }

    lemma ClassScan(p: Text, r: ParsedClass)
      requires p != [] && p[0] == LBRACKET && r == ParseClass(p[1..])
      ensures r.Members? ==> Scan(p) == Scanned(Bracket(r.members), r.rest)
      ensures r.BadClass? ==> Scan(p).token == BadToken
      ensures r.UnmodelledClass? ==> Scan(p).token == UnmodelledToken
    {
    }

    lemma ClassNext(st: State, members: set<byte>)
      requires st.Valid()
      ensures Next(st, Bracket(members)) == Go(st.Add(One(Class(members))))
      ensures CodeSize(st.Add(One(Class(members))).body) == CodeSize(st.body) + 17
    {
      CodeSizeOfAppend(st.body, One(Class(members)));
    }

    /** Any other token: a dot, a star or an ordinary character. */
    method EmitPlain(c: byte, ep0: nat, lastep: int, ghost st: State, ghost offs: seq<nat>, ghost p: Text)
      returns (ep: nat, ghost offs': seq<nat>)
      requires st.Valid() && Layout(st.body, offs, ep0) && ep0 < ESIZE
      requires p != [] && p[0] == c && c != LBRACKET && c != BACKSLASH
      requires if c == STARCH then StarState(st, lastep, st.body, offs) else lastep == ep0
      modifies expbuf
      ensures Next(st, Scan(p).token).Go?
      ensures var st' := Next(st, Scan(p).token).state;
        Layout(st'.body, offs', ep) && StarState(st', lastep, st'.body, offs')
    {
      ep, offs' := ep0, offs;
      assert c in p;
      if c == STARCH && st.starable {
        StarableOpcode(st, lastep, offs);
      }
      if c == DOT {
        ep := EmitOne(ep, CDOT, st.body, offs, One(Any));
        offs' := offs + [ep];
      } else if c == STARCH && !(lastep == -1 || expbuf[lastep] == CBRA || expbuf[lastep] == CKET) {
        Repeat(lastep, st.body, offs);
      } else {
        ep := EmitTwo(ep, CCHR, c, st.body, offs, One(Char(c)));
        offs' := offs + [ep];
      }
    }

    lemma StarableOpcode(st: State, lastep: int, offs: seq<nat>)
      requires StarState(st, lastep, st.body, offs) && st.starable
      requires Layout(st.body, offs, offs[|st.body|])
      ensures 0 <= lastep < expbuf.Length && expbuf[lastep] !in {CBRA, CKET}
    {
      assert ItemAt(expbuf[..], offs[|st.body| - 1], offs[|st.body|], st.body[|st.body| - 1]);
    }

    ghost predicate Brackets(st: State, bracket: array<byte>, bracketp: nat, numbra: nat, closed: nat)
      reads bracket
    {
      && bracket.Length == NBRA && |st.open| == bracketp <= numbra == st.begun <= NBRA && closed == st.closed
      && forall i :: 0 <= i < bracketp ==> bracket[i] == st.open[i]
    }

    method CompileEscape(astr: Text, sp0: nat, ep0: nat, bracket: array<byte>, bracketp0: nat, numbra0: nat, closed0: nat,
                         ghost st: State, ghost offs: seq<nat>)
      returns (ok: bool, sp: nat, ep: nat, bracketp: nat, numbra: nat, closed: nat, ghost st': State, ghost offs': seq<nat>)
      requires 0 < sp0 <= |astr| && astr[sp0 - 1] == BACKSLASH && ep0 < ESIZE && st.Valid()
      requires Layout(st.body, offs, ep0) && Brackets(st, bracket, bracketp0, numbra0, closed0) && bracket != expbuf
      requires !Next(st, Scan(astr[sp0 - 1..]).token).Odd?
      modifies expbuf, bracket
      ensures !ok ==> TokenFails(astr, sp0, st)
      ensures ok ==> TokenDone(astr, sp0, st, sp, st') && st'.Valid()
      ensures ok ==> Layout(st'.body, offs', ep) && StarState(st', ep0, st'.body, offs')
      ensures ok ==> Brackets(st', bracket, bracketp, numbra, closed)
    {
      sp, ep, bracketp, numbra, closed, st', offs' := sp0, ep0, bracketp0, numbra0, closed0, st, offs;
      ghost var p := astr[sp - 1..];
      assert p[0] == BACKSLASH && p[1..] == astr[sp..];
      var c := At(astr, sp);
      if c == 0 {
        ok := false;
        return;
      }
      assert p[1..][0] == c && p[1..][1..] == astr[sp + 1..];
      ghost var it := One(Char(c));
      sp := sp + 1;
      if c == LPAREN {
        if numbra >= NBRA {
          ok := false;
          return;
        }
        it := Open(numbra);
        bracket[bracketp] := numbra;
        bracketp := bracketp + 1;
        ep := EmitTwo(ep, CBRA, numbra, st.body, offs, it);
        numbra := numbra + 1;
      } else if c == RPAREN {
        if bracketp <= 0 {
          ok := false;
          return;
        }
        bracketp := bracketp - 1;
        it := Close(bracket[bracketp]);
        ep := EmitTwo(ep, CKET, bracket[bracketp], st.body, offs, it);
        closed := closed + 1;
      } else if DIGIT1 <= c <= DIGIT9 {
        ok := false;
        return;
      } else {
        ep := EmitTwo(ep, CCHR, c, st.body, offs, it);
      }
      st' := Next(st, Scan(p).token).state;
      offs' := offs + [ep];
      ok := true;
    }

    method CompileToken(astr: Text, sp0: nat, ep0: nat, lastep0: int, bracket: array<byte>, bracketp0: nat, numbra0: nat,
                        closed0: nat, ghost st: State, ghost offs: seq<nat>)
      returns (ok: bool, sp: nat, ep: nat, lastep: int, bracketp: nat, numbra: nat, closed: nat,
               ghost st': State, ghost offs': seq<nat>)
      requires 0 < sp0 <= |astr| && ep0 < ESIZE && st.Valid() && !(astr[sp0 - 1] == DOLLAR && sp0 == |astr|)
      requires Layout(st.body, offs, ep0) && StarState(st, lastep0, st.body, offs)
      requires Brackets(st, bracket, bracketp0, numbra0, closed0) && bracket != expbuf
      requires !Next(st, Scan(astr[sp0 - 1..]).token).Odd?
      modifies expbuf, bracket
      ensures !ok ==> TokenFails(astr, sp0, st)
      ensures ok ==> TokenDone(astr, sp0, st, sp, st') && st'.Valid()
      ensures ok ==> Layout(st'.body, offs', ep) && StarState(st', lastep, st'.body, offs')
      ensures ok ==> Brackets(st', bracket, bracketp, numbra, closed)
    {
      sp, ep, lastep, bracketp, numbra, closed, st', offs' := sp0, ep0, lastep0, bracketp0, numbra0, closed0, st, offs;
      ghost var p := astr[sp - 1..];
      var c := astr[sp - 1];
      assert p[0] == c && p[1..] == astr[sp..];
      if c != STARCH {
        lastep := ep;
      }
      if c == BACKSLASH {
        ok, sp, ep, bracketp, numbra, closed, st', offs' :=
          CompileEscape(astr, sp, ep, bracket, bracketp, numbra, closed, st, offs);
        return;
      }
      if c == LBRACKET {
        ok, sp := EmitClass(astr, sp, ep, st, offs);
        if !ok {
          return;
        }
        ep := ep + 17;
        offs' := offs + [ep];
      } else {
        ep, offs' := EmitPlain(c, ep, lastep, st, offs, p);
        ok := true;
      }
      st' := Next(st, Scan(p).token).state;
    }

    /** The pass of the compiling loop that meets the end of the pattern. */
    method Finish(ep: nat, ghost items: seq<Item>, ghost offs: seq<nat>) returns (ok: bool)
      requires Layout(items, offs, ep)
      modifies `program, `offsets, expbuf
      ensures ok <==> CodeSize(items) < ESIZE
      ensures ok ==> Compiled() && program == items
    {
      ghost var code := expbuf[..];
      LaidSize(code, items, offs);
      if ep >= ESIZE {
        return false;
      }
      expbuf[ep] := CEOF;
      program, offsets := items, offs;
      LaidIsLocal(code, expbuf[..], items, offs);
      forall k | 0 <= k <= |items|
        ensures offsets[k] < ESIZE
      {
        LaidIsMonotonic(expbuf[..], items, offs, k);
      }
      ok := true;
    }

    method Compile(astr: Text) returns (ok: bool)
      requires Fresh() && !Parse(astr).Unmodelled?
      modifies `circf, `program, `offsets, expbuf
      ensures var r := Parse(astr);
        && (ok <==> r.Regex? && CodeSize(Program(r.body, r.atEnd)) < ESIZE)
        && (ok ==> Compiled() && program == Program(r.body, r.atEnd) && (circf != 0 <==> Anchored(astr)))
    {
      var sp := 0;
      if At(astr, sp) == CARET {
        circf := circf + 1;
        sp := sp + 1;
      }
      assert astr[0..] == astr;
      ok := CompileItems(astr, sp);
    }

    /** The compiling loop. */
    method CompileItems(astr: Text, sp0: nat) returns (ok: bool)
      requires expbuf.Length == ESIZE + 1 && forall i :: 0 <= i < expbuf.Length ==> expbuf[i] == 0
      requires sp0 <= |astr| && !ParseItems(astr[sp0..], START).Unmodelled?
      modifies `program, `offsets, expbuf
      ensures var r := ParseItems(astr[sp0..], START);
        && (ok <==> r.Regex? && CodeSize(Program(r.body, r.atEnd)) < ESIZE)
        && (ok ==> Compiled() && program == Program(r.body, r.atEnd))
    {
      var ep: nat, sp: nat, lastep: int := 0, sp0, -1;
      var bracket := new byte[NBRA];
      var bracketp: nat, numbra: nat, closed: nat := 0, 0, 0;
      ghost var r := ParseItems(astr[sp0..], START);
      ghost var st := START;
      ghost var offs: seq<nat> := [0];
      while true
        invariant sp <= |astr| && st.Valid() && Unanchored(st.body) && r == ParseItems(astr[sp..], st)
        invariant Layout(st.body, offs, ep) && StarState(st, lastep, st.body, offs)
        invariant Brackets(st, bracket, bracketp, numbra, closed) && fresh(bracket)
        decreases |astr| - sp
      {
        if ep >= ESIZE {
          TooLong(expbuf[..], offs, astr[sp..], st);
          return false;
        }
        var c := At(astr, sp);
        if c == 0 || (c == DOLLAR && At(astr, sp + 1) == 0) {
          ok := Ended(astr, c, sp, ep, st, offs);
          return;
        }
        ok, sp, ep, lastep, bracketp, numbra, closed, st, offs :=
          Token(astr, sp + 1, ep, lastep, bracket, bracketp, numbra, closed, st, offs, r);
        if !ok {
          return;
        }
      }
    }

    /** The end of the pattern, or a dollar sign before it. */
    method Ended(astr: Text, c: byte, sp: nat, ep0: nat, ghost st: State, ghost offs: seq<nat>) returns (ok: bool)
      requires sp <= |astr| && c == At(astr, sp) && st.Valid() && Layout(st.body, offs, ep0) && ep0 < ESIZE
      requires c == 0 || (c == DOLLAR && At(astr, sp + 1) == 0)
      modifies `program, `offsets, expbuf
      ensures var r := ParseItems(astr[sp..], st);
        && (ok <==> r.Regex? && CodeSize(Program(r.body, r.atEnd)) < ESIZE)
        && (ok ==> Compiled() && program == Program(r.body, r.atEnd))
    {
      if c == 0 {
        assert astr[sp..] == [];
        ok := Finish(ep0, st.body, offs);
      } else {
        assert astr[sp..] == [DOLLAR];
        var ep := EmitOne(ep0, CDOL, st.body, offs, EndOfLine);
        ok := Finish(ep, st.body + [EndOfLine], offs + [ep]);
      }
    }

    /** One token, seen from the loop: what is read so far has the meaning r. */
    method Token(astr: Text, sp0: nat, ep0: nat, lastep0: int, bracket: array<byte>, bracketp0: nat, numbra0: nat,
                 closed0: nat, ghost st: State, ghost offs: seq<nat>, ghost r: Parsed)
      returns (ok: bool, sp: nat, ep: nat, lastep: int, bracketp: nat, numbra: nat, closed: nat,
               ghost st': State, ghost offs': seq<nat>)
      requires 0 < sp0 <= |astr| && ep0 < ESIZE && st.Valid() && Unanchored(st.body)
      requires !(astr[sp0 - 1] == DOLLAR && sp0 == |astr|)
      requires Layout(st.body, offs, ep0) && StarState(st, lastep0, st.body, offs)
      requires Brackets(st, bracket, bracketp0, numbra0, closed0) && bracket != expbuf
      requires !r.Unmodelled? && r == ParseItems(astr[sp0 - 1..], st)
      modifies expbuf, bracket
      ensures !ok ==> r.Regex? ==> CodeSize(Program(r.body, r.atEnd)) >= ESIZE
      ensures ok ==> sp0 <= sp <= |astr| && st'.Valid() && Unanchored(st'.body) && r == ParseItems(astr[sp..], st')
      ensures ok ==> Layout(st'.body, offs', ep) && StarState(st', lastep, st'.body, offs')
      ensures ok ==> Brackets(st', bracket, bracketp, numbra, closed)
    {
      ghost var from := astr[sp0 - 1..];
      assert from[0] == astr[sp0 - 1] && from != [DOLLAR];
      ok, sp, ep, lastep, bracketp, numbra, closed, st', offs' :=
        CompileToken(astr, sp0, ep0, lastep0, bracket, bracketp0, numbra0, closed0, st, offs);
      if ok {
        NextGrows(st, Scan(from).token);
      } else {
        StepTooLong(from, st);
      }
    }

    /** Can the bitmap at ep take the byte? */
    predicate InBitmap(ep: nat, b: byte)
      requires ep + 16 <= expbuf.Length
      reads expbuf
    {
      HasBit(expbuf[ep + b % 128 / 8], b % 128 % 8)
    }

    lemma BitmapTakes(ep: nat, a: Atom, b: byte)
      requires a.Class? && ep + 16 <= expbuf.Length && Bitmap(expbuf[..], ep, a.members)
      ensures InBitmap(ep, b) <==> a.Takes(b)
    {
      assert b % 128 in a.members <==> HasBit(expbuf[..][ep + b % 128 / 8], b % 128 % 8);
    }

    /** while (*lp++); stopping at the end of the line */
    method ScanLine(curlp: nat) returns (lp: nat)
      requires Loaded() && curlp <= |line|
      ensures lp == |line|
    {
      lp := curlp;
      ByteAt(lp);
      while linebuf[lp] != 0
        invariant curlp <= lp <= |line| && (linebuf[lp] == 0 <==> lp == |line|)
        decreases |line| - lp
      {
        lp := lp + 1;
        ByteAt(lp);
      }
    }

    /** while (*lp++ == c); stopping where it is not */
    method ScanChar(curlp: nat, c: byte) returns (lp: nat)
      requires Loaded() && curlp <= |line| && c != 0
      ensures curlp <= lp <= |line| && TakesAll(Char(c), line, curlp, lp) && (lp < |line| ==> line[lp] != c)
    {
      lp := curlp;
      ByteAt(lp);
      while linebuf[lp] == c
        invariant curlp <= lp <= |line| && TakesAll(Char(c), line, curlp, lp)
        invariant (linebuf[lp] == 0 <==> lp == |line|) && (lp < |line| ==> linebuf[lp] == line[lp])
        decreases |line| - lp
      {
        lp := lp + 1;
        ByteAt(lp);
      }
    }

    method ScanBitmap(curlp: nat, ep: nat, ghost a: Atom) returns (lp: nat)
      requires Loaded() && curlp <= |line| && a.Class? && (forall b :: b in a.members ==> 0 < b)
      requires ep + 16 <= expbuf.Length && Bitmap(expbuf[..], ep, a.members)
      ensures curlp <= lp <= |line| && TakesAll(a, line, curlp, lp) && (lp < |line| ==> !a.Takes(line[lp]))
    {
      lp := curlp;
      ByteAt(lp);
      BitmapTakes(ep, a, linebuf[lp]);
      while InBitmap(ep, linebuf[lp])
        invariant curlp <= lp <= |line| && TakesAll(a, line, curlp, lp)
        invariant (linebuf[lp] == 0 <==> lp == |line|) && (lp < |line| ==> linebuf[lp] == line[lp])
        invariant InBitmap(ep, linebuf[lp]) <==> a.Takes(linebuf[lp])
        decreases |line| - lp
      {
        lp := lp + 1;
        ByteAt(lp);
        BitmapTakes(ep, a, linebuf[lp]);
      }
    }

    /** The three scanning loops in front of the label star: runs over everything
        the repeated atom can take, and one byte more. */
    method ScanRun(op: byte, ep: nat, curlp: nat, ghost m: nat) returns (lp: nat)
      requires Compiled() && Loaded() && m < |program| && program[m].Many?
      requires curlp <= |line| && ep == offsets[m] + 1 && op == expbuf[offsets[m]]
      ensures curlp < lp <= |line| + 1 && TakesAll(program[m].atom, line, curlp, lp - 1)
      ensures lp - 1 < |line| ==> !program[m].atom.Takes(line[lp - 1])
    {
      assert ItemAt(expbuf[..], offsets[m], offsets[m + 1], program[m]);
      assert GoodItem(program[m]);
      ghost var a := program[m].atom;
      lp := curlp;
      if op == CDOT + STAR {
        lp := ScanLine(lp);
      } else if op == CCHR + STAR {
        lp := ScanChar(lp, expbuf[ep]);
      } else {
        lp := ScanBitmap(lp, ep, a);
      }
      lp := lp + 1;
    }

    /** The part after the label star: tries the rest of the code from lp down to
        curlp, skipping places where its first character cannot match. */
    method TryBackwards(curlp: nat, top: nat, ep: nat, ghost m: nat) returns (r: bool)
      requires Compiled() && Loaded() && 0 < m <= |program|
      requires curlp <= top <= |line| && ep == offsets[m]
      ensures r <==> MatchesWithin(program, m, line, curlp, top)
      decreases |program| - m, 1
    {
      var lp := top;
      assert m < |program| ==> ItemAt(expbuf[..], offsets[m], offsets[m + 1], program[m]);
      assert forall i :: 0 <= i < |line| ==> linebuf[i] == line[i];
      if expbuf[ep] == CCHR {
        var c := expbuf[ep + 1];
        while true
          invariant curlp <= lp <= top
          invariant forall k: nat :: lp < k <= top ==> !CanMatch(program, m, line, k)
          decreases lp
        {
          ByteAt(lp);
          if m < |program| {
            MatchStep(program, m, line, lp);
          }
          if linebuf[lp] == c {
            r := Advance(lp, ep, m);
            if r {
              return;
            }
          }
          if lp <= curlp {
            return false;
          }
          lp := lp - 1;
        }
      }
      while true
        invariant curlp <= lp <= top
        invariant forall k: nat :: lp < k <= top ==> !CanMatch(program, m, line, k)
        decreases lp
      {
        r := Advance(lp, ep, m);
        if r {
          return;
        }
        if lp <= curlp {
          return false;
        }
        lp := lp - 1;
      }
    }

    /** The opcodes that take one byte of the line, test for its end, or take nothing. */
    method Plain(op: byte, ep0: nat, lp0: nat, ghost m: nat) returns (ok: bool, ep: nat, lp: nat)
      requires Compiled() && Loaded() && m < |program| && lp0 <= |line| && ep0 == offsets[m] + 1
      requires op == expbuf[offsets[m]] && op in {CCHR, CDOT, CDOL, CCL, CBRA, CKET}
      ensures !ok ==> !CanMatch(program, m, line, lp0)
      ensures ok ==> lp <= |line| && ep == offsets[m + 1]
      ensures ok ==> (CanMatch(program, m + 1, line, lp) <==> CanMatch(program, m, line, lp0))
    {
      assert ItemAt(expbuf[..], offsets[m], offsets[m + 1], program[m]);
      assert GoodItem(program[m]);
      ep, lp, ok := ep0, lp0, true;
      ByteAt(lp);
      MatchStep(program, m, line, lp);
      if op == CCHR {
        ok := expbuf[ep] == linebuf[lp];
        ep, lp := ep + 1, lp + 1;
      } else if op == CDOT {
        ok := linebuf[lp] != 0;
        lp := lp + 1;
      } else if op == CDOL {
        ok := linebuf[lp] == 0;
      } else if op == CCL {
        BitmapTakes(ep, program[m].atom, linebuf[lp]);
        ok := InBitmap(ep, linebuf[lp]);
        ep, lp := ep + 16, lp + 1;
      } else {
        ep := ep + 1;
      }
    }

    /** A repetition takes what it can; where it stops, and where the code for the rest begins. */
    method Run(op: byte, ep0: nat, lp: nat, ghost m: nat) returns (top: nat, ep: nat)
      requires Compiled() && Loaded() && m < |program| && program[m].Many? && lp <= |line|
      requires ep0 == offsets[m] + 1 && op == expbuf[offsets[m]]
      ensures lp <= top <= |line| && ep == offsets[m + 1]
      ensures CanMatch(program, m, line, lp) <==> MatchesWithin(program, m + 1, line, lp, top)
    {
      assert ItemAt(expbuf[..], offsets[m], offsets[m + 1], program[m]);
      assert GoodItem(program[m]);
      top := ScanRun(op, ep0, lp, m);
      top := top - 1;
      ManyStops(program, m, line, lp, top);
      ep := if op == CCHR + STAR then ep0 + 1 else if op == CCL + STAR then ep0 + 16 else ep0;
    }

    /** Runs the code from ep on the line from lp. */
    method Advance(lp0: nat, ep0: nat, ghost m0: nat) returns (r: bool)
      requires Compiled() && Loaded() && m0 <= |program|
      requires lp0 <= |line| && ep0 == offsets[m0]
      ensures r <==> CanMatch(program, m0, line, lp0)
      decreases |program| - m0, 0
    {
      var lp: nat, ep: nat := lp0, ep0;
      ghost var m: nat := m0;
      while true
        invariant m0 <= m <= |program| && lp <= |line| && ep == offsets[m]
        invariant CanMatch(program, m, line, lp) <==> CanMatch(program, m0, line, lp0)
        decreases |program| - m
      {
        var op := expbuf[ep];
        ep := ep + 1;
        OpcodeOf(m);
        if op == CEOF {
          assert Spans(program, m, line, lp, lp);
          return true;
        }
        if op in {CCHR, CDOT, CDOL, CCL, CBRA, CKET} {
          var ok;
          ok, ep, lp := Plain(op, ep, lp, m);
          if !ok {
            return false;
          }
        } else {
          var top;
          top, ep := Run(op, ep, lp, m);
          if top != lp {
            r := TryBackwards(lp, top, ep, m + 1);
            return;
          }
        }
        m := m + 1;
      }
    }

    lemma OpcodeOf(m: nat)
      requires Compiled() && m <= |program|
      ensures expbuf[offsets[m]] == CEOF <==> m == |program|
      ensures m < |program| && expbuf[offsets[m]] !in {CCHR, CDOT, CDOL, CCL, CBRA, CKET} ==> program[m].Many?
    {
      if m < |program| {
        assert ItemAt(expbuf[..], offsets[m], offsets[m + 1], program[m]);
        assert GoodItem(program[m]);
      }
    }

    /** What linebuf holds at lp. */
    lemma ByteAt(lp: nat)
      requires Loaded() && lp <= |line|
      ensures linebuf[lp] == 0 <==> lp == |line|
      ensures lp < |line| ==> linebuf[lp] == line[lp]
    {
      if lp < |line| {
        assert linebuf[..|line|][lp] == linebuf[lp] && line[lp] in line;
      }
    }

    /** The decision execute makes about the line in linebuf. */
    method Execute() returns (found: bool)
      requires Compiled() && Loaded()
      ensures found <==> Found(circf != 0, program, line)
    {
      var p1, p2 := 0, 0;
      if circf != 0 {
        found := Advance(p1, p2, 0);
        return;
      }
      if expbuf[p2] == CCHR {
        var c := expbuf[p2 + 1];
        FirstCharacter();
        while true
          invariant p1 <= |line|
          invariant forall k: nat :: k < p1 ==> !CanMatch(program, 0, line, k)
          decreases |line| - p1
        {
          if linebuf[p1] == c {
            found := Advance(p1, p2, 0);
            if found {
              return;
            }
          }
          ByteAt(p1);
          MatchStep(program, 0, line, p1);
          if linebuf[p1] == 0 {
            return false;
          }
          p1 := p1 + 1;
        }
      }
      while true
        invariant p1 <= |line|
        invariant forall k: nat :: k < p1 ==> !CanMatch(program, 0, line, k)
        decreases |line| - p1
      {
        found := Advance(p1, p2, 0);
        if found {
          return;
        }
        ByteAt(p1);
        if linebuf[p1] == 0 {
          return false;
        }
        p1 := p1 + 1;
      }
    }

    lemma FirstCharacter()
      requires Compiled() && expbuf[0] == CCHR
      ensures program != [] && program[0] == One(Char(expbuf[1]))
    {
      if program != [] {
        assert ItemAt(expbuf[..], offsets[0], offsets[1], program[0]);
      }
    }
  }

  /** Code that fills the buffer is too long for any continuation of the pattern. */
  lemma TooLong(code: seq<byte>, offs: seq<nat>, p: Text, st: State)
    requires Laid(code, st.body, offs) && offs[|st.body|] >= ESIZE
    requires st.Valid() && Unanchored(st.body)
    ensures var r := ParseItems(p, st); r.Regex? ==> CodeSize(Program(r.body, r.atEnd)) >= ESIZE
  {
    LaidSize(code, st.body, offs);
    if ParseItems(p, st).Regex? {
      ParseGrows(p, st);
    }
  }

  lemma StepTooLong(p: Text, st: State)
    requires p != [] && p != [DOLLAR] && st.Valid() && Unanchored(st.body)
    requires var r := Next(st, Scan(p).token); r.Bad? || (r.Go? && CodeSize(r.state.body) >= ESIZE)
    ensures var r := ParseItems(p, st); r.Regex? ==> CodeSize(Program(r.body, r.atEnd)) >= ESIZE
  {
    if ParseItems(p, st).Regex? {
      NextGrows(st, Scan(p).token);
      ParseGrows(Scan(p).rest, Next(st, Scan(p).token).state);
    }
  }

  lemma MembersEnd(p: Text, i: nat, prev: Previous, members: set<byte>)
    requires i <= |p|
    ensures At(p, i) == 0 ==> ParseMembers(p[i..], prev, members) == BadClass
    ensures At(p, i) == RBRACKET && prev.Some? ==> i < |p| && ParseMembers(p[i..], prev, members) == Members(members, p[i + 1..])
  {
    if i < |p| {
      assert p[i..][0] == p[i] && p[i..][1..] == p[i + 1..] && p[i] in p;
    }
  }

  /** One step of reading class members, at position i of the pattern. */
  lemma MembersStep(p: Text, i: nat, prev: Previous, members: set<byte>)
    requires i < |p| && (prev.Some? ==> p[i] != RBRACKET)
    requires !ParseMembers(p[i..], prev, members).UnmodelledClass?
    ensures p[i] < 128
    ensures if p[i] == DASH && prev.Some? && At(p, i + 1) != RBRACKET then
              i + 1 < |p| && p[i + 1] < 128 &&
              ParseMembers(p[i..], prev, members)
              == ParseMembers(p[i + 2..], Some(p[i + 1]), members + RangeMembers(prev.b, p[i + 1]))
            else
              ParseMembers(p[i..], prev, members) == ParseMembers(p[i + 1..], Some(p[i]), members + {p[i]})
  {
    var q := p[i..];
    assert q[0] == p[i] && q[1..] == p[i + 1..];
    if |q| > 1 {
      assert q[1] == p[i + 1] && q[2..] == p[i + 2..];
    }
  }
}
