/** Whole editing runs over the line store: any interleaving of storing and
    fetching behaves like a table from addresses to lines. */
module LineStoreRuns {
  import opened Common
  import opened LineStore

  datatype Request = Put(line: seq<byte>) | Get(addr: nat)
  datatype Reply = Stored(addr: nat) | TmpError | Fetched(line: seq<byte>)

  /** The simple form: the next address and a table of lines. */
  datatype Table = Table(next: nat, lines: map<nat, seq<byte>>) {
    /** Put hands out the next address unless the line would reach block 255. */
    function Step(r: Request): (Table, Reply)
      requires Legal(r)
    {
      match r
      case Put(line) =>
        if (Position(next) + |line|) / BLOCK < LASTBLOCK then
          (Table(next + Units(|line| + 1), lines[next := line]), Stored(next))
        else (this, TmpError)
      case Get(addr) => (this, Fetched(lines[addr - addr % 2]))
    }

    /** Only addresses that were handed out are fetched, marked or not. */
    predicate Legal(r: Request) {
      match r
      case Put(line) => |line| < LBSIZE && 0 !in line && NEWLINE !in line
      case Get(addr) => addr - addr % 2 in lines
    }

    predicate LegalRun(rs: seq<Request>)
      decreases |rs|
    {
      rs != [] ==> Legal(rs[0]) && Step(rs[0]).0.LegalRun(rs[1..])
    }

    function Replies(rs: seq<Request>): (replies: seq<Reply>)
      requires LegalRun(rs)
      ensures |replies| == |rs|
      decreases |rs|
    {
      if rs == [] then [] else [Step(rs[0]).1] + Step(rs[0]).0.Replies(rs[1..])
    }
  }

  method LoadLine(ls: LineStore, line: seq<byte>)
    requires ls.Valid() && |line| < LBSIZE && 0 !in line && NEWLINE !in line
    modifies ls.linebuf
    ensures ls.Valid() && ls.LineInBuffer(|line|) && ls.linebuf[..|line|] == line && ls.linebuf[|line|] == 0
  {
    var i := 0;
    while i < |line|
      invariant i <= |line| && ls.linebuf[..i] == line[..i]
    {
      ls.linebuf[i] := line[i];
      i := i + 1;
    }
    ls.linebuf[i] := 0;
    assert ls.linebuf[..|line|] == line;
    forall k | 0 <= k < |line|
      ensures ls.linebuf[k] != 0 && ls.linebuf[k] != NEWLINE
    {
      assert ls.linebuf[..|line|][k] == line[k] && line[k] in line;
    }
  }

  method ReadLine(ls: LineStore, ghost s: seq<byte>) returns (line: seq<byte>)
    requires |s| < ls.linebuf.Length && ls.linebuf[..|s|] == s && ls.linebuf[|s|] == 0 && 0 !in s
    ensures line == s
  {
    var i := 0;
    assert forall k :: 0 <= k < |s| ==> ls.linebuf[..|s|][k] == s[k] && s[k] in s;
    while ls.linebuf[i] != 0
      invariant i <= |s|
      decreases |s| - i
    {
      i := i + 1;
    }
    line := ls.linebuf[..i];
  }

  method ServePut(ls: LineStore, line: seq<byte>) returns (reply: Reply)
    requires ls.Valid() && Table(ls.tline, ls.stored).Legal(Put(line))
    modifies ls, ls.ibuff, ls.obuff, ls.linebuf
    ensures ls.Valid()
    ensures (Table(ls.tline, ls.stored), reply) == old(Table(ls.tline, ls.stored)).Step(Put(line))
  {
    ghost var t := Table(ls.tline, ls.stored);
    LoadLine(ls, line);
    var ok, addr := ls.PutLine(|line|);
    reply := if ok then Stored(addr) else TmpError;
    PutStep(t, line, ok, addr, Table(ls.tline, ls.stored), reply);
  }

  lemma PutStep(t: Table, line: seq<byte>, ok: bool, addr: nat, t': Table, reply: Reply)
    requires t.Legal(Put(line)) && (ok <==> (Position(t.next) + |line|) / BLOCK < LASTBLOCK)
    requires ok ==> addr == t.next && t'.next == addr + Units(|line| + 1) && t'.lines == t.lines[addr := line]
    requires !ok ==> t' == t
    requires reply == if ok then Stored(addr) else TmpError
    ensures t.Step(Put(line)) == (t', reply)
  {
  }

  method ServeGet(ls: LineStore, addr: nat) returns (reply: Reply)
    requires ls.Valid() && Table(ls.tline, ls.stored).Legal(Get(addr))
    modifies ls, ls.ibuff, ls.obuff, ls.linebuf
    ensures ls.Valid()
    ensures (Table(ls.tline, ls.stored), reply) == old(Table(ls.tline, ls.stored)).Step(Get(addr))
  {
    ls.GetLine(addr);
    var line := ReadLine(ls, ls.stored[addr - addr % 2]);
    reply := Fetched(line);
  }

  /** One request to the store answers as the table does. */
  method Serve(ls: LineStore, r: Request) returns (reply: Reply)
    requires ls.Valid() && Table(ls.tline, ls.stored).Legal(r)
    modifies ls, ls.ibuff, ls.obuff, ls.linebuf
    ensures ls.Valid()
    ensures (Table(ls.tline, ls.stored), reply) == old(Table(ls.tline, ls.stored)).Step(r)
  {
    match r
    case Put(line) => reply := ServePut(ls, line);
    case Get(addr) => reply := ServeGet(ls, addr);
  }

  lemma FirstReply(t: Table, rs: seq<Request>, k: nat)
    requires k < |rs| && t.LegalRun(rs[k..])
    ensures t.Legal(rs[k]) && t.Step(rs[k]).0.LegalRun(rs[k + 1..])
    ensures t.Replies(rs[k..]) == [t.Step(rs[k]).1] + t.Step(rs[k]).0.Replies(rs[k + 1..])
  {
    assert rs[k..][0] == rs[k] && rs[k..][1..] == rs[k + 1..];
  }

  /** A whole run from an empty store. */
  method Run(rs: seq<Request>) returns (replies: seq<Reply>)
    requires Table(2, map[]).LegalRun(rs)
    ensures replies == Table(2, map[]).Replies(rs)
  {
    var ls := new LineStore();
    ghost var t := Table(2, map[]);
    replies := [];
    var k := 0;
    while k < |rs|
      invariant k <= |rs| && ls.Valid() && t == Table(ls.tline, ls.stored)
      invariant fresh(ls) && fresh(ls.ibuff) && fresh(ls.obuff) && fresh(ls.linebuf)
      invariant t.LegalRun(rs[k..])
      invariant replies + t.Replies(rs[k..]) == Table(2, map[]).Replies(rs)
    {
      var reply;
      FirstReply(t, rs, k);
      reply := Serve(ls, rs[k]);
      t := Table(ls.tline, ls.stored);
      replies := replies + [reply];
      k := k + 1;
    }
  }

  /** Fetching after any further run gives back what was put, whatever the mark. */
  lemma {:induction false} TableKeeps(t: Table, rs: seq<Request>, addr: nat)
    requires t.LegalRun(rs) && t.next % 2 == 0 && addr in t.lines
    requires forall a <- t.lines :: a < t.next
    ensures var t' := After(t, rs); addr in t'.lines && t'.lines[addr] == t.lines[addr]
    decreases |rs|
  {
    if rs != [] {
      if rs[0].Put? {
        UnitsCover(|rs[0].line| + 1);
      }
      TableKeeps(t.Step(rs[0]).0, rs[1..], addr);
    }
  }

  function After(t: Table, rs: seq<Request>): Table
    requires t.LegalRun(rs)
    decreases |rs|
  {
    if rs == [] then t else After(t.Step(rs[0]).0, rs[1..])
  }

  /** Put then, after anything else, Get: the line comes back. */
  lemma PutThenGet(t: Table, line: seq<byte>, rs: seq<Request>, mark: nat)
    requires t.next % 2 == 0 && (forall a <- t.lines :: a < t.next) && mark < 2
    requires t.Legal(Put(line)) && t.Step(Put(line)).1.Stored?
    requires t.Step(Put(line)).0.LegalRun(rs)
    ensures var t' := After(t.Step(Put(line)).0, rs);
      t'.Legal(Get(t.next + mark)) && t'.Step(Get(t.next + mark)).1 == Fetched(line)
  {
    UnitsCover(|line| + 1);
    TableKeeps(t.Step(Put(line)).0, rs, t.next);
  }

  /** When there is room for a line, and what the table is then: its characters and a NUL, each line beginning at a multiple of four. */
  lemma PutExactly(t: Table, line: seq<byte>)
    requires t.Legal(Put(line)) && t.next % 2 == 0
    ensures var (t', reply) := t.Step(Put(line));
      if 2 * t.next + |line| < 130560
      then && reply == Stored(t.next) && t'.next % 2 == 0
           && 2 * t.next + |line| + 1 <= 2 * t'.next <= 2 * t.next + |line| + 4
           && t.next in t'.lines && t'.lines[t.next] == line
           && forall a :: a != t.next ==> (a in t'.lines <==> a in t.lines) && (a in t.lines ==> t'.lines[a] == t.lines[a])
      else reply == TmpError && t' == t
  {
    UnitsCover(|line| + 1);
  }

  /** Lines that take less than the room there is are all stored. */
  lemma {:induction false} RoomForAll(t: Table, lines: seq<seq<byte>>)
    requires t.next % 2 == 0 && (forall k :: 0 <= k < |lines| ==> t.Legal(Put(lines[k])))
    requires 2 * t.next + Room(lines) < 130560
    ensures t.LegalRun(Puts(lines)) && forall k :: 0 <= k < |lines| ==> t.Replies(Puts(lines))[k].Stored?
    decreases |lines|
  {
    if lines != [] {
      PutExactly(t, lines[0]);
      var t' := t.Step(Put(lines[0])).0;
      assert forall k :: 0 <= k < |lines[1..]| ==> lines[1..][k] == lines[k + 1];
      RoomForAll(t', lines[1..]);
      assert Puts(lines)[0] == Put(lines[0]) && Puts(lines)[1..] == Puts(lines[1..]);
      var later := t'.Replies(Puts(lines[1..]));
      assert t.Replies(Puts(lines)) == [Stored(t.next)] + later;
    }
  }

  function Puts(lines: seq<seq<byte>>): (rs: seq<Request>)
    ensures |rs| == |lines|
  {
    seq(|lines|, k requires 0 <= k < |lines| => Put(lines[k]))
  }

  function Room(lines: seq<seq<byte>>): nat {
    if lines == [] then 0 else |lines[0]| + 4 + Room(lines[1..])
  }
}
