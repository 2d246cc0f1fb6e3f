/** cron: the table of what to run when, as it is written in crontab and as it is encoded in memory. */
module Crontab {
  import opened Common

  const EXACT: byte := 123
  const ANY: byte := 124
  const LIST: byte := 125
  const RANGE: byte := 126
  const EOS: byte := 127

  const FIELDS: nat := 5

  datatype Field =
    | Any
    | Exact(n: byte)
    | OneOf(ns: seq<byte>)
    | Range(lo: byte, hi: byte)

  /** A range whose ends are the wrong way round, or equal, wraps around. */
  predicate Holds(f: Field, v: byte) {
    match f
    case Any => true
    case Exact(n) => v == n
    case OneOf(ns) => v in ns
    case Range(lo, hi) => if lo < hi then lo <= v <= hi else v >= lo || v <= hi
  }

  /** In whatever field, numbers are less than a hundred, and so not taken for a code. */
  predicate Small(f: Field) {
    match f
    case Any => true
    case Exact(n) => n < 100
    case OneOf(ns) => ns != [] && forall n :: n in ns ==> n < 100
    case Range(lo, hi) => lo < 100 && hi < 100
  }

  type Code = f: Field | Small(f) witness Any

  function Encoded(f: Code): (code: seq<byte>)
    ensures |code| > 0 && code[0] != EOS
  {
    match f
    case Any => [ANY]
    case Exact(n) => [EXACT, n]
    case OneOf(ns) => [LIST] + ns + [LIST]
    case Range(lo, hi) => [RANGE, lo, hi]
  }

  datatype Line = Line(fields: seq<Code>, command: Text)

  type Entry = e: Line | |e.fields| == FIELDS witness Line([Any, Any, Any, Any, Any], [])

  function FieldsFrom(fs: seq<Code>, k: nat): seq<byte>
    requires k <= |fs|
    decreases |fs| - k
  {
    if k == |fs| then [] else Encoded(fs[k]) + FieldsFrom(fs, k + 1)
  }

  function EncodedEntry(e: Entry): seq<byte> {
    FieldsFrom(e.fields, 0) + (e.command + [0])
  }

  function Entries(es: seq<Entry>): seq<byte> {
    if es == [] then [] else EncodedEntry(es[0]) + Entries(es[1..])
  }

  /** list: the entries, and the end twice. */
  function EncodedList(es: seq<Entry>): seq<byte> {
    Entries(es) + [EOS, EOS]
  }

  /** Minute, hour, day of the month, month, day of the week. */
  datatype Tm = Tm(min: byte, hour: byte, mday: byte, mon: byte, wday: byte)

  predicate Due(e: Entry, t: Tm) {
    && Holds(e.fields[0], t.min) && Holds(e.fields[1], t.hour) && Holds(e.fields[2], t.mday)
    && Holds(e.fields[3], t.mon) && Holds(e.fields[4], t.wday)
  }

  // ---- Reading the encoded list ----

  /** These bytes stand at list[p]. */
  predicate BytesAt(list: seq<byte>, p: nat, bs: seq<byte>) {
    p + |bs| <= |list| && list[p..p + |bs|] == bs
  }

  lemma ByteAt(list: seq<byte>, p: nat, bs: seq<byte>, k: nat)
    requires BytesAt(list, p, bs) && k < |bs|
    ensures list[p + k] == bs[k]
  {
    assert list[p..p + |bs|][k] == list[p + k];
  }

  lemma Split(list: seq<byte>, p: nat, a: seq<byte>, b: seq<byte>)
    requires BytesAt(list, p, a + b)
    ensures BytesAt(list, p, a) && BytesAt(list, p + |a|, b)
  {
    var all := a + b;
    assert all[..|a|] == a && all[|a|..] == b;
    assert list[p..p + |all|][..|a|] == list[p..p + |a|];
    assert list[p..p + |all|][|a|..] == list[p + |a|..p + |all|];
  }

  ghost predicate FieldAt(list: seq<byte>, p: nat, f: Code) {
    BytesAt(list, p, Encoded(f))
  }

  /** cmp: decides one field, and finds where the next one begins. */
  method Cmp(list: seq<byte>, p: nat, v: byte, ghost f: Code) returns (next: nat, ok: bool)
    requires FieldAt(list, p, f)
    ensures next == p + |Encoded(f)| && (ok <==> Holds(f, v))
  {
    ghost var code := Encoded(f);
    assert forall k :: 0 <= k < |code| ==> list[p + k] == code[k];
    var c := list[p];
    assert c == code[0];
    var cp := p + 1;
    if c == EXACT {
      assert list[p + 1] == code[1];
      return cp + 1, list[cp] == v;
    }
    if c == ANY {
      return cp, true;
    }
    if c == LIST {
      next, ok := CmpList(list, p, v, f);
      return;
    }
    assert c == RANGE && list[p + 1] == code[1] && list[p + 2] == code[2];
    if list[cp] < list[cp + 1] {
      ok := list[cp] <= v <= list[cp + 1];
    } else {
      ok := v >= list[cp] || v <= list[cp + 1];
    }
    next := cp + 2;
  }

  lemma ListEncoded(f: Code)
    requires f.OneOf?
    ensures Encoded(f) == [LIST] + (f.ns + [LIST]) && LIST !in f.ns
  {
  }

  /** A list begins with the code, ends with it, and holds its numbers between. */
  lemma ListCode(list: seq<byte>, p: nat, f: Code, end: nat)
    requires f.OneOf? && FieldAt(list, p, f) && end == p + 1 + |f.ns|
    ensures end < |list| && list[end] == LIST && list[p + 1..end] == f.ns && LIST !in f.ns
    ensures |Encoded(f)| == |f.ns| + 2
  {
    ListEncoded(f);
    Split(list, p, [LIST], f.ns + [LIST]);
    Split(list, p + 1, f.ns, [LIST]);
    ByteAt(list, end, [LIST], 0);
  }

  /** The loops over a list: until the value is found, and then on to its end. */
  method CmpList(list: seq<byte>, p: nat, v: byte, ghost f: Code) returns (next: nat, ok: bool)
    requires FieldAt(list, p, f) && f.OneOf?
    ensures next == p + |Encoded(f)| && (ok <==> Holds(f, v))
  {
    ghost var end: nat := p + 1 + |f.ns|;
    ListCode(list, p, f, end);
    next, ok := FindInList(list, p + 1, v, end);
    if ok {
      assert forall b :: b in list[next..end] ==> b in list[p + 1..end];
      next := PastList(list, next, end);
    }
  }

  /** while (*cp != LIST) if (*cp++ == v) ... */
  method FindInList(list: seq<byte>, from: nat, v: byte, ghost end: nat) returns (cp: nat, found: bool)
    requires from <= end < |list| && list[end] == LIST && LIST !in list[from..end]
    ensures found <==> v in list[from..end]
    ensures from <= cp && if found then cp <= end else cp == end + 1
  {
    cp := from;
    while list[cp] != LIST
      invariant from <= cp <= end && v !in list[from..cp]
      decreases end - cp
    {
      Inside(list, from, cp, end);
      if list[cp] == v {
        return cp + 1, true;
      }
      cp := cp + 1;
    }
    if cp < end {
      Inside(list, from, cp, end);
    }
    return cp + 1, false;
  }

  lemma Inside(list: seq<byte>, from: nat, cp: nat, end: nat)
    requires from <= cp < end < |list|
    ensures list[cp] in list[from..end] && list[from..cp + 1] == list[from..cp] + [list[cp]]
  {
    assert list[from..end][cp - from] == list[cp];
  }

  /** while (*cp++ != LIST); */
  method PastList(list: seq<byte>, from: nat, ghost end: nat) returns (cp: nat)
    requires from <= end < |list| && list[end] == LIST && LIST !in list[from..end]
    ensures cp == end + 1
  {
    cp := from;
    while list[cp] != LIST
      invariant from <= cp <= end
      decreases end - cp
    {
      cp := cp + 1;
    }
    if cp < end {
      Inside(list, from, cp, end);
    }
    cp := cp + 1;
  }

  // ---- Entries ----

  /** From field k of an entry to the next. */
  lemma NextField(list: seq<byte>, p: nat, fs: seq<Code>, k: nat)
    requires k < |fs| && BytesAt(list, p, FieldsFrom(fs, k))
    ensures FieldAt(list, p, fs[k]) && BytesAt(list, p + |Encoded(fs[k])|, FieldsFrom(fs, k + 1))
    ensures |FieldsFrom(fs, k)| == |Encoded(fs[k])| + |FieldsFrom(fs, k + 1)|
  {
    Split(list, p, Encoded(fs[k]), FieldsFrom(fs, k + 1));
  }

  /** match: decides an entry, and leaves the cursor at its command. */
  method Match(list: seq<byte>, p: nat, t: Tm, ghost e: Entry) returns (cp: nat, ok: bool)
    requires BytesAt(list, p, EncodedEntry(e))
    ensures cp == p + |FieldsFrom(e.fields, 0)| && (ok <==> Due(e, t))
  {
    ghost var fs := e.fields;
    var ok0, ok1, ok2, ok3, ok4;
    Split(list, p, FieldsFrom(fs, 0), e.command + [0]);
    ghost var k: nat := 0;
    cp, ok0, k := OneField(list, p, t.min, fs, k);
    cp, ok1, k := OneField(list, cp, t.hour, fs, k);
    cp, ok2, k := OneField(list, cp, t.mday, fs, k);
    cp, ok3, k := OneField(list, cp, t.mon, fs, k);
    cp, ok4, k := OneField(list, cp, t.wday, fs, k);
    ok := ok0 && ok1 && ok2 && ok3 && ok4;
  }

  method OneField(list: seq<byte>, p: nat, v: byte, ghost fs: seq<Code>, ghost k: nat)
    returns (cp: nat, ok: bool, ghost k': nat)
    requires k < |fs| && BytesAt(list, p, FieldsFrom(fs, k))
    ensures k' == k + 1 && BytesAt(list, cp, FieldsFrom(fs, k')) && cp + |FieldsFrom(fs, k')| == p + |FieldsFrom(fs, k)|
    ensures ok <==> Holds(fs[k], v)
  {
    NextField(list, p, fs, k);
    cp, ok := Cmp(list, p, v, fs[k]);
    k' := k + 1;
  }

  /** What follows the fields of an entry. */
  lemma CommandPlace(list: seq<byte>, p: nat, e: Entry)
    requires BytesAt(list, p, EncodedEntry(e))
    ensures var cp := p + |FieldsFrom(e.fields, 0)|;
      && cp + |e.command| + 1 == p + |EncodedEntry(e)| <= |list|
      && list[cp..cp + |e.command|] == e.command
      && list[cp + |e.command|] == 0 && forall k :: cp <= k < cp + |e.command| ==> list[k] != 0
  {
    var cp, c := p + |FieldsFrom(e.fields, 0)|, e.command;
    Split(list, p, FieldsFrom(e.fields, 0), c + [0]);
    Split(list, cp, c, [0]);
    ByteAt(list, cp + |c|, [0], 0);
    forall k | cp <= k < cp + |c|
      ensures list[k] != 0
    {
      ByteAt(list, cp, c, k - cp);
      assert c[k - cp] in c;
    }
  }

  /** The string at list[cp], and where the next entry begins. */
  method Command(list: seq<byte>, cp: nat, ghost p: nat, ghost e: Entry) returns (s: seq<byte>, next: nat)
    requires BytesAt(list, p, EncodedEntry(e)) && cp == p + |FieldsFrom(e.fields, 0)|
    ensures s == e.command && next == p + |EncodedEntry(e)|
  {
    CommandPlace(list, p, e);
    next := cp;
    while list[next] != 0
      invariant cp <= next <= cp + |e.command|
      decreases cp + |e.command| - next
    {
      next := next + 1;
    }
    s := list[cp..next];
    next := next + 1;
  }

  // ---- The whole list ----

  /** The commands of the entries that are due, in the order of the table. */
  function DueCommands(es: seq<Entry>, t: Tm): seq<Text> {
    if es == [] then []
    else
      var last := es[|es| - 1];
      DueCommands(es[..|es| - 1], t) + if Due(last, t) then [last.command] else []
  }

  predicate AnyDue(es: seq<Entry>, t: Tm) {
    exists k :: 0 <= k < |es| && Due(es[k], t)
  }

  lemma DueNext(es: seq<Entry>, k: nat, t: Tm)
    requires k < |es|
    ensures DueCommands(es[..k + 1], t) == DueCommands(es[..k], t) + if Due(es[k], t) then [es[k].command] else []
  {
    assert es[..k + 1][..k] == es[..k];
  }

  /** Something is run exactly when something is due. */
  lemma {:induction false} RunsWhatIsDue(es: seq<Entry>, t: Tm)
    ensures DueCommands(es, t) != [] <==> AnyDue(es, t)
  {
    if es != [] {
      var front, last := es[..|es| - 1], es[|es| - 1];
      RunsWhatIsDue(front, t);
      if AnyDue(es, t) && !Due(last, t) {
        var k :| 0 <= k < |es| && Due(es[k], t);
        assert front[k] == es[k];
      }
      if AnyDue(front, t) {
        var k :| 0 <= k < |front| && Due(front[k], t);
        assert es[k] == front[k];
      }
    }
  }

  /** The cursor is at entry k of the list. */
  ghost predicate EntryAt(list: seq<byte>, cp: nat, es: seq<Entry>, k: nat) {
    k <= |es| && BytesAt(list, cp, Entries(es[k..]) + [EOS, EOS])
  }

  lemma NextEntry(list: seq<byte>, cp: nat, es: seq<Entry>, k: nat)
    requires EntryAt(list, cp, es, k)
    ensures cp < |list| && (list[cp] == EOS <==> k == |es|)
    ensures k < |es| ==> BytesAt(list, cp, EncodedEntry(es[k])) && EntryAt(list, cp + |EncodedEntry(es[k])|, es, k + 1)
  {
    var all := Entries(es[k..]) + [EOS, EOS];
    ByteAt(list, cp, all, 0);
    if k < |es| {
      assert es[k..][1..] == es[k + 1..];
      var rest := Entries(es[k + 1..]) + [EOS, EOS];
      assert all == EncodedEntry(es[k]) + rest;
      Split(list, cp, EncodedEntry(es[k]), rest);
      assert all[0] == Encoded(es[k].fields[0])[0];
    }
  }

  lemma ListBegins(es: seq<Entry>)
    ensures EntryAt(EncodedList(es), 0, es, 0)
  {
    assert es[0..] == es;
    assert EncodedList(es)[0..0 + |EncodedList(es)|] == EncodedList(es);
  }

  /** One entry: whether it is due, its command, and where the next one begins. */
  method AtEntry(list: seq<byte>, p: nat, t: Tm, ghost es: seq<Entry>, ghost k: nat) returns (ok: bool, s: seq<byte>, cp: nat)
    requires EntryAt(list, p, es, k) && k < |es|
    ensures EntryAt(list, cp, es, k + 1) && cp < |list| && (list[cp] == EOS <==> k + 1 == |es|)
    ensures (ok <==> Due(es[k], t)) && s == es[k].command
  {
    NextEntry(list, p, es, k);
    cp, ok := Match(list, p, t, es[k]);
    s, cp := Command(list, cp, p, es[k]);
    NextEntry(list, cp, es, k + 1);
  }

  /** runmatches: the commands that are run at a time. */
  method RunMatches(list: seq<byte>, t: Tm, ghost es: seq<Entry>) returns (log: seq<seq<byte>>)
    requires list == EncodedList(es)
    ensures log == DueCommands(es, t)
  {
    log := [];
    var cp: nat := 0;
    ghost var k: nat := 0;
    ListBegins(es);
    NextEntry(list, cp, es, k);
    while list[cp] != EOS
      invariant EntryAt(list, cp, es, k) && cp < |list| && (list[cp] == EOS <==> k == |es|)
      invariant log == DueCommands(es[..k], t)
      decreases |es| - k
    {
      var ok, s;
      ok, s, cp := AtEntry(list, cp, t, es, k);
      DueNext(es, k, t);
      if ok {
        log := log + [s];
      }
      k := k + 1;
    }
    assert es[..k] == es;
  }

  /** The inner loop of figureeventwait: is anything due at a time? */
  method FindDue(list: seq<byte>, t: Tm, ghost es: seq<Entry>) returns (found: bool)
    requires list == EncodedList(es)
    ensures found <==> AnyDue(es, t)
  {
    var cp: nat := 0;
    ghost var k: nat := 0;
    ListBegins(es);
    NextEntry(list, cp, es, k);
    while list[cp] != EOS
      invariant EntryAt(list, cp, es, k) && cp < |list| && (list[cp] == EOS <==> k == |es|)
      invariant DueCommands(es[..k], t) == []
      decreases |es| - k
    {
      var s;
      found, s, cp := AtEntry(list, cp, t, es, k);
      if found {
        return;
      }
      DueNext(es, k, t);
      k := k + 1;
    }
    assert es[..k] == es;
    RunsWhatIsDue(es, t);
    found := false;
  }
}
