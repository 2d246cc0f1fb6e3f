/** cron: reading crontab into the encoded list. */
module CrontabReader {
  import opened Common
  import opened Crontab

  const NL: int := 10
  const EOF: int := -1
  const SPACE: int := 32
  const TAB: int := 9
  const STAR: int := 42
  const COMMA: int := 44
  const DASH: int := 45
  const PERCENT: byte := 37
  const DIGIT0: int := 48
  const DIGIT9: int := 57

  /** lorange and hirange: minute, hour, day of the month, month, day of the week. */
  function Lowest(i: nat): nat {
    if i < 2 then 0 else 1
  }

  function Highest(i: nat): nat {
    if i == 0 then 59 else if i == 1 then 23 else if i == 2 then 31 else if i == 3 then 12 else 7
  }

  /** What getchar gives at i. */
  function Char(text: Text, i: nat): (c: int)
    ensures c == EOF <==> i >= |text|
    ensures c != 0
  {
    if i < |text| then (assert text[i] in text; text[i]) else EOF
  }

  predicate Blank(c: int) {
    c == SPACE || c == TAB
  }

  predicate Ends(c: int) {
    c == NL || c == EOF
  }

  /** Where the line ends that i is in: at its newline, or at the end of the text. */
  function LineEnd(text: Text, i: nat): (e: nat)
    requires i <= |text|
    ensures i <= e <= |text| && Ends(Char(text, e))
    decreases |text| - i
  {
    if Ends(Char(text, i)) then i else LineEnd(text, i + 1)
  }

  /** Before the end of a line it is the same line. */
  lemma {:induction false} SameEnd(text: Text, i: nat, j: nat)
    requires i <= j <= |text| && j <= LineEnd(text, i)
    ensures LineEnd(text, j) == LineEnd(text, i)
    decreases j - i
  {
    if i < j {
      SameEnd(text, i + 1, j);
    }
  }

  function SkipBlanks(text: Text, i: nat): (j: nat)
    requires i <= |text|
    ensures i <= j <= LineEnd(text, i) && !Blank(Char(text, j))
    decreases |text| - i
  {
    if Blank(Char(text, i)) then SkipBlanks(text, i + 1) else i
  }

  /** A number, perhaps without any digits, and where it ends. */
  datatype Numeral = Numeral(n: nat, next: nat)

  function Digits(text: Text, i: nat, n: nat): (r: Numeral)
    requires i <= |text|
    ensures i <= r.next <= LineEnd(text, i)
    decreases |text| - i
  {
    if DIGIT0 <= Char(text, i) <= DIGIT9 then Digits(text, i + 1, n * 10 + Char(text, i) - DIGIT0)
    else Numeral(n, i)
  }

  datatype Found<+T> = Good(value: T, next: nat) | Bad

  predicate InRange(n: nat, k: nat) {
    Lowest(k) <= n <= Highest(k)
  }

  /** The rest of a list of numbers, from a comma at j on. */
  function ParseList(text: Text, j: nat, k: nat, ns: seq<byte>): (r: Found<Code>)
    requires j < |text| && text[j] == COMMA && k < FIELDS && forall n :: n in ns ==> n < 100
    ensures r.Good? ==> j < r.next <= LineEnd(text, j)
    decreases |text| - j
  {
    var d := Digits(text, j + 1, 0);
    SameEnd(text, j + 1, d.next);
    if !InRange(d.n, k) then Bad
    else
      var c := Char(text, d.next);
      if c == COMMA then ParseList(text, d.next, k, ns + [d.n])
      else if Blank(c) then Good(OneOf(ns + [d.n]), d.next + 1)
      else Bad
  }

  /** Field k, which begins at i. */
  function ParseField(text: Text, i: nat, k: nat): (r: Found<Code>)
    requires i < |text| && text[i] != NL && k < FIELDS
    ensures r.Good? ==> i < r.next <= LineEnd(text, i)
  {
    if Char(text, i) == STAR then Good(Any, i + 1)
    else
      var d := Digits(text, i, 0);
      SameEnd(text, i, d.next);
      if !InRange(d.n, k) then Bad
      else
        var c := Char(text, d.next);
        if c == COMMA then ParseList(text, d.next, k, [d.n])
        else if c == DASH then ParseRange(text, d.next, k, d.n)
        else if Blank(c) then Good(Exact(d.n), d.next + 1)
        else Bad
  }

  /** The other end of a range, from a dash at j on. */
  function ParseRange(text: Text, j: nat, k: nat, n: byte): (r: Found<Code>)
    requires j < |text| && text[j] == DASH && k < FIELDS && n < 100
    ensures r.Good? ==> j < r.next <= LineEnd(text, j)
  {
    var d := Digits(text, j + 1, 0);
    SameEnd(text, j + 1, d.next);
    if InRange(d.n, k) && Blank(Char(text, d.next)) then Good(Range(n, d.n), d.next + 1) else Bad
  }

  /** The fields from k on, and where the command begins. */
  function ParseFields(text: Text, i: nat, k: nat, fs: seq<Code>): (r: Found<seq<Code>>)
    requires i <= |text| && k == |fs| <= FIELDS
    ensures r.Good? ==> |r.value| == FIELDS && i <= r.next < |text| && r.next < LineEnd(text, i)
    decreases |text| - i
  {
    var j := SkipBlanks(text, i);
    SameEnd(text, i, j);
    if Ends(Char(text, j)) then Bad
    else if k == FIELDS then Good(fs, j)
    else
      match ParseField(text, j, k)
      case Good(f, next) => SameEnd(text, j, next); ParseFields(text, next, k + 1, fs + [f])
      case Bad => Bad
  }

  const HERE: Text := [60, 60, 32, 95, 95, 71, 78, 79, 77, 69, 95, 95]         // << __GNOME__
  const THERE: Text := [95, 95, 71, 78, 79, 77, 69, 95, 95, 10]                // __GNOME__ and a newline

  /** A command, up to its k-th byte: a percent sign is a newline, and the first one begins the
      command's input. */
  function Body(raw: Text, k: nat): (s: Text)
    requires k <= |raw|
  {
    if k == 0 then []
    else
      assert raw[k - 1] in raw;
      Body(raw, k - 1) +
        if raw[k - 1] != PERCENT then [raw[k - 1]]
        else if PERCENT in raw[..k - 1] then [10]
        else HERE + [10]
  }

  function CommandOf(raw: Text): Text {
    Body(raw, |raw|) + [10] + if PERCENT in raw then THERE else []
  }

  datatype OnLine = Some(entry: Entry) | Nothing

  /** The entry on the line that begins at i, if there is one. */
  function ParseLine(text: Text, i: nat): OnLine
    requires i <= |text|
  {
    match ParseFields(text, i, 0, [])
    case Bad => Nothing
    case Good(fs, j) => Some(Line(fs, CommandOf(Raw(text, j))))
  }

  function Raw(text: Text, j: nat): Text
    requires j <= |text|
  {
    assert forall b :: b in text[j..LineEnd(text, j)] ==> b in text;
    text[j..LineEnd(text, j)]
  }

  /** The lines from i on; a last one without a newline does not count. */
  function LinesFrom(text: Text, i: nat): seq<OnLine>
    requires i <= |text|
    decreases |text| - i
  {
    var e := LineEnd(text, i);
    if e == |text| then [] else [ParseLine(text, i)] + LinesFrom(text, e + 1)
  }

  function EntriesOn(lines: seq<OnLine>): seq<Entry> {
    if lines == [] then []
    else (if lines[0].Some? then [lines[0].entry] else []) + EntriesOn(lines[1..])
  }

  /** The table a crontab stands for. */
  function Table(text: Text): seq<Entry> {
    EntriesOn(LinesFrom(text, 0))
  }

  function LineCode(l: OnLine): seq<byte> {
    if l.Some? then EncodedEntry(l.entry) else []
  }

  function LineCodes(lines: seq<OnLine>): seq<byte> {
    if lines == [] then [] else LineCode(lines[0]) + LineCodes(lines[1..])
  }

  lemma {:induction false} CodesAreEncoded(lines: seq<OnLine>)
    ensures LineCodes(lines) == Entries(EntriesOn(lines))
  {
    if lines != [] {
      CodesAreEncoded(lines[1..]);
      var rest := EntriesOn(lines[1..]);
      if lines[0].Some? {
        assert EntriesOn(lines)[1..] == rest;
      } else {
        assert [] + rest == rest;
      }
    }
  }

  // ---- Reading ----

  /** No line ends between i and j. */
  predicate SameLine(text: Text, i: nat, j: nat)
    requires i <= |text|
  {
    i <= j <= LineEnd(text, i)
  }

  lemma Further(text: Text, i: nat, j: nat, k: nat)
    requires i <= |text| && SameLine(text, i, j) && SameLine(text, j, k)
    ensures SameLine(text, i, k)
  {
    SameEnd(text, i, j);
  }

  /** number, from the character at i on. */
  method Number(text: Text, i: nat) returns (n: nat, next: nat)
    requires i <= |text|
    ensures Numeral(n, next) == Digits(text, i, 0)
  {
    n, next := 0, i;
    while DIGIT0 <= Char(text, next) <= DIGIT9
      invariant i <= next <= |text| && Digits(text, next, n) == Digits(text, i, 0)
      decreases |text| - next
    {
      n := n * 10 + Char(text, next) - DIGIT0;
      next := next + 1;
    }
  }

  /** mlist: the rest of a list of numbers, whose code so far is given. */
  method ReadList(text: Text, j0: nat, k: nat, ns0: seq<byte>) returns (ok: bool, ns: seq<byte>, next: nat)
    requires j0 < |text| && text[j0] == COMMA && k < FIELDS && forall n :: n in ns0 ==> n < 100
    ensures ok ==> (forall n :: n in ns ==> n < 100) && ns != [] && ParseList(text, j0, k, ns0) == Good(OneOf(ns), next)
    ensures !ok ==> ParseList(text, j0, k, ns0).Bad? && SameLine(text, j0, next)
  {
    ns := ns0;
    var j := j0;
    while true
      invariant j0 <= j < |text| && text[j] == COMMA && SameLine(text, j0, j) && forall n :: n in ns ==> n < 100
      invariant ParseList(text, j0, k, ns0) == ParseList(text, j, k, ns)
      decreases |text| - j
    {
      var n;
      n, next := Number(text, j + 1);
      Further(text, j0, j, next);
      if !InRange(n, k) {
        return false, ns, next;
      }
      var c := Char(text, next);
      if c != COMMA {
        ok := Blank(c);
        ns := ns + [n];
        next := if ok then next + 1 else next;
        return;
      }
      ns := ns + [n];
      j := next;
    }
  }

  /** One field: its code, if it is well formed. */
  method ReadField(text: Text, i: nat, k: nat) returns (ok: bool, code: seq<byte>, next: nat)
    requires i < |text| && text[i] != NL && k < FIELDS
    ensures ok ==> ParseField(text, i, k).Good? && ParseField(text, i, k).next == next
    ensures ok ==> code == Encoded(ParseField(text, i, k).value)
    ensures !ok ==> ParseField(text, i, k).Bad? && SameLine(text, i, next)
  {
    if Char(text, i) == STAR {
      return true, [ANY], i + 1;
    }
    var n;
    n, next := Number(text, i);
    code := [];
    if !InRange(n, k) {
      return false, code, next;
    }
    var c := Char(text, next);
    if c == COMMA {
      var ns;
      var comma := next;
      ok, ns, next := ReadList(text, comma, k, [n]);
      if !ok { Further(text, i, comma, next); }
      code := [LIST] + ns + [LIST];
    } else if c == DASH {
      var m;
      var dash := next;
      m, next := Number(text, dash + 1);
      Further(text, i, dash, next);
      ok := InRange(m, k) && Blank(Char(text, next));
      if ok {
        code, next := [RANGE, n, m], next + 1;
      }
    } else {
      ok := Blank(c);
      if ok {
        code, next := [EXACT, n], next + 1;
      }
    }
  }

  lemma {:induction false} FieldsAppend(fs: seq<Code>, f: Code, k: nat)
    requires k <= |fs|
    ensures FieldsFrom(fs + [f], k) == FieldsFrom(fs, k) + Encoded(f)
    decreases |fs| - k
  {
    if k == |fs| {
      assert FieldsFrom(fs + [f], k + 1) == [];
      assert Encoded(f) + [] == Encoded(f) == [] + Encoded(f);
    } else {
      FieldsAppend(fs, f, k + 1);
      assert Encoded(fs[k]) + (FieldsFrom(fs, k + 1) + Encoded(f)) == Encoded(fs[k]) + FieldsFrom(fs, k + 1) + Encoded(f);
    }
  }

  /** do c = getchar(); while (c == ' ' || c == '\t') */
  method PassBlanks(text: Text, i: nat) returns (j: nat)
    requires i <= |text|
    ensures j == SkipBlanks(text, i)
  {
    j := i;
    while Blank(Char(text, j))
      invariant i <= j <= |text| && SkipBlanks(text, j) == SkipBlanks(text, i)
      decreases |text| - j
    {
      j := j + 1;
    }
  }

  /** One pass of the loop over the fields. */
  method NextField(text: Text, i: nat, k: nat, code: seq<byte>, ghost fs: seq<Code>, ghost first: nat)
    returns (ok: bool, done: bool, code': seq<byte>, next: nat, ghost fs': seq<Code>)
    requires i <= |text| && k == |fs| <= FIELDS && first == 0 && code == FieldsFrom(fs, first)
    ensures SameLine(text, i, next)
    ensures ok && done ==> ParseFields(text, i, k, fs) == Good(fs, next) && code' == code
    ensures !ok ==> ParseFields(text, i, k, fs).Bad?
    ensures ok && !done ==> k < FIELDS && |fs'| == k + 1 && ParseFields(text, i, k, fs) == ParseFields(text, next, k + 1, fs')
    ensures ok && !done ==> code' == FieldsFrom(fs', first)
  {
    var j := PassBlanks(text, i);
    code', next, fs', done := code, j, fs, k == FIELDS;
    ok := !Ends(Char(text, j));
    if !ok || done {
      return;
    }
    ghost var f := ParseField(text, j, k);
    var c;
    ok, c, next := ReadField(text, j, k);
    Further(text, i, j, next);
    if ok {
      FieldsAppend(fs, f.value, first);
      code', fs' := code + c, fs + [f.value];
    }
  }

  /** The five fields of a line: their code, and where the command begins. */
  method ReadFields(text: Text, i: nat, ghost r: Found<seq<Code>>, ghost first: nat) returns (ok: bool, code: seq<byte>, next: nat)
    requires i <= |text| && r == ParseFields(text, i, 0, []) && first == 0
    ensures ok ==> r.Good? && r.next == next && code == FieldsFrom(r.value, first)
    ensures !ok ==> r.Bad?
    ensures SameLine(text, i, next)
  {
    ghost var fs: seq<Code> := [];
    var k: nat := 0;
    code, next := [], i;
    while true
      invariant k == |fs| <= FIELDS && SameLine(text, i, next) && code == FieldsFrom(fs, first)
      invariant r == ParseFields(text, next, k, fs)
      decreases FIELDS - k
    {
      var done;
      ghost var from := next;
      ok, done, code, next, fs := NextField(text, next, k, code, fs, first);
      Further(text, i, from, next);
      if !ok || done {
        return;
      }
      k := k + 1;
    }
  }

  /** The command that begins at j, up to the end of its line. */
  method ReadCommand(text: Text, j: nat) returns (s: seq<byte>, e: nat)
    requires j <= |text|
    ensures e == LineEnd(text, j) && s == CommandOf(Raw(text, j))
  {
    var i := 0;
    s, e := [], j;
    ghost var raw := Raw(text, j);
    while !Ends(Char(text, e))
      invariant j <= e <= LineEnd(text, j) == LineEnd(text, e) && e - j <= |raw|
      invariant s == Body(raw, e - j) && (i == 0 <==> PERCENT !in raw[..e - j])
      decreases |text| - e
    {
      assert e < |text| && raw[e - j] == text[e] && text[e] in text;
      assert raw[..e - j + 1] == raw[..e - j] + [raw[e - j]];
      assert (e + 1 - j) - 1 == e - j;
      if text[e] == PERCENT {
        if i == 0 {
          i := i + 1;
          s := s + HERE;
        }
        s := s + [10];
      } else {
        s := s + [text[e]];
      }
      e := e + 1;
    }
    assert raw[..e - j] == raw;
    s := s + [10];
    if i != 0 {
      s := s + THERE;
    }
  }

  /** The rest of a line that is ignored. */
  method PassLine(text: Text, i: nat) returns (e: nat)
    requires i <= |text|
    ensures e == LineEnd(text, i)
  {
    e := i;
    while !Ends(Char(text, e))
      invariant i <= e <= |text| && LineEnd(text, e) == LineEnd(text, i)
      decreases |text| - e
    {
      e := e + 1;
    }
  }

  /** One line: what it adds to the list, if it is well formed and ended, and where it ends. */
  method ReadLine(text: Text, i: nat) returns (code: seq<byte>, e: nat)
    requires i <= |text|
    ensures e == LineEnd(text, i)
    ensures e < |text| ==> code == LineCode(ParseLine(text, i))
    ensures e == |text| ==> code == []
  {
    var ok, next;
    ok, code, next := ReadFields(text, i, ParseFields(text, i, 0, []), 0);
    SameEnd(text, i, next);
    if ok {
      var s;
      s, e := ReadCommand(text, next);
      if e < |text| {
        code := code + (s + [0]);
        return;
      }
    }
    code := [];
    e := PassLine(text, next);
  }

  /** readcrontab: the list holds the entries of the well-formed lines, in their order, and
      nothing of the others. */
  method ReadCrontab(text: Text) returns (list: seq<byte>)
    ensures list == EncodedList(Table(text))
  {
    list := [];
    var pos: nat := 0;
    ghost var lines := LinesFrom(text, pos);
    ghost var goal := LineCodes(lines);
    CodesAreEncoded(lines);
    while true
      invariant pos <= |text| && lines == LinesFrom(text, pos) && list + LineCodes(lines) == goal
      decreases |text| - pos
    {
      var code, e;
      code, e := ReadLine(text, pos);
      if e == |text| {
        list := list + [EOS, EOS];
        return;
      }
      FirstLine(lines, text, pos, list, code);
      list := list + code;
      lines, pos := lines[1..], e + 1;
    }
  }

  lemma FirstLine(lines: seq<OnLine>, text: Text, pos: nat, list: seq<byte>, code: seq<byte>)
    requires pos <= |text| && lines == LinesFrom(text, pos) && LineEnd(text, pos) < |text|
    requires code == LineCode(ParseLine(text, pos))
    ensures lines != [] && lines[1..] == LinesFrom(text, LineEnd(text, pos) + 1)
    ensures list + LineCodes(lines) == (list + code) + LineCodes(lines[1..])
  {
    assert lines == [ParseLine(text, pos)] + LinesFrom(text, LineEnd(text, pos) + 1);
  }
}
