/** cron reads a crontab as it is written. */
module CronReading {
  import opened Common
  import opened Crontab
  import opened CrontabReader
  import W = CronWritten

  // ---- Numbers ----

  function Value(digits: seq<byte>): int {
    if digits == [] then 0 else Value(digits[..|digits| - 1]) * 10 + digits[|digits| - 1] - '0' as byte
  }

  lemma {:induction false} ValueOfNumber(n: nat)
    ensures Value(W.NumberText(n)) == n
  {
    if n >= 10 {
      ValueOfNumber(n / 10);
      assert W.NumberText(n)[..|W.NumberText(n)| - 1] == W.NumberText(n / 10);
    }
  }

  lemma {:induction false} DigitsTo(text: Text, i: nat, j: nat)
    requires i <= j <= |text| && forall t :: i <= t < j ==> '0' as byte <= text[t] <= '9' as byte
    ensures Value(text[i..j]) >= 0 && Digits(text, i, 0) == Digits(text, j, Value(text[i..j]))
    decreases j
  {
    if i < j {
      DigitsTo(text, i, j - 1);
      assert text[i..j][..j - i - 1] == text[i..j - 1] && text[i..j][j - i - 1] == text[j - 1];
    }
  }

  predicate AllDigits(d: seq<byte>) {
    forall t :: 0 <= t < |d| ==> '0' as byte <= d[t] <= '9' as byte
  }

  lemma DigitsAt(text: Text, i: nat, d: seq<byte>)
    requires BytesAt(text, i, d) && AllDigits(d)
    ensures Value(d) >= 0 && Digits(text, i, 0) == Digits(text, i + |d|, Value(d))
  {
    forall t | i <= t < i + |d|
      ensures '0' as byte <= text[t] <= '9' as byte
    {
      ByteAt(text, i, d, t - i);
    }
    DigitsTo(text, i, i + |d|);
  }

  /** A number and what comes after it. */
  lemma ReadNumberBefore(text: Text, i: nat, n: nat, more: seq<byte>)
    requires more != [] && !('0' as byte <= more[0] <= '9' as byte) && BytesAt(text, i, W.NumberText(n) + more)
    ensures var e := i + |W.NumberText(n)|; Digits(text, i, 0) == Numeral(n, e) && BytesAt(text, e, more) && Char(text, e) == more[0]
  {
    var number := W.NumberText(n);
    Split(text, i, number, more);
    ByteAt(text, i + |number|, more, 0);
    W.NumberDigits(n);
    ValueOfNumber(n);
    DigitsAt(text, i, number);
  }

  lemma SameBounds(n: nat, k: nat)
    requires k < FIELDS
    ensures InRange(n, k) <==> W.Allowed(n, k)
  {
  }

  // ---- Fields ----

  /** The field that is stored for what is written. */
  function Coded(f: W.Times, k: nat): (c: Code)
    requires f.AllowedIn(k) && (f.Each? ==> f.ns != [])
  {
    match f
    case Always => Any
    case At(n) => Exact(n)
    case Each(ns) => OneOf(Bytes(ns, |ns|, k))
    case Through(lo, hi) => Range(lo, hi)
  }

  predicate AllAllowed(ns: seq<nat>, m: nat, k: nat)
    requires m <= |ns|
  {
    forall t :: 0 <= t < m ==> W.Allowed(ns[t], k)
  }

  /** The first m numbers. */
  function Bytes(ns: seq<nat>, m: nat, k: nat): (bs: seq<byte>)
    requires m <= |ns| && AllAllowed(ns, m, k)
    ensures |bs| == m && (forall t :: 0 <= t < m ==> bs[t] == ns[t]) && forall b :: b in bs ==> b < 100
  {
    if m == 0 then [] else assert W.Allowed(ns[m - 1], k); Bytes(ns, m - 1, k) + [ns[m - 1]]
  }

  /** It holds at the same times. */
  lemma CodedHolds(f: W.Times, k: nat, v: byte)
    requires f.AllowedIn(k) && (f.Each? ==> f.ns != [])
    ensures Holds(Coded(f, k), v) <==> f.Includes(v)
  {
    if f.Each? {
      var bs := Bytes(f.ns, |f.ns|, k);
      assert forall m :: 0 <= m < |bs| ==> bs[m] == f.ns[m];
    }
  }

  /** What comes of a field: the code and the place e, or nothing. */
  ghost predicate FieldRead(r: Found<Code>, f: W.Times, k: nat, e: nat)
    requires f.Each? ==> f.ns != []
  {
    if f.AllowedIn(k) then r == Good(Coded(f, k), e) else r.Bad?
  }

  /** One number of a list, from the comma before it on. */
  lemma ListStep(text: Text, j: nat, k: nat, bs: seq<byte>, n: nat, e: nat)
    requires k < FIELDS && j < |text| && text[j] == ',' as byte && (forall b :: b in bs ==> b < 100)
    requires Digits(text, j + 1, 0) == Numeral(n, e)
    ensures !W.Allowed(n, k) ==> ParseList(text, j, k, bs).Bad?
    ensures W.Allowed(n, k) && Char(text, e) == COMMA ==> ParseList(text, j, k, bs) == ParseList(text, e, k, bs + [n])
    ensures W.Allowed(n, k) && Char(text, e) == SPACE ==> ParseList(text, j, k, bs) == Good(OneOf(bs + [n]), e + 1)
  {
    SameBounds(n, k);
  }

  lemma BytesNext(ns: seq<nat>, m: nat, k: nat)
    requires m < |ns| && AllAllowed(ns, m, k) && W.Allowed(ns[m], k)
    ensures AllAllowed(ns, m + 1, k) && Bytes(ns, m + 1, k) == Bytes(ns, m, k) + [ns[m]]
    ensures m + 1 == |ns| ==> W.Each(ns).AllowedIn(k) && Coded(W.Each(ns), k) == OneOf(Bytes(ns, m + 1, k))
  {
  }

  lemma ListAt(text: Text, j: nat, ns: seq<nat>, m: nat) returns (e: nat)
    requires m < |ns| && BytesAt(text, j, W.ListText(ns, m) + [' ' as byte])
    ensures j < e < |text| && text[j] == ',' as byte && Digits(text, j + 1, 0) == Numeral(ns[m], e)
    ensures Char(text, e) == (if m + 1 < |ns| then COMMA else SPACE)
    ensures BytesAt(text, e, W.ListText(ns, m + 1) + [' ' as byte])
    ensures e + |W.ListText(ns, m + 1)| == j + |W.ListText(ns, m)|
  {
    var number, more := W.NumberText(ns[m]), W.ListText(ns, m + 1) + [' ' as byte];
    assert W.ListText(ns, m) + [' ' as byte] == [',' as byte] + (number + more);
    Split(text, j, [',' as byte], number + more);
    ByteAt(text, j, [',' as byte], 0);
    ReadNumberBefore(text, j + 1, ns[m], more);
    e := j + 1 + |number|;
  }

  /** The numbers from m on, each after a comma, and the blank that ends them. */
  lemma {:induction false} ReadNumbers(text: Text, j: nat, k: nat, ns: seq<nat>, m: nat)
    requires k < FIELDS && m < |ns| && AllAllowed(ns, m, k)
    requires BytesAt(text, j, W.ListText(ns, m) + [' ' as byte])
    ensures j < |text| && text[j] == ',' as byte
    ensures FieldRead(ParseList(text, j, k, Bytes(ns, m, k)), W.Each(ns), k, j + |W.ListText(ns, m)| + 1)
    decreases |ns| - m
  {
    var e := ListAt(text, j, ns, m);
    ListStep(text, j, k, Bytes(ns, m, k), ns[m], e);
    if W.Allowed(ns[m], k) {
      BytesNext(ns, m, k);
      if m + 1 < |ns| {
        ReadNumbers(text, e, k, ns, m + 1);
      } else {
        assert W.ListText(ns, m + 1) == [];
      }
    }
  }

  /** A field and the blank after it. */
  lemma ReadTimes(text: Text, i: nat, k: nat, f: W.Times)
    requires k < FIELDS && (f.Each? ==> |f.ns| >= 2) && BytesAt(text, i, W.TimesText(f) + [' ' as byte])
    ensures i < |text| && text[i] != '\n' as byte && !Blank(text[i])
    ensures FieldRead(ParseField(text, i, k), f, k, i + |W.TimesText(f)| + if f.Always? then 0 else 1)
  {
    match f {
      case Always => ByteAt(text, i, ['*' as byte, ' ' as byte], 0);
      case At(n) => ReadOne(text, i, k, n);
      case Each(ns) => ReadSeveral(text, i, k, ns);
      case Through(lo, hi) => ReadSpan(text, i, k, lo, hi);
    }
  }

  lemma FirstDigit(text: Text, i: nat, n: nat, more: seq<byte>)
    requires BytesAt(text, i, W.NumberText(n) + more)
    ensures i < |text| && '0' as byte <= text[i] <= '9' as byte
  {
    W.NumberDigits(n);
    ByteAt(text, i, W.NumberText(n) + more, 0);
  }

  /** A number at the start of a field, and what its next character makes of it. */
  lemma FieldStep(text: Text, i: nat, k: nat, n: nat, more: seq<byte>) returns (e: nat)
    requires k < FIELDS && BytesAt(text, i, W.NumberText(n) + more) && more != [] && !('0' as byte <= more[0] <= '9' as byte)
    ensures i < e < |text| && '0' as byte <= text[i] <= '9' as byte && e == i + |W.NumberText(n)|
    ensures BytesAt(text, e, more) && Char(text, e) == more[0]
    ensures !W.Allowed(n, k) ==> ParseField(text, i, k).Bad?
    ensures W.Allowed(n, k) && more[0] == ',' as byte ==> ParseField(text, i, k) == ParseList(text, e, k, [n])
    ensures W.Allowed(n, k) && more[0] == '-' as byte ==> ParseField(text, i, k) == ParseRange(text, e, k, n)
    ensures W.Allowed(n, k) && more[0] == ' ' as byte ==> ParseField(text, i, k) == Good(Exact(n), e + 1)
  {
    FirstDigit(text, i, n, more);
    ReadNumberBefore(text, i, n, more);
    SameBounds(n, k);
    e := i + |W.NumberText(n)|;
  }

  lemma ReadOne(text: Text, i: nat, k: nat, n: nat)
    requires k < FIELDS && BytesAt(text, i, W.NumberText(n) + [' ' as byte])
    ensures i < |text| && '0' as byte <= text[i] <= '9' as byte
    ensures FieldRead(ParseField(text, i, k), W.At(n), k, i + |W.NumberText(n)| + 1)
  {
    var e := FieldStep(text, i, k, n, [' ' as byte]);
  }

  lemma OneNumber(ns: seq<nat>, k: nat)
    requires ns != [] && W.Allowed(ns[0], k)
    ensures AllAllowed(ns, 1, k) && Bytes(ns, 1, k) == [ns[0]]
  {
    BytesNext(ns, 0, k);
  }

  lemma ReadSeveral(text: Text, i: nat, k: nat, ns: seq<nat>)
    requires k < FIELDS && |ns| >= 2 && BytesAt(text, i, W.TimesText(W.Each(ns)) + [' ' as byte])
    ensures i < |text| && '0' as byte <= text[i] <= '9' as byte
    ensures FieldRead(ParseField(text, i, k), W.Each(ns), k, i + |W.TimesText(W.Each(ns))| + 1)
  {
    var one: nat := 1;
    var more := W.ListText(ns, one) + [' ' as byte];
    assert W.TimesText(W.Each(ns)) + [' ' as byte] == W.NumberText(ns[0]) + more;
    var e := FieldStep(text, i, k, ns[0], more);
    if W.Allowed(ns[0], k) {
      OneNumber(ns, k);
      ReadNumbers(text, e, k, ns, one);
    }
  }

  lemma RangeStep(text: Text, j: nat, k: nat, lo: nat, hi: nat, last: seq<byte>)
    requires k < FIELDS && lo < 100 && last == W.NumberText(hi) + [' ' as byte] && BytesAt(text, j, ['-' as byte] + last)
    ensures j < |text| && text[j] == '-' as byte
    ensures ParseRange(text, j, k, lo) == if W.Allowed(hi, k) then Good(Range(lo, hi), j + |last| + 1) else Bad
  {
    Split(text, j, ['-' as byte], last);
    ByteAt(text, j, ['-' as byte], 0);
    ReadNumberBefore(text, j + 1, hi, [' ' as byte]);
    SameBounds(hi, k);
  }

  lemma SpanText(lo: nat, hi: nat) returns (last: seq<byte>)
    ensures last == W.NumberText(hi) + [' ' as byte]
    ensures W.TimesText(W.Through(lo, hi)) + [' ' as byte] == W.NumberText(lo) + (['-' as byte] + last)
  {
    last := W.NumberText(hi) + [' ' as byte];
  }

  lemma ReadSpan(text: Text, i: nat, k: nat, lo: nat, hi: nat)
    requires k < FIELDS && BytesAt(text, i, W.TimesText(W.Through(lo, hi)) + [' ' as byte])
    ensures i < |text| && '0' as byte <= text[i] <= '9' as byte
    ensures FieldRead(ParseField(text, i, k), W.Through(lo, hi), k, i + |W.TimesText(W.Through(lo, hi))| + 1)
  {
    var last := SpanText(lo, hi);
    var e := FieldStep(text, i, k, lo, ['-' as byte] + last);
    if W.Allowed(lo, k) {
      RangeStep(text, e, k, lo, hi, last);
    }
  }

  // ---- The five fields ----

  predicate AllowedFrom(fs: seq<W.Times>, k: nat)
    requires k <= |fs|
    decreases |fs| - k
  {
    k == |fs| || (fs[k].AllowedIn(k) && AllowedFrom(fs, k + 1))
  }

  /** The fields can be written. */
  predicate Writable(fs: seq<W.Times>) {
    forall i :: 0 <= i < |fs| ==> fs[i].Each? ==> |fs[i].ns| >= 2
  }

  function CodedFrom(fs: seq<W.Times>, k: nat): (cs: seq<Code>)
    requires k <= |fs| && Writable(fs) && AllowedFrom(fs, k)
    ensures |cs| == |fs| - k
    decreases |fs| - k
  {
    if k == |fs| then [] else [Coded(fs[k], k)] + CodedFrom(fs, k + 1)
  }

  /** What comes of the fields from k on, after the codes before them: all codes and the place e, or nothing. */
  ghost predicate FieldsRead(r: Found<seq<Code>>, fs: seq<W.Times>, k: nat, cs: seq<Code>, e: nat)
    requires k <= |fs| && Writable(fs)
  {
    if AllowedFrom(fs, k) then r == Good(cs + CodedFrom(fs, k), e) else r.Bad?
  }

  lemma BlankFirst(text: Text, i: nat, k: nat, cs: seq<Code>)
    requires i < |text| && Char(text, i) == SPACE && k == |cs| <= FIELDS
    ensures ParseFields(text, i, k, cs) == ParseFields(text, i + 1, k, cs)
  {
    assert SkipBlanks(text, i) == SkipBlanks(text, i + 1);
  }

  /** A field is there, and the blank after it. */
  lemma FieldThere(text: Text, i: nat, f: W.Times, k: nat, t: seq<byte>, more: seq<byte>)
    requires k < FIELDS && (f.Each? ==> |f.ns| >= 2) && t == W.TimesText(f) && BytesAt(text, i, t + ([' ' as byte] + more))
    ensures i + |t| < |text| && text[i] != '\n' as byte && !Blank(text[i]) && Char(text, i + |t|) == SPACE
    ensures BytesAt(text, i + |t| + 1, more)
    ensures FieldRead(ParseField(text, i, k), f, k, i + |t| + if f.Always? then 0 else 1)
  {
    assert t + ([' ' as byte] + more) == (t + [' ' as byte]) + more;
    Split(text, i, t + [' ' as byte], more);
    ByteAt(text, i, t + [' ' as byte], |t|);
    ReadTimes(text, i, k, f);
  }

  lemma FieldsStep(text: Text, i: nat, k: nat, next: nat, cs: seq<Code>, c: Code, cs': seq<Code>, after: nat)
    requires k == |cs| < FIELDS && i < |text| && text[i] != '\n' as byte && !Blank(text[i])
    requires ParseField(text, i, k) == Good(c, after) && cs' == cs + [c] && next == k + 1
    ensures ParseFields(text, i, k, cs) == ParseFields(text, after, next, cs')
  {
    assert SkipBlanks(text, i) == i;
  }

  /** A field in bounds, and the blank after it. */
  lemma GoodField(text: Text, i: nat, f: W.Times, k: nat, next: nat, cs: seq<Code>, cs': seq<Code>, t: seq<byte>, more: seq<byte>, after: nat)
    requires k == |cs| < FIELDS && (f.Each? ==> |f.ns| >= 2) && t == W.TimesText(f) && BytesAt(text, i, t + ([' ' as byte] + more))
    requires f.AllowedIn(k) && cs' == cs + [Coded(f, k)] && next == k + 1 && after == i + |t| + 1
    ensures BytesAt(text, after, more) && ParseFields(text, i, k, cs) == ParseFields(text, after, next, cs')
  {
    FieldThere(text, i, f, k, t, more);
    if f.Always? {
      FieldsStep(text, i, k, next, cs, Coded(f, k), cs', after - 1);
      BlankFirst(text, after - 1, next, cs');
    } else {
      FieldsStep(text, i, k, next, cs, Coded(f, k), cs', after);
    }
  }

  lemma BadField(text: Text, i: nat, f: W.Times, k: nat, cs: seq<Code>, t: seq<byte>, more: seq<byte>)
    requires k == |cs| < FIELDS && (f.Each? ==> |f.ns| >= 2) && t == W.TimesText(f) && BytesAt(text, i, t + ([' ' as byte] + more))
    requires !f.AllowedIn(k)
    ensures ParseFields(text, i, k, cs).Bad?
  {
    FieldThere(text, i, f, k, t, more);
    FieldsStop(text, i, k, cs);
  }

  lemma FieldsStop(text: Text, i: nat, k: nat, cs: seq<Code>)
    requires k == |cs| < FIELDS && i < |text| && text[i] != '\n' as byte && !Blank(text[i]) && ParseField(text, i, k).Bad?
    ensures ParseFields(text, i, k, cs).Bad?
  {
    assert SkipBlanks(text, i) == i;
  }

  lemma NoFieldsLeft(text: Text, i: nat, cs: seq<Code>, command: seq<byte>)
    requires |cs| == FIELDS && command != [] && !Blank(command[0]) && !Ends(command[0]) && BytesAt(text, i, command)
    ensures ParseFields(text, i, FIELDS, cs) == Good(cs, i)
  {
    ByteAt(text, i, command, 0);
    assert SkipBlanks(text, i) == i;
  }

  lemma FieldsTextEnd(fs: seq<W.Times>, k: nat, command: seq<byte>)
    requires k == |fs| && Writable(fs)
    ensures W.FieldsText(fs, k) + command == command && |W.FieldsText(fs, k)| == 0
  {
  }

  lemma FieldsTextNext(fs: seq<W.Times>, k: nat, t: seq<byte>, command: seq<byte>, more: seq<byte>)
    requires k < |fs| && Writable(fs) && t == W.TimesText(fs[k]) && more == W.FieldsText(fs, k + 1) + command
    ensures W.FieldsText(fs, k) + command == t + ([' ' as byte] + more)
    ensures |W.FieldsText(fs, k)| == |t| + 1 + |W.FieldsText(fs, k + 1)|
  {
  }

  lemma FieldsReadEnd(fs: seq<W.Times>, k: nat, cs: seq<Code>, e: nat)
    requires k == |fs| && Writable(fs)
    ensures FieldsRead(Good(cs, e), fs, k, cs, e)
  {
    assert cs + CodedFrom(fs, k) == cs;
  }

  lemma FieldsReadNext(r: Found<seq<Code>>, fs: seq<W.Times>, k: nat, next: nat, cs: seq<Code>, cs': seq<Code>, e: nat)
    requires k < |fs| && next == k + 1 && Writable(fs) && fs[k].AllowedIn(k) && cs' == cs + [Coded(fs[k], k)]
    requires FieldsRead(r, fs, next, cs', e)
    ensures FieldsRead(r, fs, k, cs, e)
  {
    if AllowedFrom(fs, k) {
      assert cs' + CodedFrom(fs, next) == cs + CodedFrom(fs, k);
    }
  }

  lemma FieldsReadBad(r: Found<seq<Code>>, fs: seq<W.Times>, k: nat, cs: seq<Code>, e: nat)
    requires k < |fs| && Writable(fs) && !fs[k].AllowedIn(k) && r.Bad?
    ensures FieldsRead(r, fs, k, cs, e)
  {
  }

  /** The fields from k on, and where the command begins. */
  lemma {:induction false} ReadFieldsFrom(text: Text, i: nat, fs: seq<W.Times>, k: nat, cs: seq<Code>, command: seq<byte>, e: nat)
    requires |fs| == FIELDS && Writable(fs) && k == |cs| <= FIELDS
    requires command != [] && !Blank(command[0]) && !Ends(command[0]) && BytesAt(text, i, W.FieldsText(fs, k) + command)
    requires e == i + |W.FieldsText(fs, k)|
    ensures FieldsRead(ParseFields(text, i, k, cs), fs, k, cs, e)
    decreases |fs| - k
  {
    if k == |fs| {
      FieldsTextEnd(fs, k, command);
      NoFieldsLeft(text, i, cs, command);
      FieldsReadEnd(fs, k, cs, e);
    } else {
      var next := k + 1;
      var t, more := W.TimesText(fs[k]), W.FieldsText(fs, next) + command;
      FieldsTextNext(fs, k, t, command, more);
      if fs[k].AllowedIn(k) {
        var cs', after := cs + [Coded(fs[k], k)], i + |t| + 1;
        GoodField(text, i, fs[k], k, next, cs, cs', t, more, after);
        ReadFieldsFrom(text, after, fs, next, cs', command, e);
        FieldsReadNext(ParseFields(text, after, next, cs'), fs, k, next, cs, cs', e);
      } else {
        BadField(text, i, fs[k], k, cs, t, more);
        FieldsReadBad(ParseFields(text, i, k, cs), fs, k, cs, e);
      }
    }
  }

  // ---- The command ----

  lemma {:induction false} BodyPlain(raw: Text, k: nat, m: nat)
    requires k <= m <= |raw| && PERCENT !in raw[k..m]
    ensures Body(raw, m) == Body(raw, k) + raw[k..m]
    decreases m
  {
    if k < m {
      assert raw[k..m] == raw[k..m - 1] + [raw[m - 1]];
      BodyPlain(raw, k, m - 1);
    }
  }

  /** What a line of input adds to the command. */
  function LineOf(start: seq<byte>, line: seq<byte>): seq<byte> {
    start + (['\n' as byte] + line)
  }

  /** The command with n lines of its input. */
  function Told(command: seq<byte>, lines: seq<Text>, n: nat): seq<byte>
    requires n <= |lines|
  {
    if n == 0 then command else Told(command, lines, n - 1) + if n == 1 then LineOf(W.HereDocument(), lines[n - 1]) else LineOf([], lines[n - 1])
  }

  lemma {:induction false} ToldIs(command: seq<byte>, lines: seq<Text>, n: nat)
    requires n <= |lines|
    ensures Told(command, lines, n) == command + (if n == 0 then [] else W.HereDocument()) + W.AfterEach('\n' as byte, lines, n)
  {
    if n > 0 {
      ToldIs(command, lines, n - 1);
    }
  }

  lemma {:induction false} BodyLines(raw: Text, command: Text, lines: seq<Text>, n: nat, read: seq<byte>)
    requires n <= |lines| && W.OneLine(command) && (forall i :: 0 <= i < |lines| ==> W.OneLine(lines[i]))
    requires read == command + W.AfterEach('%' as byte, lines, n) && BytesAt(raw, 0, read)
    ensures Body(raw, |read|) == Told(command, lines, n) && (PERCENT in raw[..|read|] <==> n > 0)
  {
    if n == 0 {
      assert raw[0..|command|] == command;
      BodyPlain(raw, 0, |command|);
    } else {
      var front, line := command + W.AfterEach('%' as byte, lines, n - 1), lines[n - 1];
      assert W.OneLine(line);
      assert read == front + (['%' as byte] + line);
      Split(raw, 0, front, ['%' as byte] + line);
      BodyLines(raw, command, lines, n - 1, front);
      BodyLine(raw, |front|, line, |read|);
    }
  }

  lemma BodyLine(raw: Text, k: nat, line: Text, next: nat)
    requires W.OneLine(line) && BytesAt(raw, k, ['%' as byte] + line) && next == k + 1 + |line|
    ensures PERCENT in raw[..k] ==> Body(raw, next) == Body(raw, k) + LineOf([], line)
    ensures PERCENT !in raw[..k] ==> Body(raw, next) == Body(raw, k) + LineOf(W.HereDocument(), line)
    ensures PERCENT in raw[..next]
  {
    Split(raw, k, ['%' as byte], line);
    ByteAt(raw, k, ['%' as byte], 0);
    assert raw[..next][k] == PERCENT;
    BodyPlain(raw, k + 1, next);
    BodyMark(raw, k);
    Joined(Body(raw, k), if PERCENT in raw[..k] then [] else W.HereDocument(), line);
  }

  lemma BodyMark(raw: Text, k: nat)
    requires k < |raw| && raw[k] == PERCENT
    ensures Body(raw, k + 1) == Body(raw, k) + ((if PERCENT in raw[..k] then [] else W.HereDocument()) + ['\n' as byte])
  {
    assert (k + 1) - 1 == k;
    assert HERE == W.HereDocument();
    assert [] + ['\n' as byte] == [10];
  }

  lemma Joined(a: seq<byte>, b: seq<byte>, line: seq<byte>)
    ensures a + (b + ['\n' as byte]) + line == a + (b + (['\n' as byte] + line))
  {
  }

  /** The command is stored as the shell is to get it. */
  lemma ReadsCommand(raw: Text, j: W.Job)
    requires j.Fits() && raw == W.CommandText(j)
    ensures CommandOf(raw) == j.ForShell()
  {
    var n := |j.input|;
    assert raw[0..|raw|] == raw && raw[..|raw|] == raw;
    BodyLines(raw, j.command, j.input, n, raw);
    ToldIs(j.command, j.input, n);
    assert THERE == W.Terminator() + ['\n' as byte];
  }
}
