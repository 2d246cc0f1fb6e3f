/** A crontab as a user writes it, and when its commands are to be run. */
module CronWritten {
  import opened Common

  datatype Times = Always | At(n: nat) | Each(ns: seq<nat>) | Through(lo: nat, hi: nat) {
    /** A span whose ends are the wrong way round, or the same, goes on past the highest value. */
    predicate Includes(v: nat) {
      match this
      case Always => true
      case At(n) => v == n
      case Each(ns) => exists k :: 0 <= k < |ns| && v == ns[k]
      case Through(lo, hi) => if lo < hi then lo <= v <= hi else v >= lo || v <= hi
    }

    predicate AllowedIn(k: nat) {
      match this
      case Always => true
      case At(n) => Allowed(n, k)
      case Each(ns) => forall m :: 0 <= m < |ns| ==> Allowed(ns[m], k)
      case Through(lo, hi) => Allowed(lo, k) && Allowed(hi, k)
    }
  }

  /** Minutes, hours, days of the month, months, and days of the week from Monday. */
  predicate Allowed(n: nat, k: nat) {
    match k
    case 0 => n <= 59
    case 1 => n <= 23
    case 2 => 1 <= n <= 31
    case 3 => 1 <= n <= 12
    case _ => 1 <= n <= 7
  }

  /** When to run what, and the lines it reads. */
  datatype Job = Job(min: Times, hour: Times, mday: Times, mon: Times, wday: Times, command: Text, input: seq<Text>) {
    function Fields(): (fs: seq<Times>)
      ensures |fs| == 5
    {
      [min, hour, mday, mon, wday]
    }

    predicate Allowed() {
      min.AllowedIn(0) && hour.AllowedIn(1) && mday.AllowedIn(2) && mon.AllowedIn(3) && wday.AllowedIn(4)
    }

    /** What can be written: no line holds a percent sign, and the command does not begin with a blank. */
    predicate Fits() {
      && (forall k :: 0 <= k < 5 ==> Fields()[k].Each? ==> |Fields()[k].ns| >= 2)
      && command != [] && command[0] != ' ' as byte && command[0] != '\t' as byte
      && OneLine(command) && forall k :: 0 <= k < |input| ==> OneLine(input[k])
    }

    predicate OnTime(minute: nat, hourOfDay: nat, dayOfMonth: nat, month: nat, dayOfWeek: nat) {
      && min.Includes(minute) && hour.Includes(hourOfDay) && mday.Includes(dayOfMonth)
      && mon.Includes(month) && wday.Includes(dayOfWeek)
    }

    /** What the shell gets. */
    function ForShell(): seq<byte> {
      if input == [] then command + ['\n' as byte]
      else command + HereDocument() + AfterEach('\n' as byte, input, |input|) + ['\n' as byte] + Terminator() + ['\n' as byte]
    }
  }

  predicate OneLine(t: Text) {
    '%' as byte !in t && '\n' as byte !in t
  }

  function Terminator(): Text {
    ['_' as byte, '_' as byte, 'G' as byte, 'N' as byte, 'O' as byte, 'M' as byte, 'E' as byte, '_' as byte, '_' as byte]
  }

  function HereDocument(): Text {
    ['<' as byte, '<' as byte, ' ' as byte] + Terminator()
  }

  /** The first k lines, each after a mark. */
  function AfterEach(mark: byte, lines: seq<Text>, k: nat): seq<byte>
    requires k <= |lines|
  {
    if k == 0 then [] else AfterEach(mark, lines, k - 1) + [mark] + lines[k - 1]
  }

  // ---- Writing ----

  function NumberText(n: nat): (t: seq<byte>)
    ensures t != []
  {
    if n < 10 then ['0' as byte + n] else NumberText(n / 10) + ['0' as byte + n % 10]
  }

  /** The numbers from k on, each after a comma. */
  function ListText(ns: seq<nat>, k: nat): seq<byte>
    requires k <= |ns|
    decreases |ns| - k
  {
    if k == |ns| then [] else [',' as byte] + NumberText(ns[k]) + ListText(ns, k + 1)
  }

  function TimesText(f: Times): seq<byte>
    requires f.Each? ==> f.ns != []
  {
    match f
    case Always => ['*' as byte]
    case At(n) => NumberText(n)
    case Each(ns) => NumberText(ns[0]) + ListText(ns, 1)
    case Through(lo, hi) => NumberText(lo) + ['-' as byte] + NumberText(hi)
  }

  /** The fields from k on, with a blank after each. */
  function FieldsText(fs: seq<Times>, k: nat): seq<byte>
    requires k <= |fs| && forall i :: 0 <= i < |fs| ==> fs[i].Each? ==> |fs[i].ns| >= 2
    decreases |fs| - k
  {
    if k == |fs| then [] else TimesText(fs[k]) + [' ' as byte] + FieldsText(fs, k + 1)
  }

  function CommandText(j: Job): seq<byte> {
    j.command + AfterEach('%' as byte, j.input, |j.input|)
  }

  function JobText(j: Job): seq<byte>
    requires j.Fits()
  {
    FieldsText(j.Fields(), 0) + CommandText(j)
  }

  /** The jobs from k on, one to a line. */
  function JobsText(js: seq<Job>, k: nat): seq<byte>
    requires k <= |js| && forall i :: 0 <= i < |js| ==> js[i].Fits()
    decreases |js| - k
  {
    if k == |js| then [] else JobText(js[k]) + ['\n' as byte] + JobsText(js, k + 1)
  }

  // ---- What is written has no NUL in it, and no newline but the one at the end of each line ----

  predicate Plain(t: seq<byte>) {
    0 !in t && '\n' as byte !in t
  }

  lemma {:induction false} NumberDigits(n: nat)
    ensures forall i :: 0 <= i < |NumberText(n)| ==> '0' as byte <= NumberText(n)[i] <= '9' as byte
  {
    if n >= 10 {
      NumberDigits(n / 10);
    }
  }

  lemma {:induction false} ListPlain(ns: seq<nat>, k: nat)
    requires k <= |ns|
    ensures Plain(ListText(ns, k))
    decreases |ns| - k
  {
    if k < |ns| {
      NumberDigits(ns[k]);
      ListPlain(ns, k + 1);
    }
  }

  lemma TimesPlain(f: Times)
    requires f.Each? ==> f.ns != []
    ensures Plain(TimesText(f))
  {
    match f {
      case Always =>
      case At(n) => NumberDigits(n);
      case Each(ns) =>
        NumberDigits(ns[0]);
        ListPlain(ns, 1);
      case Through(lo, hi) =>
        NumberDigits(lo);
        NumberDigits(hi);
    }
  }

  lemma {:induction false} FieldsPlain(fs: seq<Times>, k: nat)
    requires k <= |fs| && forall i :: 0 <= i < |fs| ==> fs[i].Each? ==> |fs[i].ns| >= 2
    ensures Plain(FieldsText(fs, k))
    decreases |fs| - k
  {
    if k < |fs| {
      TimesPlain(fs[k]);
      FieldsPlain(fs, k + 1);
    }
  }

  lemma {:induction false} LinesPlain(lines: seq<Text>, k: nat)
    requires k <= |lines| && forall i :: 0 <= i < |lines| ==> OneLine(lines[i])
    ensures Plain(AfterEach('%' as byte, lines, k))
  {
    if k > 0 {
      LinesPlain(lines, k - 1);
      assert OneLine(lines[k - 1]);
    }
  }

  lemma JobPlain(j: Job)
    requires j.Fits()
    ensures Plain(JobText(j)) && Plain(CommandText(j))
  {
    FieldsPlain(j.Fields(), 0);
    LinesPlain(j.input, |j.input|);
  }

  lemma {:induction false} JobsAreText(js: seq<Job>, k: nat)
    requires k <= |js| && forall i :: 0 <= i < |js| ==> js[i].Fits()
    ensures 0 !in JobsText(js, k)
    decreases |js| - k
  {
    if k < |js| {
      JobPlain(js[k]);
      JobsAreText(js, k + 1);
    }
  }
}
