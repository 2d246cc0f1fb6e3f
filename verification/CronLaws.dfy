/** What a user of cron can rely on. */
module CronLaws {
  import opened Common
  import opened Crontab
  import opened CrontabReader
  import opened CronReading
  import opened CronLines
  import opened Cron
  import W = CronWritten

  /** All of these jobs can be written, and what follows them is not a line. */
  predicate Writes(js: seq<W.Job>, tail: Text) {
    (forall m :: 0 <= m < |js| ==> js[m].Fits()) && '\n' as byte !in tail
  }

  /** All its numbers are in bounds, and the time is one it names. */
  predicate Wanted(j: W.Job, t: Tm) {
    j.Allowed() && j.OnTime(t.min, t.hour, t.mday, t.mon, t.wday)
  }

  /** What the shell gets at a time: the jobs from k on that want it, in order. */
  function ToRun(js: seq<W.Job>, k: nat, t: Tm): seq<seq<byte>>
    requires k <= |js|
    decreases |js| - k
  {
    if k == |js| then [] else (if Wanted(js[k], t) then [js[k].ForShell()] else []) + ToRun(js, k + 1, t)
  }

  predicate SomeWanted(js: seq<W.Job>, t: Tm) {
    exists k :: 0 <= k < |js| && Wanted(js[k], t)
  }

  lemma AllowedIs(j: W.Job)
    ensures AllowedFrom(j.Fields(), 0) <==> j.Allowed()
  {
    var fs := j.Fields();
    assert AllowedFrom(fs, 5);
    assert AllowedFrom(fs, 4) <==> fs[4].AllowedIn(4);
    assert AllowedFrom(fs, 3) <==> fs[3].AllowedIn(3) && AllowedFrom(fs, 4);
    assert AllowedFrom(fs, 2) <==> fs[2].AllowedIn(2) && AllowedFrom(fs, 3);
    assert AllowedFrom(fs, 1) <==> fs[1].AllowedIn(1) && AllowedFrom(fs, 2);
  }

  lemma {:induction false} CodedAt(fs: seq<W.Times>, k: nat, m: nat)
    requires k <= m < |fs| && Writable(fs) && AllowedFrom(fs, k)
    ensures fs[m].AllowedIn(m) && CodedFrom(fs, k)[m - k] == Coded(fs[m], m)
    decreases m - k
  {
    if k < m {
      CodedAt(fs, k + 1, m);
    }
  }

  lemma FieldHolds(e: Entry, fs: seq<W.Times>, m: nat, v: byte)
    requires |fs| == FIELDS && m < FIELDS && Writable(fs) && AllowedFrom(fs, 0) && e.fields == CodedFrom(fs, 0)
    ensures Holds(e.fields[m], v) <==> fs[m].Includes(v)
  {
    CodedAt(fs, 0, m);
    CodedHolds(fs[m], m, v);
  }

  /** What is stored for a job is due when the job wants it. */
  lemma DueWhenWanted(j: W.Job, t: Tm)
    requires j.Fits() && AllowedFrom(j.Fields(), 0)
    ensures Due(EntryFor(j), t) <==> Wanted(j, t)
  {
    var e, fs := EntryFor(j), j.Fields();
    AllowedIs(j);
    FieldHolds(e, fs, 0, t.min);
    FieldHolds(e, fs, 1, t.hour);
    FieldHolds(e, fs, 2, t.mday);
    FieldHolds(e, fs, 3, t.mon);
    FieldHolds(e, fs, 4, t.wday);
  }

  lemma {:induction false} DueJoined(a: seq<Entry>, b: seq<Entry>, t: Tm)
    ensures DueCommands(a + b, t) == DueCommands(a, t) + DueCommands(b, t)
    decreases |b|
  {
    if b == [] {
      assert a + b == a;
    } else {
      assert (a + b)[..|a + b| - 1] == a + b[..|b| - 1] && (a + b)[|a + b| - 1] == b[|b| - 1];
      DueJoined(a, b[..|b| - 1], t);
    }
  }

  /** What is due is what the jobs want run. */
  lemma {:induction false} DueIsToRun(js: seq<W.Job>, k: nat, t: Tm)
    requires k <= |js| && forall m :: 0 <= m < |js| ==> js[m].Fits()
    ensures DueCommands(Stored(js, k), t) == ToRun(js, k, t)
    decreases |js| - k
  {
    if k < |js| {
      var next := k + 1;
      DueIsToRun(js, next, t);
      AllowedIs(js[k]);
      if js[k].Allowed() {
        var e := EntryFor(js[k]);
        DueWhenWanted(js[k], t);
        DueJoined([e], Stored(js, next), t);
        OneDue(e, t);
      } else {
        assert [] + Stored(js, next) == Stored(js, next);
        assert [] + ToRun(js, next, t) == ToRun(js, next, t);
      }
    }
  }

  lemma OneDue(e: Entry, t: Tm)
    ensures DueCommands([e], t) == if Due(e, t) then [e.command] else []
  {
    var none: seq<Entry> := [];
    assert [e][..0] == none && DueCommands(none, t) == [];
  }

  lemma {:induction false} SomethingToRun(js: seq<W.Job>, k: nat, t: Tm)
    requires k <= |js|
    ensures ToRun(js, k, t) != [] <==> exists m :: k <= m < |js| && Wanted(js[m], t)
    decreases |js| - k
  {
    if k < |js| {
      SomethingToRun(js, k + 1, t);
    }
  }

  lemma DueIffWanted(js: seq<W.Job>, tail: Text, t: Tm)
    requires Writes(js, tail)
    ensures DueCommands(Table(Whole(js, tail)), t) == ToRun(js, 0, t)
    ensures AnyDue(Table(Whole(js, tail)), t) <==> SomeWanted(js, t)
  {
    var zero := 0;
    ReadsWhatIsWritten(js, tail, zero);
    DueIsToRun(js, zero, t);
    SomethingToRun(js, zero, t);
    RunsWhatIsDue(Table(Whole(js, tail)), t);
  }

  /** A run of cron on a crontab as it is written, for as many passes as there are readings of the clock,
      none of which looks like a new date: each pass runs, in the order of the crontab, just the commands
      that want to be run at its time; passes come one after the other, and every minute after the start that some job wants
      and that they have come to is the time of one of them. */
  method Run(js: seq<W.Job>, tail: Text, tm: nat -> Tm, start: nat, clock: seq<nat>) returns (log: seq<Ran>)
    requires Writes(js, tail) && Steady(Table(Whole(js, tail)), tm, start, clock)
    ensures |log| == |clock| && (log != [] ==> log[0].time == start)
    ensures forall k :: 0 <= k < |log| ==> log[k].commands == ToRun(js, 0, tm(log[k].time))
    ensures forall j, k :: 0 <= j < k < |log| ==> log[j].time < log[k].time
    ensures forall x: nat :: log != [] && x % 60 == 0 && start < x <= log[|log| - 1].time && SomeWanted(js, tm(x)) ==>
              exists k :: 0 < k < |log| && log[k].time == x
  {
    ghost var es := Table(Whole(js, tail));
    log := MainLoop(Whole(js, tail), tm, start, clock);
    RunsWhatIsWanted(js, tail, tm, start, es, log);
    InOrder(log, es, tm, start);
    forall x: nat | log != [] && x % 60 == 0 && start < x <= log[|log| - 1].time && SomeWanted(js, tm(x))
      ensures exists k :: 0 < k < |log| && log[k].time == x
    {
      DueIffWanted(js, tail, tm(x));
      ComesTo(log, es, tm, start, x);
    }
  }

  lemma RunsWhatIsWanted(js: seq<W.Job>, tail: Text, tm: nat -> Tm, start: nat, es: seq<Entry>, log: seq<Ran>)
    requires Writes(js, tail) && es == Table(Whole(js, tail)) && AllRan(log, es, tm, start)
    ensures forall k :: 0 <= k < |log| ==> log[k].commands == ToRun(js, 0, tm(log[k].time))
  {
    forall k | 0 <= k < |log|
      ensures log[k].commands == ToRun(js, 0, tm(log[k].time))
    {
      assert RanAt(log[k], es, tm, start, k);
      DueIffWanted(js, tail, tm(log[k].time));
    }
  }

  lemma InOrder(log: seq<Ran>, es: seq<Entry>, tm: nat -> Tm, start: nat)
    requires AllRan(log, es, tm, start)
    ensures (log != [] ==> log[0].time == start) && forall j, k :: 0 <= j < k < |log| ==> log[j].time < log[k].time
  {
    assert log != [] ==> RanAt(log[0], es, tm, start, 0);
    forall j, k | 0 <= j < k < |log|
      ensures log[j].time < log[k].time
    {
      assert RanAt(log[j], es, tm, start, j) && RanAt(log[k], es, tm, start, k);
      RunsInOrder(es, tm, start, j, k);
    }
  }

  lemma ComesTo(log: seq<Ran>, es: seq<Entry>, tm: nat -> Tm, start: nat, x: nat)
    requires AllRan(log, es, tm, start) && log != [] && x % 60 == 0 && start < x <= log[|log| - 1].time && AnyDue(es, tm(x))
    ensures exists k :: 0 < k < |log| && log[k].time == x
  {
    var last := |log| - 1;
    assert RanAt(log[last], es, tm, start, last);
    var k := EveryDueMinute(es, tm, start, last, x);
    assert RanAt(log[k], es, tm, start, k);
    assert log[k].time == x;
  }

  /** The next run is at a full minute, one at which something is due unless it is an hour away, and not much more than
      an hour away; what looks like a new date is a clock that is more than an hour past it, or more than two hours before it. */
  lemma NewDateIs(es: seq<Entry>, tm: nat -> Tm, t: nat, clock: int)
    ensures var next := NextRun(es, tm, t);
      && t < next < t + 3660 && next % 60 == 0 && (AnyDue(es, tm(next)) || next >= t + 3600)
      && (Resyncs(next, clock) <==> clock > next + 3600 || clock < next - 7200)
  {
    FirstDueBy(es, tm, NextMinute(t), t + MAXSLEEP);
  }

  lemma {:induction false} FirstDueBy(es: seq<Entry>, tm: nat -> Tm, m: nat, limit: nat)
    ensures FirstDue(es, tm, m, limit) <= m || FirstDue(es, tm, m, limit) < limit + 60
    ensures AnyDue(es, tm(FirstDue(es, tm, m, limit))) || FirstDue(es, tm, m, limit) >= limit
    decreases limit - m
  {
    if m < limit && !AnyDue(es, tm(m)) {
      FirstDueBy(es, tm, m + 60, limit);
    }
  }

  /** For example: 30 4 * * * x runs x at 4:30 and at no other time of the day. */
  lemma HalfPastFour()
    ensures var j := W.Job(W.At(30), W.At(4), W.Always, W.Always, W.Always, ['x' as byte], []);
      && j.Fits() && j.Allowed() && j.ForShell() == ['x' as byte, '\n' as byte]
      && W.JobText(j) == ['3' as byte, '0' as byte, ' ' as byte, '4' as byte, ' ' as byte, '*' as byte, ' ' as byte,
                          '*' as byte, ' ' as byte, '*' as byte, ' ' as byte, 'x' as byte]
      && forall t: Tm :: Wanted(j, t) <==> t.hour == 4 && t.min == 30
  {
    var j := W.Job(W.At(30), W.At(4), W.Always, W.Always, W.Always, ['x' as byte], []);
    var fs := j.Fields();
    assert W.NumberText(30 / 10) == ['3' as byte] && W.NumberText(30) == ['3' as byte, '0' as byte] && W.NumberText(4) == ['4' as byte];
    assert W.FieldsText(fs, 5) == [];
    assert W.FieldsText(fs, 4) == ['*' as byte, ' ' as byte];
    assert W.FieldsText(fs, 3) == ['*' as byte, ' ' as byte] + W.FieldsText(fs, 4);
    assert W.FieldsText(fs, 2) == ['*' as byte, ' ' as byte] + W.FieldsText(fs, 3);
    assert W.FieldsText(fs, 1) == ['4' as byte, ' ' as byte] + W.FieldsText(fs, 2);
    assert W.FieldsText(fs, 0) == ['3' as byte, '0' as byte, ' ' as byte] + W.FieldsText(fs, 1);
    assert W.CommandText(j) == ['x' as byte];
  }

  /** For example: c%b is written for a command that reads the line b. */
  lemma WithInput()
    ensures var j := W.Job(W.Always, W.Always, W.Always, W.Always, W.Always, ['c' as byte], [['b' as byte]]);
      && j.Fits() && W.CommandText(j) == ['c' as byte, '%' as byte, 'b' as byte]
      && j.ForShell() == ['c' as byte] + W.HereDocument() + ['\n' as byte, 'b' as byte, '\n' as byte] + W.Terminator() + ['\n' as byte]
  {
    var input: seq<Text> := [['b' as byte]];
    assert W.AfterEach('%' as byte, input, 0) == [] && W.AfterEach('\n' as byte, input, 0) == [];
    assert W.AfterEach('%' as byte, input, 1) == ['%' as byte, 'b' as byte];
    assert W.AfterEach('\n' as byte, input, 1) == ['\n' as byte, 'b' as byte];
  }
}
