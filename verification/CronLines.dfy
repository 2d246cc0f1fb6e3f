/** cron reads a crontab as it is written, line by line. */
module CronLines {
  import opened Common
  import opened Crontab
  import opened CrontabReader
  import opened CronReading
  import W = CronWritten

  lemma {:induction false} EndOfLine(text: Text, i: nat, t: seq<byte>)
    requires BytesAt(text, i, t + ['\n' as byte]) && '\n' as byte !in t
    ensures i + |t| < |text| && LineEnd(text, i) == i + |t|
    decreases |t|
  {
    if t != [] {
      assert t + ['\n' as byte] == [t[0]] + (t[1..] + ['\n' as byte]);
      Split(text, i, [t[0]], t[1..] + ['\n' as byte]);
      ByteAt(text, i, [t[0]], 0);
      EndOfLine(text, i + 1, t[1..]);
    } else {
      ByteAt(text, i, t + ['\n' as byte], 0);
    }
  }

  lemma {:induction false} NoEndOfLine(text: Text, i: nat)
    requires i <= |text| && '\n' as byte !in text[i..]
    ensures LineEnd(text, i) == |text|
    decreases |text| - i
  {
    if i < |text| {
      assert text[i..][0] == text[i] && forall b :: b in text[i + 1..] ==> b in text[i..];
      NoEndOfLine(text, i + 1);
    }
  }

  /** What is stored for a job. */
  function EntryFor(j: W.Job): (e: Entry)
    requires j.Fits() && AllowedFrom(j.Fields(), 0)
    ensures e.command == j.ForShell()
  {
    W.JobPlain(j);
    ReadsCommand(W.CommandText(j), j);
    Line(CodedFrom(j.Fields(), 0), CommandOf(W.CommandText(j)))
  }

  function OnLineFor(j: W.Job): OnLine
    requires j.Fits()
  {
    if AllowedFrom(j.Fields(), 0) then Some(EntryFor(j)) else Nothing
  }

  /** A line gives the entry for its job, or none if some number is out of bounds. */
  lemma ReadJob(text: Text, i: nat, j: W.Job)
    requires j.Fits() && BytesAt(text, i, W.JobText(j) + ['\n' as byte])
    ensures LineEnd(text, i) == i + |W.JobText(j)| < |text| && ParseLine(text, i) == OnLineFor(j)
  {
    W.JobPlain(j);
    EndOfLine(text, i, W.JobText(j));
    Split(text, i, W.JobText(j), ['\n' as byte]);
    var e := i + |W.FieldsText(j.Fields(), 0)|;
    ReadFieldsFrom(text, i, j.Fields(), 0, [], W.CommandText(j), e);
    Split(text, i, W.FieldsText(j.Fields(), 0), W.CommandText(j));
    SameEnd(text, i, e);
    assert Raw(text, e) == W.CommandText(j);
    if AllowedFrom(j.Fields(), 0) {
      assert [] + CodedFrom(j.Fields(), 0) == CodedFrom(j.Fields(), 0);
    }
  }

  function Stored(js: seq<W.Job>, k: nat): seq<Entry>
    requires k <= |js| && forall i :: 0 <= i < |js| ==> js[i].Fits()
    decreases |js| - k
  {
    if k == |js| then []
    else (if AllowedFrom(js[k].Fields(), 0) then [EntryFor(js[k])] else []) + Stored(js, k + 1)
  }

  /** The jobs from k on, one to a line, and the start of a line that does not end. */
  lemma {:induction false} ReadJobs(text: Text, i: nat, js: seq<W.Job>, k: nat, tail: seq<byte>)
    requires k <= |js| && (forall m :: 0 <= m < |js| ==> js[m].Fits()) && '\n' as byte !in tail
    requires i <= |text| && text[i..] == W.JobsText(js, k) + tail
    ensures EntriesOn(LinesFrom(text, i)) == Stored(js, k)
    decreases |js| - k
  {
    if k == |js| {
      assert text[i..] == tail;
      NoEndOfLine(text, i);
    } else {
      var next := k + 1;
      var line, more := W.JobText(js[k]) + ['\n' as byte], W.JobsText(js, next) + tail;
      JobsTextNext(js, k, line, tail, more);
      var e := FirstJob(text, i, js[k], line, more);
      ReadJobs(text, e, js, next, tail);
    }
  }

  lemma JobsTextNext(js: seq<W.Job>, k: nat, line: seq<byte>, tail: seq<byte>, more: seq<byte>)
    requires k < |js| && (forall m :: 0 <= m < |js| ==> js[m].Fits())
    requires line == W.JobText(js[k]) + ['\n' as byte] && more == W.JobsText(js, k + 1) + tail
    ensures W.JobsText(js, k) + tail == line + more
  {
  }

  /** One job, and what is after its line. */
  lemma FirstJob(text: Text, i: nat, j: W.Job, line: seq<byte>, more: seq<byte>) returns (e: nat)
    requires j.Fits() && line == W.JobText(j) + ['\n' as byte] && i <= |text| && text[i..] == line + more
    ensures i < e <= |text| && text[e..] == more
    ensures EntriesOn(LinesFrom(text, i)) == (if AllowedFrom(j.Fields(), 0) then [EntryFor(j)] else []) + EntriesOn(LinesFrom(text, e))
  {
    e := i + |line|;
    LineAt(text, i, e, line, more);
    ReadJob(text, i, j);
    LinesFromNext(text, i, e, OnLineFor(j));
  }

  lemma LineAt(text: Text, i: nat, e: nat, line: seq<byte>, more: seq<byte>)
    requires i <= |text| && text[i..] == line + more && e == i + |line|
    ensures e <= |text| && BytesAt(text, i, line) && text[e..] == more
  {
    assert text[i..][..|line|] == line && text[i..][..|line|] == text[i..e];
    assert text[i..][|line|..] == more && text[i..][|line|..] == text[e..];
  }

  lemma LinesFromNext(text: Text, i: nat, e: nat, l: OnLine)
    requires i <= |text| && LineEnd(text, i) + 1 == e <= |text| && ParseLine(text, i) == l
    ensures EntriesOn(LinesFrom(text, i)) == (if l.Some? then [l.entry] else []) + EntriesOn(LinesFrom(text, e))
  {
    var rest := LinesFrom(text, e);
    assert LinesFrom(text, i) == [l] + rest;
    assert ([l] + rest)[1..] == rest;
  }

  /** A crontab with a line for each job, and perhaps the start of a line that does not end. */
  function Whole(js: seq<W.Job>, tail: Text): (text: Text)
    requires forall m :: 0 <= m < |js| ==> js[m].Fits()
    ensures text == W.JobsText(js, 0) + tail
  {
    W.JobsAreText(js, 0);
    W.JobsText(js, 0) + tail
  }

  /** It is read as it is written: the table holds the jobs whose numbers are in bounds, in order. */
  lemma ReadsWhatIsWritten(js: seq<W.Job>, tail: Text, from: nat)
    requires (forall m :: 0 <= m < |js| ==> js[m].Fits()) && '\n' as byte !in tail && from == 0
    ensures Table(Whole(js, tail)) == Stored(js, from)
  {
    var text := Whole(js, tail);
    assert text[from..] == text;
    ReadJobs(text, from, js, from, tail);
  }
}
