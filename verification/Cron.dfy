/** cron: the loop that sleeps until something is due and runs it.  Times are in seconds. */
module Cron {
  import opened Common
  import opened Crontab
  import opened CrontabReader

  const MAXSLEEP: int := 3600

  /** ((t + 60) / 60) * 60 : the next full minute. */
  function NextMinute(t: nat): (m: nat)
    ensures m % 60 == 0 && t < m <= t + 60
  {
    (t + 60) / 60 * 60
  }

  /** The first full minute from m on at which something is due; not before the limit, if there is
      none before it. */
  function FirstDue(es: seq<Entry>, tm: nat -> Tm, m: nat, limit: nat): (e: nat)
    ensures e >= m && (m % 60 == 0 ==> e % 60 == 0)
    decreases limit - m
  {
    if m >= limit || AnyDue(es, tm(m)) then m else FirstDue(es, tm, m + 60, limit)
  }

  /** When the loop runs next after it ran at t. */
  function NextRun(es: seq<Entry>, tm: nat -> Tm, t: nat): (e: nat)
    ensures e > t && e % 60 == 0
  {
    FirstDue(es, tm, NextMinute(t), t + MAXSLEEP)
  }

  /** When it runs for the k-th time. */
  function RunTime(es: seq<Entry>, tm: nat -> Tm, start: nat, k: nat): nat {
    if k == 0 then start else NextRun(es, tm, RunTime(es, tm, start, k - 1))
  }

  // ---- Every minute that is due, once ----

  lemma {:induction false} NothingBetween(es: seq<Entry>, tm: nat -> Tm, m: nat, limit: nat, x: nat)
    requires m % 60 == 0 && x % 60 == 0 && m <= x < FirstDue(es, tm, m, limit)
    ensures !AnyDue(es, tm(x))
    decreases limit - m
  {
    if m + 60 <= x {
      NothingBetween(es, tm, m + 60, limit, x);
    }
  }

  /** Between two runs no minute is due. */
  lemma NothingMissed(es: seq<Entry>, tm: nat -> Tm, t: nat, x: nat)
    requires x % 60 == 0 && t < x < NextRun(es, tm, t)
    ensures !AnyDue(es, tm(x))
  {
    NothingBetween(es, tm, NextMinute(t), t + MAXSLEEP, x);
  }

  lemma {:induction false} RunsInOrder(es: seq<Entry>, tm: nat -> Tm, start: nat, j: nat, k: nat)
    requires j < k
    ensures RunTime(es, tm, start, j) < RunTime(es, tm, start, k)
  {
    if j < k - 1 {
      RunsInOrder(es, tm, start, j, k - 1);
    }
  }

  /** A minute after the start that is due, and that the runs have come to, is one of them. */
  lemma {:induction false} EveryDueMinute(es: seq<Entry>, tm: nat -> Tm, start: nat, n: nat, x: nat) returns (k: nat)
    requires x % 60 == 0 && start < x <= RunTime(es, tm, start, n) && AnyDue(es, tm(x))
    ensures 0 < k <= n && RunTime(es, tm, start, k) == x
    ensures forall j: nat :: j != k ==> RunTime(es, tm, start, j) != x
  {
    if x > RunTime(es, tm, start, n - 1) {
      k := n;
      if x < RunTime(es, tm, start, n) {
        NothingMissed(es, tm, RunTime(es, tm, start, n - 1), x);
      }
    } else {
      k := EveryDueMinute(es, tm, start, n - 1, x);
    }
    forall j: nat | j != k
      ensures RunTime(es, tm, start, j) != x
    {
      if j < k {
        RunsInOrder(es, tm, start, j, k);
      } else {
        RunsInOrder(es, tm, start, k, j);
      }
    }
  }

  /** The runs come to every time. */
  lemma {:induction false} RunsGoOn(es: seq<Entry>, tm: nat -> Tm, start: nat, n: nat)
    ensures RunTime(es, tm, start, n) >= start + n
  {
    if n > 0 {
      RunsGoOn(es, tm, start, n - 1);
    }
  }

  // ---- The loop ----

  /** cron takes a time that is far from the next run to mean that the date was set. */
  predicate Resyncs(next: nat, clock: int) {
    next - clock < -MAXSLEEP || next - clock > 2 * MAXSLEEP
  }

  /** figureeventwait: how long to sleep, and the time to count from; clock is what time() gives. */
  method FigureEventWait(list: seq<byte>, tm: nat -> Tm, curtime: nat, clock: nat, ghost es: seq<Entry>)
    returns (i: int, itime: int)
    requires list == EncodedList(es)
    ensures !Resyncs(NextRun(es, tm, curtime), clock) ==> i >= 0 && itime + i == NextRun(es, tm, curtime)
    ensures Resyncs(NextRun(es, tm, curtime), clock) ==> itime == clock && i == 60 - clock % 60
  {
    var eventtime: nat := NextMinute(curtime);
    var found := false;
    while eventtime < curtime + MAXSLEEP && !found
      invariant eventtime % 60 == 0
      invariant found ==> AnyDue(es, tm(eventtime))
      invariant FirstDue(es, tm, eventtime, curtime + MAXSLEEP) == NextRun(es, tm, curtime)
      decreases curtime + MAXSLEEP - eventtime, !found
    {
      found := FindDue(list, tm(eventtime), es);
      if !found {
        eventtime := eventtime + 60;
      }
    }
    i := eventtime - clock;
    if i < -MAXSLEEP || i > 2 * MAXSLEEP {
      itime := clock;
      i := 60 - clock % 60;
      return;
    }
    if i <= 0 {
      i := 0;
    }
    itime := eventtime - i;
  }

  datatype Ran = Ran(time: nat, commands: seq<seq<byte>>)

  /** What the k-th pass does. */
  predicate RanAt(r: Ran, es: seq<Entry>, tm: nat -> Tm, start: nat, k: nat) {
    RanDue(r, es, tm, RunTime(es, tm, start, k))
  }

  /** All that is due at a time was run, and nothing else. */
  predicate RanDue(r: Ran, es: seq<Entry>, tm: nat -> Tm, t: nat) {
    r.time == t && r.commands == DueCommands(es, tm(t))
  }

  predicate AllRan(log: seq<Ran>, es: seq<Entry>, tm: nat -> Tm, start: nat) {
    forall k :: 0 <= k < |log| ==> RanAt(log[k], es, tm, start, k)
  }

  lemma OneMoreRun(log: seq<Ran>, r: Ran, es: seq<Entry>, tm: nat -> Tm, start: nat)
    requires AllRan(log, es, tm, start) && RanDue(r, es, tm, RunTime(es, tm, start, |log|))
    ensures AllRan(log + [r], es, tm, start)
  {
  }

  /** No reading of the clock looks like a new date. */
  ghost predicate Steady(es: seq<Entry>, tm: nat -> Tm, start: nat, clock: seq<nat>) {
    forall k :: 0 <= k < |clock| ==> !Resyncs(NextRun(es, tm, RunTime(es, tm, start, k)), clock[k])
  }

  /** The main loop, for as many passes as there are readings of the clock: whatever they are, if
      none of them looks like a new date, the k-th pass runs what is due at the k-th run time. */
  method MainLoop(text: Text, tm: nat -> Tm, start: nat, clock: seq<nat>) returns (log: seq<Ran>)
    requires Steady(Table(text), tm, start, clock)
    ensures |log| == |clock| && AllRan(log, Table(text), tm, start)
  {
    var list := ReadCrontab(text);
    log := Loop(list, tm, start, clock, Table(text));
  }

  method Loop(list: seq<byte>, tm: nat -> Tm, start: nat, clock: seq<nat>, ghost es: seq<Entry>) returns (log: seq<Ran>)
    requires list == EncodedList(es) && Steady(es, tm, start, clock)
    ensures |log| == |clock| && AllRan(log, es, tm, start)
  {
    var itime: int, sleeptime: int := start, 0;
    log := [];
    var k: nat := 0;
    while k < |clock|
      invariant k == |log| <= |clock| && sleeptime >= 0 && itime + sleeptime == RunTime(es, tm, start, k)
      invariant AllRan(log, es, tm, start)
    {
      if sleeptime > 0 {
        itime := itime + sleeptime;
      }
      var r;
      r, sleeptime, itime := Pass(list, tm, itime, clock[k], es);
      OneMoreRun(log, r, es, tm, start);
      log := log + [r];
      k := k + 1;
    }
  }

  /** Awake at a time: what is due then is run, and the next sleep is worked out. */
  method Pass(list: seq<byte>, tm: nat -> Tm, t: nat, clock: nat, ghost es: seq<Entry>)
    returns (r: Ran, sleeptime: int, itime: int)
    requires list == EncodedList(es)
    ensures RanDue(r, es, tm, t)
    ensures !Resyncs(NextRun(es, tm, t), clock) ==> sleeptime >= 0 && itime + sleeptime == NextRun(es, tm, t)
  {
    var commands := RunMatches(list, tm(t), es);
    r := Ran(t, commands);
    sleeptime, itime := FigureEventWait(list, tm, t, clock, es);
  }
}
