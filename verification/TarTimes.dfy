/** tar: the stack of directories, kept as one path and an array of times. */
module TarTimes {
  import opened DirStack

  const NAMSIZ := 100
  const NTIM := NAMSIZ / 2 + 1
  const NUL: char := '\0'

  function At(s: string, i: nat): (c: char)
    requires NUL !in s && i <= |s|
    ensures c == NUL <==> i == |s|
  {
    if i < |s| then (assert s[i] in s; s[i]) else NUL
  }

  /** What a directory is called when its time is set: without the slash. */
  function Bare(l: Level): Level {
    if l.path == "" then l else Level(l.path[..|l.path| - 1], l.time)
  }

  function Bares(levels: seq<Level>): (r: seq<Level>)
    ensures |r| == |levels|
  {
    seq(|levels|, i requires 0 <= i < |levels| => Bare(levels[i]))
  }

  function StackOf(cur: string, mtime: seq<int>): (stack: seq<Level>)
    requires |Dirs(cur)| < |mtime|
    ensures |stack| == |Dirs(cur)| && Paths(stack) == Dirs(cur)
  {
    seq(|Dirs(cur)|, i requires 0 <= i < |Dirs(cur)| => Level(Dirs(cur)[i], mtime[i + 1]))
  }

  /** One character more. */
  lemma DirsNext(s: string, i: nat)
    requires i < |s|
    ensures Dirs(s[..i + 1]) == Dirs(s[..i]) + if s[i] == '/' then [s[..i + 1]] else []
    ensures |Dirs(s[..i + 1])| <= |Dirs(s)|
    ensures s[i] == '/' ==> Dirs(s)[|Dirs(s[..i])|] == s[..i + 1]
  {
    assert s[..i + 1][..i] == s[..i];
    PrefixAt(s, i + 1);
  }

  lemma TimedNext(levels: seq<Level>, n: nat, k: nat)
    requires n <= k < |levels|
    ensures Timed(levels[n..k + 1]) == Timed(levels[n..k]) + if levels[k].time >= 0 then [levels[k]] else []
  {
    assert levels[n..k + 1][..k - n] == levels[n..k];
  }

  class DirTimes {
    const dirstack: array<char>
    const mtime: array<int>
    ghost var cur: string

    ghost predicate Holds(s: string)
      reads dirstack
    {
      && dirstack.Length == NAMSIZ && |s| < NAMSIZ && NUL !in s
      && dirstack[..|s|] == s && dirstack[|s|] == NUL
    }

    ghost predicate Valid()
      reads this, dirstack
    {
      var names: object, times: object := dirstack, mtime;
      Holds(cur) && mtime.Length == NTIM && |Dirs(cur)| < NTIM && names != times
    }

    ghost function Stack(): seq<Level>
      requires Valid()
      reads this, dirstack, mtime
    {
      StackOf(cur, mtime[..])
    }

    constructor ()
      ensures Valid() && Stack() == [] && fresh(dirstack) && fresh(mtime)
    {
      dirstack := new char[NAMSIZ](_ => NUL);
      mtime := new int[NTIM](_ => 0);
      cur := "";
    }

    /** The common beginning of the path on the stack and the new one. */
    method CommonPrefix(name: string) returns (p: nat, ndir: nat)
      requires Valid() && NUL !in name
      ensures p <= |cur| && p <= |name| && cur[..p] == name[..p] && (p < |cur| && p < |name| ==> cur[p] != name[p])
      ensures ndir == |Dirs(cur[..p])| == Shared(Dirs(cur), Dirs(name))
    {
      p, ndir := 0, 0;
      while dirstack[p] == At(name, p) && dirstack[p] != NUL
        invariant p <= |cur| && p <= |name| && cur[..p] == name[..p] && ndir == |Dirs(cur[..p])|
        decreases |cur| - p
      {
        assert p < |cur|;
        DirsNext(cur, p);
        if dirstack[p] == '/' {
          ndir := ndir + 1;
        }
        p := p + 1;
      }
      assert p < |cur| ==> cur[p] == dirstack[p];
      SharedIsCommon(cur, name, p);
    }

    /** What dirstack holds at i. */
    lemma ByteOf(s: string, i: nat)
      requires Holds(s) && i <= |s|
      ensures dirstack[i] == NUL <==> i == |s|
      ensures i < |s| ==> dirstack[i] == s[i]
    {
      if i < |s| {
        assert dirstack[..|s|][i] == s[i] && s[i] in s;
      }
    }

    /** The string in dirstack, up to its NUL. */
    method Path(ghost s: string) returns (path: string)
      requires Holds(s)
      ensures path == s
    {
      var i := 0;
      ByteOf(s, i);
      while dirstack[i] != NUL
        invariant 0 <= i <= |s| && (dirstack[i] == NUL <==> i == |s|)
        decreases |s| - i
      {
        i := i + 1;
        ByteOf(s, i);
      }
      path := dirstack[..i];
    }

    /** The path up to the slash before p, which is put aside for the moment. */
    method UpTo(p: nat) returns (path: string)
      requires Valid() && 0 < p <= |cur| && cur[p - 1] == '/'
      modifies dirstack
      ensures Valid() && path == cur[..p - 1]
    {
      dirstack[p - 1] := NUL;
      path := Path(cur[..p - 1]);
      dirstack[p - 1] := '/';
    }

    /** Unwinds the stack from p on, setting the times. */
    method Unwind(savp: nat, savndir: nat) returns (log: seq<Level>)
      requires Valid() && savp <= |cur| && savndir == |Dirs(cur[..savp])|
      modifies dirstack
      ensures Valid() && savndir <= |Stack()| && log == Bares(Timed(Stack()[savndir..]))
    {
      var p, ndir := savp, savndir;
      ghost var stack := Stack();
      log := [];
      PrefixAt(cur, p);
      ByteOf(cur, p);
      while dirstack[p] != NUL
        invariant Valid() && savp <= p <= |cur| && savndir <= ndir <= |stack| && ndir == |Dirs(cur[..p])|
        invariant log == Bares(Timed(stack[savndir..ndir])) && (dirstack[p] == NUL <==> p == |cur|)
        decreases |cur| - p
      {
        var set_;
        ndir, set_ := UnwindByte(p, ndir, savndir, stack);
        log := log + set_;
        p := p + 1;
        ByteOf(cur, p);
      }
      assert cur[..p] == cur;
      assert stack[savndir..ndir] == stack[savndir..];
    }

    /** One character; after a slash, the time of the directory it ends is set if there is one. */
    method UnwindByte(p: nat, ndir0: nat, ghost n: nat, ghost stack: seq<Level>) returns (ndir: nat, log: seq<Level>)
      requires Valid() && p < |cur| && n <= ndir0 == |Dirs(cur[..p])| && stack == Stack()
      modifies dirstack
      ensures Valid() && ndir0 <= ndir <= |stack| && ndir == |Dirs(cur[..p + 1])|
      ensures Bares(Timed(stack[n..ndir])) == Bares(Timed(stack[n..ndir0])) + log
    {
      DirsNext(cur, p);
      ByteOf(cur, p);
      ndir, log := ndir0, [];
      if dirstack[p] == '/' {
        ndir := ndir + 1;
        TimedNext(stack, n, ndir0);
        if mtime[ndir] >= 0 {
          var path := UpTo(p + 1);
          assert cur[..p + 1][..p] == cur[..p];
          log := [Level(path, mtime[ndir])];
          assert Bare(stack[ndir0]) == log[0];
        }
      }
    }

    /** Appends the rest of the new path; what is new has no time yet. */
    method Append(name: string, savp: nat, savndir: nat) returns (ndir: nat)
      requires Valid() && NUL !in name && |name| < NAMSIZ && |Dirs(name)| < NTIM
      requires savp <= |cur| && savp <= |name| && cur[..savp] == name[..savp] && savndir == |Dirs(name[..savp])|
      modifies dirstack, mtime, this`cur
      ensures Valid() && cur == name && ndir == |Dirs(name)|
      ensures forall k :: 0 < k <= |Dirs(name)| ==> mtime[k] == if k <= savndir then old(mtime[k]) else -1
    {
      var p := savp;
      ndir := savndir;
      while p < |name|
        invariant savp <= p <= |name| && dirstack[..p] == name[..p] && savndir <= ndir == |Dirs(name[..p])|
        invariant forall k :: 0 < k < NTIM ==> mtime[k] == if savndir < k <= ndir then -1 else old(mtime[k])
      {
        DirsNext(name, p);
        dirstack[p] := name[p];
        if name[p] == '/' {
          ndir := ndir + 1;
          mtime[ndir] := -1;
        }
        p := p + 1;
      }
      dirstack[p] := NUL;
      cur := name;
      assert name[..p] == name;
    }

    /** dodirtimes: the explicit stack is popped and pushed, and the times of what is popped set. */
    method DoDirTimes(e: Entry) returns (log: seq<Level>)
      requires Valid() && IsDir(e) && NUL !in e.name && |e.name| < NAMSIZ && |Dirs(e.name)| < NTIM
      modifies this, dirstack, mtime
      ensures Valid() && cur == e.name
      ensures log == Bares(Popped(old(Stack()), e))
      ensures Stack() == Push(old(Stack()), e)
    {
      ghost var stack, was := Stack(), mtime[..];
      var savp, savndir;
      savp, savndir := CommonPrefix(e.name);
      log := Unwind(savp, savndir);
      var ndir := Append(e.name, savp, savndir);
      mtime[ndir] := e.time;
      PushedIs(stack, was, mtime[..], old(cur), e);
    }

    /** Member k of an archive, of which the last is the empty name. */
    method ExtractMember(es: seq<Entry>, k: nat, e: Entry) returns (log: seq<Level>)
      requires Valid() && k <= |es| && e == Ended(es)[k] && (e.name == "" || Named(e)) && Stack() == StackBefore(es, k)
      modifies this, dirstack, mtime
      ensures Valid() && log == Bares(SetBy(es, k)) && Stack() == StackBefore(es, k + 1)
    {
      SetNext(es, k);
      log := [];
      if IsDir(e) {
        log := DoDirTimes(e);
      }
    }

    /** A whole archive: the times set when each of its members is extracted. */
    method ExtractAll(es: seq<Entry>) returns (logs: seq<seq<Level>>)
      requires Valid() && cur == "" && forall e :: e in es ==> Named(e)
      modifies this, dirstack, mtime
      ensures Valid() && |logs| == |es| + 1 && AllSet(es, logs)
    {
      logs := [];
      var k := 0;
      while k < |es|
        invariant 0 <= k <= |es| && |logs| == k && Valid() && Stack() == StackBefore(es, k) && AllSet(es, logs)
      {
        assert es[k] in es;
        var log := ExtractMember(es, k, es[k]);
        OneMoreSet(es, logs, log);
        logs := logs + [log];
        k := k + 1;
      }
      var last := ExtractMember(es, k, Entry("", 0));
      OneMoreSet(es, logs, last);
      logs := logs + [last];
    }
  }

  /** The stack after a push, on the times. */
  lemma PushedIs(stack: seq<Level>, was: seq<int>, now: seq<int>, cur: string, e: Entry)
    requires |Dirs(cur)| < |was| && |Dirs(e.name)| < |now| && |was| == |now| && stack == StackOf(cur, was)
    requires forall k :: 0 < k < |Dirs(e.name)| ==>
      now[k] == if k <= Shared(Dirs(cur), Dirs(e.name)) then was[k] else -1
    requires now[|Dirs(e.name)|] == e.time
    ensures StackOf(e.name, now) == Push(stack, e)
  {
  }

  /** What is on the stack before member k. */
  function StackBefore(es: seq<Entry>, k: nat): seq<Level>
    requires k <= |es| + 1
  {
    StackAfter(Ended(es)[..k])
  }

  /** Each log has the times that are to be set at that member. */
  predicate AllSet(es: seq<Entry>, logs: seq<seq<Level>>) {
    |logs| <= |es| + 1 && forall k :: 0 <= k < |logs| ==> logs[k] == Bares(SetBy(es, k))
  }

  lemma OneMoreSet(es: seq<Entry>, logs: seq<seq<Level>>, log: seq<Level>)
    requires AllSet(es, logs) && |logs| <= |es| && log == Bares(SetBy(es, |logs|))
    ensures AllSet(es, logs + [log])
  {
  }

  predicate Named(e: Entry) {
    e.name != "" && NUL !in e.name && |e.name| < NAMSIZ && |Dirs(e.name)| < NTIM
  }

  /** One member of an archive, and what is done for it. */
  lemma SetNext(es: seq<Entry>, k: nat)
    requires k <= |es|
    ensures var e, stack := Ended(es)[k], StackBefore(es, k);
      && e == (if k < |es| then es[k] else Entry("", 0))
      && (IsDir(e) ==> SetBy(es, k) == Popped(stack, e))
      && (!IsDir(e) ==> SetBy(es, k) == [] && Bares(SetBy(es, k)) == [])
      && StackBefore(es, k + 1) == if IsDir(e) then Push(stack, e) else stack
  {
    assert Ended(es)[..k + 1][..k] == Ended(es)[..k];
  }
}
