/** tar: when to set the time of an extracted directory.  The directories that are still being
    filled form a stack; this is what the stack does. */
module DirStack {

  /** A directory, with the slash that ends its name, and its recorded time; negative if the
      archive has no entry for it. */
  datatype Level = Level(path: string, time: int)

  datatype Entry = Entry(name: string, time: int)

  /** The directories a path goes through: all its beginnings that end with a slash. */
  function Dirs(s: string): seq<string> {
    if s == "" then []
    else Dirs(s[..|s| - 1]) + if s[|s| - 1] == '/' then [s] else []
  }

  function Paths(stack: seq<Level>): (ps: seq<string>)
    ensures |ps| == |stack|
  {
    seq(|stack|, i requires 0 <= i < |stack| => stack[i].path)
  }

  /** How many directories two paths share. */
  function Shared(a: seq<string>, b: seq<string>): (n: nat)
    ensures n <= |a| && n <= |b| && a[..n] == b[..n]
    ensures n < |a| && n < |b| ==> a[n] != b[n]
  {
    if a == [] || b == [] || a[0] != b[0] then 0
    else
      var n := Shared(a[1..], b[1..]);
      assert a[..n + 1] == [a[0]] + a[1..][..n] && b[..n + 1] == [b[0]] + b[1..][..n];
      n + 1
  }

  /** The next directory on the tape: what it does not lie beneath is popped. */
  function Push(stack: seq<Level>, e: Entry): (s: seq<Level>)
    ensures |s| == |Dirs(e.name)|
  {
    var ds := Dirs(e.name);
    var n := Shared(Paths(stack), ds);
    seq(|ds|, i requires 0 <= i < |ds| =>
      if i == |ds| - 1 then Level(ds[i], e.time)
      else if i < n then stack[i] else Level(ds[i], -1))
  }

  /** The times set for the popped ones. */
  function Popped(stack: seq<Level>, e: Entry): seq<Level> {
    Timed(stack[Shared(Paths(stack), Dirs(e.name))..])
  }

  function Timed(levels: seq<Level>): seq<Level> {
    if levels == [] then []
    else Timed(levels[..|levels| - 1]) + if levels[|levels| - 1].time >= 0 then [levels[|levels| - 1]] else []
  }

  /** Directories are archived with a slash after their names; the empty name ends the archive. */
  predicate IsDir(e: Entry) {
    e.name == "" || e.name[|e.name| - 1] == '/'
  }

  function StackAfter(es: seq<Entry>): seq<Level> {
    if es == [] then []
    else
      var stack, last := StackAfter(es[..|es| - 1]), es[|es| - 1];
      if IsDir(last) then Push(stack, last) else stack
  }

  /** The times set when the last of these entries is extracted. */
  function SetAt(es: seq<Entry>): seq<Level>
    requires es != []
  {
    var last := es[|es| - 1];
    if IsDir(last) then Popped(StackAfter(es[..|es| - 1]), last) else []
  }

  // ---- Paths ----

  lemma {:induction false} DirsOf(s: string)
    ensures forall d :: d in Dirs(s) <==> d <= s && d != "" && d[|d| - 1] == '/'
    ensures forall i, j :: 0 <= i < j < |Dirs(s)| ==> |Dirs(s)[i]| < |Dirs(s)[j]|
  {
    if s != "" {
      var front := s[..|s| - 1];
      DirsOf(front);
      forall d
        ensures d in Dirs(s) <==> d <= s && d != "" && d[|d| - 1] == '/'
      {
        if d <= s && d != s {
          assert d <= front;
        }
      }
      forall i, j | 0 <= i < j < |Dirs(s)|
        ensures |Dirs(s)[i]| < |Dirs(s)[j]|
      {
        assert Dirs(s)[i] in Dirs(front);
      }
    }
  }

  /** The directories of a beginning of a path come first. */
  lemma {:induction false} DirsOfPrefix(s: string, i: nat)
    requires i <= |s|
    ensures |Dirs(s[..i])| <= |Dirs(s)| && Dirs(s)[..|Dirs(s[..i])|] == Dirs(s[..i])
    ensures forall k :: |Dirs(s[..i])| <= k < |Dirs(s)| ==> |Dirs(s)[k]| > i
    decreases |s|
  {
    if i == |s| {
      assert s[..i] == s;
    } else {
      var front := s[..|s| - 1];
      DirsOfPrefix(front, i);
      assert front[..i] == s[..i];
    }
  }

  lemma SharedAt(a: seq<string>, b: seq<string>, k: nat)
    requires k < Shared(a, b)
    ensures a[k] == b[k]
  {
    var n := Shared(a, b);
    assert a[..n][k] == b[..n][k];
  }

  lemma {:induction false} SharedAtLeast(a: seq<string>, b: seq<string>, n: nat)
    requires n <= |a| && n <= |b| && forall k :: 0 <= k < n ==> a[k] == b[k]
    ensures n <= Shared(a, b)
  {
    if n > 0 {
      SharedAtLeast(a[1..], b[1..], n - 1);
    }
  }

  /** Two paths share the directories of their common beginning. */
  lemma SharedIsCommon(a: string, b: string, i: nat)
    requires i <= |a| && i <= |b| && a[..i] == b[..i]
    requires i < |a| && i < |b| ==> a[i] != b[i]
    ensures Shared(Dirs(a), Dirs(b)) == |Dirs(a[..i])|
  {
    var n, m := Shared(Dirs(a), Dirs(b)), |Dirs(a[..i])|;
    PrefixAt(a, i);
    PrefixAt(b, i);
    SharedAtLeast(Dirs(a), Dirs(b), m);
    if n > m {
      SharedAt(Dirs(a), Dirs(b), m);
      SameByte(a, b, Dirs(a)[m], i);
    }
  }

  lemma SameByte(a: string, b: string, x: string, i: nat)
    requires x in Dirs(a) && x in Dirs(b) && i < |x|
    ensures i < |a| && i < |b| && a[i] == b[i]
  {
    DirsOf(a);
    DirsOf(b);
  }

  lemma PrefixAt(s: string, i: nat)
    requires i <= |s|
    ensures |Dirs(s[..i])| <= |Dirs(s)|
    ensures forall k :: 0 <= k < |Dirs(s[..i])| ==> Dirs(s)[k] == Dirs(s[..i])[k]
    ensures forall k :: |Dirs(s[..i])| <= k < |Dirs(s)| ==> |Dirs(s)[k]| > i
  {
    DirsOfPrefix(s, i);
    var p := Dirs(s[..i]);
    assert forall k :: 0 <= k < |p| ==> Dirs(s)[..|p|][k] == Dirs(s)[k];
  }

  /** A directory is the last of its own directories, and so has its place in any path. */
  lemma DirIndex(s: string, d: string)
    requires d in Dirs(s)
    ensures 0 < |Dirs(d)| <= |Dirs(s)| && Dirs(s)[|Dirs(d)| - 1] == d && d <= s
    ensures forall k :: 0 <= k < |Dirs(d)| ==> Dirs(s)[k] == Dirs(d)[k]
  {
    DirsOf(s);
    assert s[..|d|] == d;
    PrefixAt(s, |d|);
  }

  /** A directory that two paths share is among their shared ones. */
  lemma CommonIsShared(a: string, b: string, d: string)
    requires d in Dirs(a) && d in Dirs(b)
    ensures 0 < |Dirs(d)| <= Shared(Dirs(a), Dirs(b))
  {
    DirIndex(a, d);
    DirIndex(b, d);
    SharedAtLeast(Dirs(a), Dirs(b), |Dirs(d)|);
  }

  // ---- What the stack means ----

  function LastDir(es: seq<Entry>): string {
    if es == [] then ""
    else if IsDir(es[|es| - 1]) then es[|es| - 1].name else LastDir(es[..|es| - 1])
  }

  /** The time recorded for a directory, if it is still being filled; else negative. */
  function TimeOf(es: seq<Entry>, d: string): int {
    if es == [] then -1
    else
      var front, last := es[..|es| - 1], es[|es| - 1];
      if !IsDir(last) then TimeOf(front, d)
      else if d !in Dirs(last.name) then -1
      else if d == last.name then last.time
      else TimeOf(front, d)
  }

  lemma {:induction false} NotShown(es: seq<Entry>, d: string)
    requires d !in Dirs(LastDir(es))
    ensures TimeOf(es, d) == -1
  {
    if es != [] && !IsDir(es[|es| - 1]) {
      NotShown(es[..|es| - 1], d);
    }
  }

  lemma {:induction false} StackShows(es: seq<Entry>)
    ensures Paths(StackAfter(es)) == Dirs(LastDir(es))
    ensures forall k :: 0 <= k < |StackAfter(es)| ==> StackAfter(es)[k].time == TimeOf(es, StackAfter(es)[k].path)
  {
    if es != [] {
      var front, last := es[..|es| - 1], es[|es| - 1];
      StackShows(front);
      if IsDir(last) {
        var stack, ds := StackAfter(front), Dirs(last.name);
        assert Paths(StackAfter(es)) == ds by {
          PushPaths(stack, last);
        }
        forall k | 0 <= k < |ds|
          ensures StackAfter(es)[k].time == TimeOf(es, StackAfter(es)[k].path)
        {
          PushedTime(front, last, stack, ds, k);
          assert Paths(StackAfter(es))[k] == ds[k] && ds[k] in ds;
        }
      }
    }
  }

  lemma PushPaths(stack: seq<Level>, e: Entry)
    ensures Paths(Push(stack, e)) == Dirs(e.name)
  {
    var ds, n := Dirs(e.name), Shared(Paths(stack), Dirs(e.name));
    forall k | 0 <= k < |ds|
      ensures Push(stack, e)[k].path == ds[k]
    {
      if k < n {
        SharedAt(Paths(stack), ds, k);
      }
    }
  }

  lemma PushedTime(front: seq<Entry>, last: Entry, stack: seq<Level>, ds: seq<string>, k: nat)
    requires IsDir(last) && ds == Dirs(last.name) && k < |ds| && Paths(stack) == Dirs(LastDir(front))
    requires forall k :: 0 <= k < |stack| ==> stack[k].time == TimeOf(front, stack[k].path)
    ensures Push(stack, last)[k].time == if ds[k] == last.name then last.time else TimeOf(front, ds[k])
  {
    var d := ds[k];
    assert d in ds;
    LastIsName(last);
    if k < |ds| - 1 {
      if k < Shared(Paths(stack), ds) {
        SharedAt(Paths(stack), ds, k);
      } else {
        if d in Dirs(LastDir(front)) {
          CommonIsShared(LastDir(front), last.name, d);
          DirIndex(last.name, d);
          DirsOf(last.name);
        }
        NotShown(front, d);
      }
    }
  }

  lemma LastIsName(e: Entry)
    requires IsDir(e) && e.name != ""
    ensures Dirs(e.name) != [] && Dirs(e.name)[|Dirs(e.name)| - 1] == e.name
    ensures forall k :: 0 <= k < |Dirs(e.name)| - 1 ==> Dirs(e.name)[k] != e.name
  {
    DirsOf(e.name);
  }

  /** The directory of es[i] is still being filled: every directory since then lies beneath it. */
  ghost predicate Open(es: seq<Entry>, i: nat)
    requires i < |es|
  {
    IsDir(es[i]) && es[i].name != "" &&
    forall m :: i <= m < |es| && IsDir(es[m]) ==> es[i].name <= es[m].name
  }

  ghost predicate Distinct(es: seq<Entry>) {
    forall i, m :: 0 <= i < m < |es| && IsDir(es[i]) && es[i].name != "" ==> es[i].name != es[m].name
  }

  ghost predicate Timely(es: seq<Entry>) {
    forall i :: 0 <= i < |es| ==> es[i].time >= 0
  }

  /** The times on the stack are those of the directories still being filled, and no others. */
  lemma {:induction false} TimeIsOpen(es: seq<Entry>, d: string, i: nat)
    requires Distinct(es) && Timely(es) && i < |es| && es[i].name == d && Open(es, i)
    ensures TimeOf(es, d) == es[i].time
  {
    var front, last := es[..|es| - 1], es[|es| - 1];
    if i < |es| - 1 {
      assert forall m :: 0 <= m < |front| ==> front[m] == es[m];
      if IsDir(last) {
        DirsOf(last.name);
      }
      TimeIsOpen(front, d, i);
    } else {
      LastIsName(last);
      assert Dirs(d)[|Dirs(d)| - 1] in Dirs(d);
    }
  }

  lemma {:induction false} OpenHasTime(es: seq<Entry>, d: string) returns (i: nat)
    requires TimeOf(es, d) >= 0
    ensures i < |es| && es[i].name == d && es[i].time == TimeOf(es, d) && Open(es, i)
  {
    var front, last := es[..|es| - 1], es[|es| - 1];
    assert forall m :: 0 <= m < |front| ==> front[m] == es[m];
    if IsDir(last) {
      DirsOf(last.name);
    }
    if IsDir(last) && d == last.name {
      i := |es| - 1;
    } else {
      i := OpenHasTime(front, d);
    }
  }

  /** The last of these entries is the first directory after es[i] that is not beneath it. */
  ghost predicate Leaves(es: seq<Entry>, i: nat)
    requires i < |es| - 1
  {
    var last := es[|es| - 1];
    Open(es[..|es| - 1], i) && IsDir(last) && !(es[i].name <= last.name)
  }

  lemma {:induction false} InTimed(levels: seq<Level>, l: Level)
    ensures l in Timed(levels) <==> l in levels && l.time >= 0
  {
    if levels != [] {
      var front, last := levels[..|levels| - 1], levels[|levels| - 1];
      InTimed(front, l);
      assert l in levels <==> l in front || l == last;
    }
  }

  /** What the last entry pops. */
  lemma PoppedAre(es: seq<Entry>, d: string, t: int)
    requires es != [] && IsDir(es[|es| - 1]) && t >= 0
    ensures var front, last := es[..|es| - 1], es[|es| - 1];
      Level(d, t) in SetAt(es) <==> d in Dirs(LastDir(front)) && d !in Dirs(last.name) && t == TimeOf(front, d)
  {
    var front, last := es[..|es| - 1], es[|es| - 1];
    var stack := StackAfter(front);
    StackShows(front);
    var n := Shared(Paths(stack), Dirs(last.name));
    InTimed(stack[n..], Level(d, t));
    if Level(d, t) in stack[n..] {
      PoppedOnly(front, last, stack, n, Level(d, t));
    }
    if d in Dirs(LastDir(front)) && d !in Dirs(last.name) && t == TimeOf(front, d) {
      PoppedAll(front, last, stack, n, d);
    }
  }

  lemma PoppedOnly(front: seq<Entry>, last: Entry, stack: seq<Level>, n: nat, l: Level)
    requires stack == StackAfter(front) && Paths(stack) == Dirs(LastDir(front))
    requires n == Shared(Paths(stack), Dirs(last.name)) && l in stack[n..]
    ensures l.path in Dirs(LastDir(front)) && l.path !in Dirs(last.name) && l.time == TimeOf(front, l.path)
  {
    StackShows(front);
    var k: nat :| n <= k < |stack| && stack[k] == l;
    NotShared(LastDir(front), last.name, k);
    assert Paths(stack)[k] == l.path;
  }

  lemma PoppedAll(front: seq<Entry>, last: Entry, stack: seq<Level>, n: nat, d: string)
    requires stack == StackAfter(front) && Paths(stack) == Dirs(LastDir(front))
    requires n == Shared(Paths(stack), Dirs(last.name)) && d in Dirs(LastDir(front)) && d !in Dirs(last.name)
    ensures Level(d, TimeOf(front, d)) in stack[n..]
  {
    StackShows(front);
    DirIndex(LastDir(front), d);
    var k := |Dirs(d)| - 1;
    assert Paths(stack)[k] == stack[k].path;
    if k < n {
      SharedAt(Paths(stack), Dirs(last.name), k);
    }
    assert stack[n..][k - n] == stack[k];
  }

  /** What comes after the shared directories of a path is not in the other path at all. */
  lemma NotShared(a: string, b: string, k: nat)
    requires Shared(Dirs(a), Dirs(b)) <= k < |Dirs(a)|
    ensures Dirs(a)[k] in Dirs(a) && Dirs(a)[k] !in Dirs(b)
  {
    var d := Dirs(a)[k];
    assert d in Dirs(a);
    if d in Dirs(b) {
      CommonIsShared(a, b, d);
      DirIndex(a, d);
      DirsOf(a);
    }
  }

  /** An archived directory has its recorded time set when the archive leaves it, and then only;
      and no other time is ever set. */
  lemma SetWhenLeft(es: seq<Entry>, d: string, t: int)
    requires es != [] && Distinct(es) && Timely(es) && t >= 0
    ensures Level(d, t) in SetAt(es) <==> exists i :: 0 <= i < |es| - 1 && es[i].name == d && es[i].time == t && Leaves(es, i)
  {
    var front, last := es[..|es| - 1], es[|es| - 1];
    assert forall m :: 0 <= m < |front| ==> front[m] == es[m];
    if IsDir(last) {
      PoppedAre(es, d, t);
      DirsOf(last.name);
      if Level(d, t) in SetAt(es) {
        var i := OpenHasTime(front, d);
        assert front[i] == es[i] && Leaves(es, i);
      }
      if i :| 0 <= i < |es| - 1 && es[i].name == d && es[i].time == t && Leaves(es, i) {
        TimeIsOpen(front, d, i);
        if d !in Dirs(LastDir(front)) {
          NotShown(front, d);
        }
      }
    }
  }

  /** The archive with the empty name that ends its extraction. */
  function Ended(es: seq<Entry>): (all: seq<Entry>)
    ensures |all| == |es| + 1 && all[..|es|] == es
  {
    es + [Entry("", 0)]
  }

  /** The times set when entry k is extracted. */
  function SetBy(es: seq<Entry>, k: nat): seq<Level>
    requires k <= |es|
  {
    SetAt(Ended(es)[..k + 1])
  }

  /** When the archive leaves the directory of es[i]. */
  lemma {:induction false} LeavingTime(es: seq<Entry>, i: nat, j0: nat) returns (j: nat)
    requires i < j0 <= |es| && IsDir(es[i]) && es[i].name != "" && Open(Ended(es)[..j0], i)
    ensures j0 <= j <= |es| && Leaves(Ended(es)[..j + 1], i)
    decreases |es| - j0
  {
    var all := Ended(es);
    assert all[..j0 + 1][..j0] == all[..j0];
    if j0 == |es| || (IsDir(es[j0]) && !(es[i].name <= es[j0].name)) {
      j := j0;
    } else {
      assert all[..j0 + 1] == all[..j0] + [es[j0]];
      j := LeavingTime(es, i, j0 + 1);
    }
  }

  /** Every archived directory has its recorded time set exactly once. */
  lemma SetExactlyOnce(es: seq<Entry>, i: nat) returns (j: nat)
    requires Distinct(es) && Timely(es) && i < |es| && IsDir(es[i]) && es[i].name != ""
    ensures i < j <= |es|
    ensures forall k :: 0 <= k <= |es| ==> (Level(es[i].name, es[i].time) in SetBy(es, k) <==> k == j)
    ensures Leaves(Ended(es)[..j + 1], i)
  {
    assert Ended(es)[..i + 1] == es[..i + 1];
    j := LeavingTime(es, i, i + 1);
    forall k | 0 <= k <= |es|
      ensures Level(es[i].name, es[i].time) in SetBy(es, k) <==> k == j
    {
      SetByIff(es, i, j, k);
    }
  }

  lemma PartOf(es: seq<Entry>, k: nat)
    requires Distinct(es) && Timely(es) && k <= |es|
    ensures Distinct(Ended(es)[..k + 1]) && Timely(Ended(es)[..k + 1])
    ensures forall m :: 0 <= m < |es| && m <= k ==> Ended(es)[..k + 1][m] == es[m]
  {
  }

  lemma SetByIff(es: seq<Entry>, i: nat, j: nat, k: nat)
    requires Distinct(es) && Timely(es) && i < j <= |es| && k <= |es| && IsDir(es[i]) && es[i].name != ""
    requires Leaves(Ended(es)[..j + 1], i)
    ensures Level(es[i].name, es[i].time) in SetBy(es, k) <==> k == j
  {
    var part := Ended(es)[..k + 1];
    PartOf(es, k);
    SetWhenLeft(part, es[i].name, es[i].time);
    if Level(es[i].name, es[i].time) in SetBy(es, k) {
      var m :| 0 <= m < |part| - 1 && part[m].name == es[i].name && part[m].time == es[i].time && Leaves(part, m);
      assert part[m] == es[m] && part[..|part| - 1][m] == es[m];
      assert m == i;
      if k < j {
        LeavesOnce(Ended(es), i, k, j);
      } else if j < k {
        LeavesOnce(Ended(es), i, j, k);
      }
    }
    if k == j {
      assert part[i] == es[i];
    }
  }

  /** What has been left is not left again. */
  lemma LeavesOnce(all: seq<Entry>, i: nat, j: nat, k: nat)
    requires i < j < k < |all| && Leaves(all[..j + 1], i)
    ensures !Leaves(all[..k + 1], i)
  {
    var front := all[..k + 1][..k];
    assert front[j] == all[j] == all[..j + 1][j] && front[i] == all[i] == all[..j + 1][i];
  }

  /** In an archive in pre-order the time is set after the last entry beneath the directory. */
  ghost predicate PreOrder(es: seq<Entry>) {
    forall i, m, k :: 0 <= i < m < k < |es| && IsDir(es[i]) && es[i].name <= es[k].name ==> es[i].name <= es[m].name
  }

  lemma SetAfterLast(es: seq<Entry>, i: nat, j: nat, k: nat)
    requires PreOrder(es) && i < j <= k < |es| && IsDir(es[i]) && Leaves(Ended(es)[..j + 1], i)
    ensures !(es[i].name <= es[k].name)
  {
    var part := Ended(es)[..j + 1];
    assert part[j] == es[j] && part[i] == es[i];
  }
}
