/** mount -a: entries are kept in a tree by path, and mounted in an order that puts every
    directory before those beneath it. */
module MountTree {

  datatype Entry = Entry(fsname: string, dir: string, kind: string, noauto: bool)

  /** a is a directory above b. */
  predicate Under(a: string, b: string) {
    |a| < |b| && b[|a|] == '/' && b[..|a|] == a
  }

  lemma UnderTrans(a: string, b: string, c: string)
    requires Under(a, b) && Under(b, c)
    ensures Under(a, c)
  {
    assert c[..|b|][..|a|] == c[..|a|] && c[..|b|][|a|] == c[|a|];
  }

  datatype Tree = Empty | Node(entry: Entry, sib: Tree, kid: Tree)

  function Insert(t: Tree, e: Entry): Tree {
    match t
    case Empty => Node(e, Empty, Empty)
    case Node(n, sib, kid) =>
      if Under(n.dir, e.dir) then Node(n, sib, Insert(kid, e)) else Node(n, Insert(sib, e), kid)
  }

  function Build(es: seq<Entry>): Tree {
    if es == [] then Empty else Insert(Build(es[..|es| - 1]), es[|es| - 1])
  }

  function Entries(t: Tree): multiset<Entry> {
    match t
    case Empty => multiset{}
    case Node(n, sib, kid) => multiset{n} + Entries(sib) + Entries(kid)
  }

  /** What is mounted when, given which mounts succeed. */
  function Visited(t: Tree, ok: Entry -> bool): seq<Entry> {
    match t
    case Empty => []
    case Node(n, sib, kid) => Visited(sib, ok) + [n] + if ok(n) then Visited(kid, ok) else []
  }

  /** Kids lie under their parent, and nothing among the later siblings does. */
  ghost predicate Sorted(t: Tree) {
    t.Node? ==>
      && Sorted(t.sib) && Sorted(t.kid)
      && (forall e <- Entries(t.kid) :: Under(t.entry.dir, e.dir))
      && (forall e <- Entries(t.sib) :: !Under(t.entry.dir, e.dir))
  }

  lemma {:induction false} InsertEntries(t: Tree, e: Entry)
    ensures Entries(Insert(t, e)) == Entries(t) + multiset{e}
  {
    if t.Node? {
      InsertEntries(t.sib, e);
      InsertEntries(t.kid, e);
    }
  }

  lemma {:induction false} InsertSorted(t: Tree, e: Entry)
    requires Sorted(t)
    ensures Sorted(Insert(t, e))
  {
    if t.Node? {
      if Under(t.entry.dir, e.dir) {
        InsertEntries(t.kid, e);
        InsertSorted(t.kid, e);
      } else {
        InsertEntries(t.sib, e);
        InsertSorted(t.sib, e);
      }
    }
  }

  lemma {:induction false} BuildSorted(es: seq<Entry>)
    ensures Sorted(Build(es)) && Entries(Build(es)) == multiset(es)
  {
    if es != [] {
      var front, last := es[..|es| - 1], es[|es| - 1];
      BuildSorted(front);
      InsertSorted(Build(front), last);
      InsertEntries(Build(front), last);
      FrontAndLast(es, front, last);
    }
  }

  lemma FrontAndLast(es: seq<Entry>, front: seq<Entry>, last: Entry)
    requires es != [] && front == es[..|es| - 1] && last == es[|es| - 1]
    ensures multiset(es) == multiset(front) + multiset{last}
  {
    assert es == front + [last];
  }

  lemma {:induction false} VisitsEntries(t: Tree, ok: Entry -> bool)
    ensures multiset(Visited(t, ok)) <= Entries(t)
    ensures (forall e <- Entries(t) :: ok(e)) ==> multiset(Visited(t, ok)) == Entries(t)
  {
    if t.Node? {
      VisitsEntries(t.sib, ok);
      VisitsEntries(t.kid, ok);
      EntriesParts(t);
    }
  }

  lemma EntriesParts(t: Tree)
    requires t.Node?
    ensures t.entry in Entries(t)
    ensures forall e <- Entries(t.sib) :: e in Entries(t)
    ensures forall e <- Entries(t.kid) :: e in Entries(t)
  {
  }

  /** No directory is mounted after one beneath it. */
  ghost predicate AncestorsFirst(order: seq<Entry>) {
    forall i, j :: 0 <= i < j < |order| ==> !Under(order[j].dir, order[i].dir)
  }

  lemma {:induction false} VisitsAncestorsFirst(t: Tree, ok: Entry -> bool)
    requires Sorted(t)
    ensures AncestorsFirst(Visited(t, ok))
  {
    if t.Node? {
      var n := t.entry;
      var before, after := Visited(t.sib, ok), if ok(n) then Visited(t.kid, ok) else [];
      VisitsAncestorsFirst(t.sib, ok);
      VisitsAncestorsFirst(t.kid, ok);
      VisitsEntries(t.sib, ok);
      VisitsEntries(t.kid, ok);
      Contained(before, Entries(t.sib));
      Contained(after, Entries(t.kid));
      forall x, y | x in before && y in after
        ensures !Under(y.dir, x.dir)
      {
        if Under(y.dir, x.dir) {
          UnderTrans(n.dir, y.dir, x.dir);
        }
      }
      JoinOrders(before, n, after);
    }
  }

  lemma Contained(s: seq<Entry>, m: multiset<Entry>)
    requires multiset(s) <= m
    ensures forall e :: e in s ==> e in m
  {
    forall e | e in s
      ensures e in m
    {
      assert e in multiset(s);
    }
  }

  lemma JoinOrders(before: seq<Entry>, n: Entry, after: seq<Entry>)
    requires AncestorsFirst(before) && AncestorsFirst(after)
    requires forall x :: x in before ==> !Under(n.dir, x.dir)
    requires forall y :: y in after ==> Under(n.dir, y.dir)
    requires forall x, y :: x in before && y in after ==> !Under(y.dir, x.dir)
    ensures AncestorsFirst(before + [n] + after)
  {
    var order := before + [n] + after;
    forall i, j | 0 <= i < j < |order|
      ensures !Under(order[j].dir, order[i].dir)
    {
      var k := |before|;
      if j < k {
      } else if j == k {
        assert order[i] in before;
      } else if i < k {
        assert order[i] in before && order[j] in after;
      } else if i == k {
        assert order[j] in after;
      } else {
        assert order[i] == after[i - k - 1] && order[j] == after[j - k - 1];
      }
    }
  }

  /** An entry is passed over only when the mount of a directory above it failed. */
  lemma {:induction false} SkippedBelowFailure(t: Tree, ok: Entry -> bool, e: Entry)
    requires Sorted(t) && e in Entries(t)
    ensures e in Visited(t, ok) || exists x :: x in Visited(t, ok) && !ok(x) && Under(x.dir, e.dir)
  {
    var n := t.entry;
    if e == n || e in Entries(t.sib) {
      if e != n {
        SkippedBelowFailure(t.sib, ok, e);
      }
    } else if ok(n) {
      SkippedBelowFailure(t.kid, ok, e);
    } else {
      assert n in Visited(t, ok);
    }
  }

  /** In whatever order fstab lists the entries: each is mounted once, and after every
      directory above it. */
  lemma MountOrder(es: seq<Entry>, ok: Entry -> bool)
    ensures var order := Visited(Build(es), ok);
      && AncestorsFirst(order)
      && multiset(order) <= multiset(es)
      && ((forall e :: e in es ==> ok(e)) ==> multiset(order) == multiset(es))
      && (forall e :: e in es ==>
            e in order || exists x :: x in order && !ok(x) && Under(x.dir, e.dir))
  {
    BuildSorted(es);
    var t := Build(es);
    VisitsAncestorsFirst(t, ok);
    VisitsEntries(t, ok);
    if forall e :: e in es ==> ok(e) {
      assert forall e <- Entries(t) :: e in multiset(es);
    }
    forall e | e in es
      ensures e in Visited(t, ok) || exists x :: x in Visited(t, ok) && !ok(x) && Under(x.dir, e.dir)
    {
      assert e in multiset(es);
      SkippedBelowFailure(t, ok, e);
    }
  }

  /** Runs down two strings until they differ; they must differ somewhere, or end apart. */
  method Substr(s1: string, s2: string) returns (above: bool)
    requires s1 != s2 && '\0' !in s1 && '\0' !in s2
    ensures above <==> Under(s1, s2)
  {
    var i := 0;
    while Char(s1, i) == Char(s2, i)
      invariant i <= |s1| && i <= |s2| && s1[..i] == s2[..i]
      decreases |s1| - i
    {
      NotBothEnded(s1, s2, i);
      i := i + 1;
    }
    DifferAt(s1, s2, i);
    if Char(s1, i) == '\0' && Char(s2, i) == '/' {
      return true;
    }
    above := false;
  }

  lemma DifferAt(s1: string, s2: string, i: nat)
    requires i <= |s1| && i <= |s2| && '\0' !in s1 && '\0' !in s2
    requires s1[..i] == s2[..i] && Char(s1, i) != Char(s2, i)
    ensures Under(s1, s2) <==> Char(s1, i) == '\0' && Char(s2, i) == '/'
  {
  }

  function Char(s: string, i: nat): (c: char)
    requires i <= |s| && '\0' !in s
    ensures c == '\0' <==> i == |s|
  {
    if i < |s| then (assert s[i] in s; s[i]) else '\0'
  }

  lemma NotBothEnded(s1: string, s2: string, i: nat)
    requires i <= |s1| && i <= |s2| && '\0' !in s1 && '\0' !in s2
    requires s1 != s2 && s1[..i] == s2[..i] && Char(s1, i) == Char(s2, i)
    ensures i < |s1| && i < |s2| && s1[..i + 1] == s2[..i + 1]
  {
    assert s1 == s1[..|s1|] && s2 == s2[..|s2|];
  }

  predicate Plain(e: Entry) {
    '\0' !in e.dir
  }

  class MntTree {
    const mnt: Entry
    var sib: MntTree?
    var kid: MntTree?
    ghost var repr: set<MntTree>
    ghost var tree: Tree

    ghost predicate Valid()
      reads this, repr
      decreases repr
    {
      && this in repr && Plain(mnt)
      && (sib != null ==> sib in repr && sib.repr <= repr && this !in sib.repr && sib.Valid())
      && (kid != null ==> kid in repr && kid.repr <= repr && this !in kid.repr && kid.Valid())
      && (sib != null && kid != null ==> sib.repr !! kid.repr)
      && tree == Node(mnt, if sib == null then Empty else sib.tree, if kid == null then Empty else kid.tree)
    }

    constructor (mnt: Entry)
      requires Plain(mnt)
      ensures Valid() && fresh(repr) && tree == Node(mnt, Empty, Empty)
    {
      this.mnt := mnt;
      sib, kid := null, null;
      repr := {this};
      tree := Node(mnt, Empty, Empty);
    }
  }

  ghost function TreeOf(mt: MntTree?): Tree
    reads mt
  {
    if mt == null then Empty else mt.tree
  }

  ghost function ReprOf(mt: MntTree?): set<MntTree>
    reads mt
  {
    if mt == null then {} else mt.repr
  }

  /** No entry of the tree has the directory. */
  predicate NewDir(t: Tree, dir: string) {
    t.Node? ==> t.entry.dir != dir && NewDir(t.sib, dir) && NewDir(t.kid, dir)
  }

  lemma {:induction false} NewDirEntries(t: Tree, dir: string)
    requires forall e <- Entries(t) :: e.dir != dir
    ensures NewDir(t, dir)
  {
    if t.Node? {
      assert t.entry in Entries(t);
      NewDirEntries(t.sib, dir);
      NewDirEntries(t.kid, dir);
    }
  }

  /** Puts an entry with a new directory into the tree. */
  method MakeTree(mt: MntTree?, mnt: Entry) returns (r: MntTree)
    requires mt != null ==> mt.Valid()
    requires Plain(mnt) && NewDir(TreeOf(mt), mnt.dir)
    modifies ReprOf(mt)
    ensures r.Valid() && r.tree == Insert(old(TreeOf(mt)), mnt)
    ensures fresh(r.repr - old(ReprOf(mt)))
    ensures mt != null ==> r == mt
    decreases ReprOf(mt), 1
  {
    if mt == null {
      r := new MntTree(mnt);
      return;
    }
    r := mt;
    var above := Substr(mt.mnt.dir, mnt.dir);
    if above {
      IntoKid(mt, mnt);
    } else {
      IntoSib(mt, mnt);
    }
  }

  /** mt->mt_kid = maketree(mt->mt_kid, mnt) */
  method IntoKid(mt: MntTree, mnt: Entry)
    requires mt.Valid() && Plain(mnt) && NewDir(mt.tree, mnt.dir) && Under(mt.mnt.dir, mnt.dir)
    modifies mt.repr
    ensures mt.Valid() && mt.tree == Insert(old(mt.tree), mnt) && fresh(mt.repr - old(mt.repr))
    decreases mt.repr, 0
  {
    ghost var was := mt.tree;
    var k := MakeTree(mt.kid, mnt);
    assert mt.sib != null ==> mt.sib.Valid();
    mt.kid := k;
    mt.repr := mt.repr + k.repr;
    mt.tree := Node(was.entry, was.sib, k.tree);
  }

  /** mt->mt_sib = maketree(mt->mt_sib, mnt) */
  method IntoSib(mt: MntTree, mnt: Entry)
    requires mt.Valid() && Plain(mnt) && NewDir(mt.tree, mnt.dir) && !Under(mt.mnt.dir, mnt.dir)
    modifies mt.repr
    ensures mt.Valid() && mt.tree == Insert(old(mt.tree), mnt) && fresh(mt.repr - old(mt.repr))
    decreases mt.repr, 0
  {
    ghost var was := mt.tree;
    var s := MakeTree(mt.sib, mnt);
    assert mt.kid != null ==> mt.kid.Valid();
    mt.sib := s;
    mt.repr := mt.repr + s.repr;
    mt.tree := Node(was.entry, s.tree, was.kid);
  }

  /** Mounts what is in the tree, later siblings first, a directory before what is beneath it. */
  method Mount(mt: MntTree?, ok: Entry -> bool) returns (log: seq<Entry>)
    requires mt != null ==> mt.Valid()
    ensures log == Visited(TreeOf(mt), ok)
    decreases ReprOf(mt)
  {
    if mt == null {
      return [];
    }
    log := Mount(mt.sib, ok);
    log := log + [mt.mnt];
    if ok(mt.mnt) {
      var rest := Mount(mt.kid, ok);
      log := log + rest;
    }
  }

  /** Entries mount -a passes over; kind is that of -t, or empty. */
  predicate Skips(e: Entry, kind: string) {
    e.kind == "ignore" || e.kind == "swap" || e.noauto || e.dir == "/" || (kind != "" && e.kind != kind)
  }

  function Kept(fstab: seq<Entry>, kind: string): seq<Entry> {
    if fstab == [] then []
    else
      var last := fstab[|fstab| - 1];
      Kept(fstab[..|fstab| - 1], kind) + if Skips(last, kind) then [] else [last]
  }

  predicate Distinct(fstab: seq<Entry>) {
    forall i, j :: 0 <= i < j < |fstab| ==> fstab[i].dir != fstab[j].dir
  }

  /** Reads fstab into the tree and mounts it. */
  method MountAll(fstab: seq<Entry>, kind: string, ok: Entry -> bool) returns (log: seq<Entry>)
    requires Distinct(fstab) && forall e :: e in fstab ==> Plain(e)
    ensures AncestorsFirst(log) && multiset(log) <= multiset(Kept(fstab, kind))
    ensures (forall e :: e in Kept(fstab, kind) ==> ok(e)) ==> multiset(log) == multiset(Kept(fstab, kind))
    ensures forall e :: e in Kept(fstab, kind) ==>
      e in log || exists x :: x in log && !ok(x) && Under(x.dir, e.dir)
  {
    var mtree := ReadFstab(fstab, kind);
    log := Mount(mtree, ok);
    MountOrder(Kept(fstab, kind), ok);
  }

  method ReadFstab(fstab: seq<Entry>, kind: string) returns (mtree: MntTree?)
    requires Distinct(fstab) && forall e :: e in fstab ==> Plain(e)
    ensures mtree != null ==> mtree.Valid()
    ensures TreeOf(mtree) == Build(Kept(fstab, kind))
  {
    mtree := null;
    var i := 0;
    KeptEnds(fstab, kind);
    while i < |fstab|
      invariant 0 <= i <= |fstab|
      invariant mtree != null ==> mtree.Valid() && fresh(mtree.repr)
      invariant TreeOf(mtree) == Build(Kept(fstab[..i], kind))
    {
      mtree := ReadEntry(fstab, kind, i, mtree);
      i := i + 1;
    }
  }

  /** Puts entry i of fstab in the tree, unless it is passed over. */
  method ReadEntry(fstab: seq<Entry>, kind: string, i: nat, mtree: MntTree?) returns (r: MntTree?)
    requires i < |fstab| && Distinct(fstab) && forall e :: e in fstab ==> Plain(e)
    requires mtree != null ==> mtree.Valid()
    requires TreeOf(mtree) == Build(Kept(fstab[..i], kind))
    modifies ReprOf(mtree)
    ensures r != null ==> r.Valid() && fresh(r.repr - old(ReprOf(mtree)))
    ensures TreeOf(r) == Build(Kept(fstab[..i + 1], kind))
  {
    KeptNext(fstab, kind, i);
    r := mtree;
    if !Skips(fstab[i], kind) {
      NewDirectory(fstab, kind, i);
      assert fstab[i] in fstab;
      r := AddEntry(mtree, fstab[i], Kept(fstab[..i], kind));
    }
  }

  lemma KeptEnds(fstab: seq<Entry>, kind: string)
    ensures Build(Kept(fstab[..0], kind)) == Empty && fstab[..|fstab|] == fstab
  {
  }

  /** One more entry for the tree. */
  method AddEntry(mtree: MntTree?, e: Entry, ghost kept: seq<Entry>) returns (r: MntTree)
    requires mtree != null ==> mtree.Valid()
    requires TreeOf(mtree) == Build(kept) && Plain(e) && NewDir(Build(kept), e.dir)
    modifies ReprOf(mtree)
    ensures r.Valid() && r.tree == Build(kept + [e]) && fresh(r.repr - old(ReprOf(mtree)))
  {
    BuildMore(kept, e);
    r := MakeTree(mtree, e);
  }

  lemma KeptNext(fstab: seq<Entry>, kind: string, i: nat)
    requires i < |fstab|
    ensures Skips(fstab[i], kind) ==> Kept(fstab[..i + 1], kind) == Kept(fstab[..i], kind)
    ensures !Skips(fstab[i], kind) ==> Kept(fstab[..i + 1], kind) == Kept(fstab[..i], kind) + [fstab[i]]
  {
    assert fstab[..i + 1][..i] == fstab[..i];
  }

  lemma BuildMore(es: seq<Entry>, e: Entry)
    ensures Build(es + [e]) == Insert(Build(es), e)
  {
    assert (es + [e])[..|es|] == es;
  }

  lemma {:induction false} KeptFrom(fstab: seq<Entry>, kind: string)
    ensures forall e :: e in Kept(fstab, kind) <==> e in fstab && !Skips(e, kind)
  {
    if fstab != [] {
      KeptFrom(fstab[..|fstab| - 1], kind);
      assert fstab == fstab[..|fstab| - 1] + [fstab[|fstab| - 1]];
    }
  }

  lemma NewDirectory(fstab: seq<Entry>, kind: string, i: nat)
    requires i < |fstab| && Distinct(fstab)
    ensures NewDir(Build(Kept(fstab[..i], kind)), fstab[i].dir)
  {
    var kept := Kept(fstab[..i], kind);
    BuildSorted(kept);
    KeptFrom(fstab[..i], kind);
    forall e <- Entries(Build(kept))
      ensures e.dir != fstab[i].dir
    {
      assert e in kept;
    }
    NewDirEntries(Build(kept), fstab[i].dir);
  }
}
