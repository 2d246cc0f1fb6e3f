/** umount: walks the mount table from the newest entry to the oldest, and writes back what
    is left in its original order. */
module Umount {
  import opened Common
  import opened MountTree

  datatype Slot = Held(entry: Entry) | Gone

  /** With -a, the entries -t and -h ask for; otherwise the names on the command line decide. */
  datatype Options = Options(all: bool, wanted: Entry -> bool)

  lemma ReverseAppend<T>(s: seq<T>, x: T)
    ensures Reversed(s + [x]) == [x] + Reversed(s)
  {
    var t := s + [x];
    forall k | 0 <= k < |t|
      ensures Reversed(t)[k] == ([x] + Reversed(s))[k]
    {
      ReversedAt(t, k);
      if k > 0 {
        ReversedAt(s, k - 1);
      }
    }
  }

  // ---- What the walk does ----

  /** The first name from i on that is the entry's directory or device. */
  function Named(args: seq<string>, e: Entry, i: nat): (r: nat)
    requires i <= |args|
    ensures i <= r <= |args|
    ensures r < |args| ==> args[r] == e.dir || args[r] == e.fsname
    ensures forall k :: i <= k < r ==> args[k] != e.dir && args[k] != e.fsname
    decreases |args| - i
  {
    if i == |args| || args[i] == e.dir || args[i] == e.fsname then i else Named(args, e, i + 1)
  }

  predicate Selects(o: Options, args: seq<string>, e: Entry) {
    e.dir != "/" && e.kind != "ignore" && if o.all then o.wanted(e) else Named(args, e, 0) < |args|
  }

  /** The names still to be used, the entries tried so far, and what is left of those passed. */
  datatype Walk = Walk(args: seq<string>, tried: seq<Entry>, left: seq<Slot>)

  /** One entry; ok(k) tells whether the k-th attempt to unmount something succeeds. */
  function Pass(o: Options, ok: nat -> bool, w: Walk, e: Entry): Walk {
    if !Selects(o, w.args, e) then w.(left := w.left + [Held(e)])
    else
      Walk(if o.all then w.args else w.args[Named(w.args, e, 0) := ""], w.tried + [e],
           w.left + [if ok(|w.tried|) then Gone else Held(e)])
  }

  function WalkOver(o: Options, ok: nat -> bool, args: seq<string>, es: seq<Entry>): Walk {
    if es == [] then Walk(args, [], [])
    else Pass(o, ok, WalkOver(o, ok, args, es[..|es| - 1]), es[|es| - 1])
  }

  function Survivors(slots: seq<Slot>): seq<Entry> {
    if slots == [] then []
    else (if slots[0].Held? then [slots[0].entry] else []) + Survivors(slots[1..])
  }

  // ---- What it means ----

  /** Nothing is tried before an entry beneath it, if the table lists directories before those
      beneath them; and only entries of the table are tried. */
  ghost predicate DescendantsFirst(order: seq<Entry>) {
    forall i, j :: 0 <= i < j < |order| ==> !Under(order[i].dir, order[j].dir)
  }

  lemma {:induction false} TriedInOrder(o: Options, ok: nat -> bool, args: seq<string>, es: seq<Entry>)
    requires DescendantsFirst(es)
    ensures DescendantsFirst(WalkOver(o, ok, args, es).tried)
    ensures forall e :: e in WalkOver(o, ok, args, es).tried ==> e in es
  {
    if es != [] {
      var front := es[..|es| - 1];
      TriedInOrder(o, ok, args, front);
      var w := WalkOver(o, ok, args, front);
      forall e | e in w.tried
        ensures !Under(e.dir, es[|es| - 1].dir)
      {
        var i :| 0 <= i < |front| && front[i] == e;
        assert es[i] == e;
      }
    }
  }

  lemma OldestFirstReversed(mtab: seq<Entry>)
    requires AncestorsFirst(mtab)
    ensures DescendantsFirst(Reversed(mtab))
  {
    var es := Reversed(mtab);
    forall i, j | 0 <= i < j < |es|
      ensures !Under(es[i].dir, es[j].dir)
    {
      ReversedAt(mtab, i);
      ReversedAt(mtab, j);
    }
  }

  /** Each passed entry is kept or gone. */
  lemma {:induction false} LeftOf(o: Options, ok: nat -> bool, args: seq<string>, es: seq<Entry>)
    ensures var w := WalkOver(o, ok, args, es);
      && |w.left| == |es| && |w.tried| <= |es|
      && (forall k :: 0 <= k < |es| ==> w.left[k] == Held(es[k]) || w.left[k] == Gone)
  {
    if es != [] {
      LeftOf(o, ok, args, es[..|es| - 1]);
    }
  }

  /** The gone ones are exactly those whose unmounting succeeded. */
  lemma {:induction false} GoneAreUnmounted(o: Options, ok: nat -> bool, args: seq<string>, es: seq<Entry>)
    ensures var w := WalkOver(o, ok, args, es);
      multiset(es) == multiset(Survivors(Reversed(w.left))) + multiset(Unmounted(w.tried, ok))
  {
    if es != [] {
      var front, last := es[..|es| - 1], es[|es| - 1];
      GoneAreUnmounted(o, ok, args, front);
      FrontAndLast(es, front, last);
      var w := WalkOver(o, ok, args, front);
      SurvivorsOneMore(w.left, Held(last));
      SurvivorsOneMore(w.left, Gone);
      UnmountedOneMore(w.tried, last, ok);
    }
  }

  lemma SurvivorsOneMore(left: seq<Slot>, slot: Slot)
    ensures multiset(Survivors(Reversed(left + [slot])))
            == (if slot.Held? then multiset{slot.entry} else multiset{}) + multiset(Survivors(Reversed(left)))
  {
    ReverseAppend(left, slot);
    assert ([slot] + Reversed(left))[1..] == Reversed(left);
  }

  lemma UnmountedOneMore(tried: seq<Entry>, e: Entry, ok: nat -> bool)
    ensures multiset(Unmounted(tried + [e], ok))
            == multiset(Unmounted(tried, ok)) + if ok(|tried|) then multiset{e} else multiset{}
  {
    assert (tried + [e])[..|tried|] == tried;
  }

  /** The entries whose unmounting succeeded. */
  function Unmounted(tried: seq<Entry>, ok: nat -> bool): seq<Entry> {
    if tried == [] then []
    else
      var k := |tried| - 1;
      Unmounted(tried[..k], ok) + if ok(k) then [tried[k]] else []
  }

  /** With -a exactly the entries asked for are tried. */
  lemma {:induction false} AllTried(o: Options, ok: nat -> bool, args: seq<string>, es: seq<Entry>)
    requires o.all
    ensures forall e :: e in es && Selects(o, [], e) ==> e in WalkOver(o, ok, args, es).tried
    ensures forall e :: e in WalkOver(o, ok, args, es).tried ==> e in es && Selects(o, [], e)
  {
    if es != [] {
      AllTried(o, ok, args, es[..|es| - 1]);
      assert es == es[..|es| - 1] + [es[|es| - 1]];
    }
  }

  /** Without -a a name is used up by the newest entry it fits. */
  lemma {:induction false} NamesUsed(o: Options, ok: nat -> bool, args: seq<string>, es: seq<Entry>)
    requires !o.all && forall e :: e in es ==> e.dir != "" && e.fsname != ""
    ensures var w := WalkOver(o, ok, args, es);
      && |w.args| == |args|
      && (forall i :: 0 <= i < |args| ==> w.args[i] == args[i] || w.args[i] == "")
      && |w.tried| + Names(w.args) == Names(args)
  {
    if es != [] {
      var front, last := es[..|es| - 1], es[|es| - 1];
      assert forall e :: e in front ==> e in es;
      NamesUsed(o, ok, args, front);
      var w := WalkOver(o, ok, args, front);
      if Selects(o, w.args, last) {
        assert last in es;
        UseName(w.args, Named(w.args, last, 0));
      }
    }
  }

  predicate Fits(name: string, e: Entry) {
    name == e.dir || name == e.fsname
  }

  /** The first name that fits the entry. */
  predicate FirstFit(args: seq<string>, e: Entry, i: nat) {
    i < |args| && Fits(args[i], e) && forall j :: 0 <= j < i ==> !Fits(args[j], e)
  }

  /** Without -a an entry is tried exactly if one of the names left fits it, and it is not the root or
      to be ignored; the first of those names is used up, and otherwise nothing changes. */
  lemma NamedIsTried(o: Options, ok: nat -> bool, args: seq<string>, es: seq<Entry>, k: nat)
    requires !o.all && k < |es|
    ensures var w, w', e := WalkOver(o, ok, args, es[..k]), WalkOver(o, ok, args, es[..k + 1]), es[k];
      if e.dir != "/" && e.kind != "ignore" && exists i :: 0 <= i < |w.args| && Fits(w.args[i], e)
      then w'.tried == w.tried + [e] && exists i: nat :: FirstFit(w.args, e, i) && w'.args == w.args[i := ""]
      else w'.tried == w.tried && w'.args == w.args
  {
    var w, e := WalkOver(o, ok, args, es[..k]), es[k];
    WalkNext(o, ok, args, es, k);
    var r := Named(w.args, e, 0);
    if r < |w.args| {
      assert Fits(w.args[r], e) && FirstFit(w.args, e, r);
    } else {
      assert forall i :: 0 <= i < |w.args| ==> !Fits(w.args[i], e);
    }
  }

  /** Without -a no name that is left fits an entry that was not tried, but for the root and those to be ignored. */
  lemma {:induction false} NoneForgotten(o: Options, ok: nat -> bool, args: seq<string>, es: seq<Entry>)
    requires !o.all && forall e :: e in es ==> e.dir != "" && e.fsname != ""
    ensures var w := WalkOver(o, ok, args, es);
      && (forall e :: e in w.tried ==> e in es)
      && (forall e, i :: e in es && e.dir != "/" && e.kind != "ignore" && 0 <= i < |w.args| && Fits(w.args[i], e) ==> e in w.tried)
  {
    if es != [] {
      var k := |es| - 1;
      assert es == es[..k] + [es[k]] && es[..k + 1] == es;
      assert forall e :: e in es[..k] ==> e in es;
      NoneForgotten(o, ok, args, es[..k]);
      NamedIsTried(o, ok, args, es, k);
      var w, w' := WalkOver(o, ok, args, es[..k]), WalkOver(o, ok, args, es);
      forall e, i | e in es && e.dir != "/" && e.kind != "ignore" && 0 <= i < |w'.args| && Fits(w'.args[i], e)
        ensures e in w'.tried
      {
        assert Fits(w.args[i], e);
      }
    }
  }

  /** How many names are left. */
  function Names(args: seq<string>): nat {
    if args == [] then 0 else (if args[0] == "" then 0 else 1) + Names(args[1..])
  }

  lemma {:induction false} UseName(args: seq<string>, i: nat)
    requires i < |args| && args[i] != ""
    ensures Names(args[i := ""]) == Names(args) - 1
  {
    if i > 0 {
      UseName(args[1..], i - 1);
      assert args[i := ""][1..] == args[1..][i - 1 := ""];
    } else {
      assert args[i := ""][1..] == args[1..];
    }
  }

  /** The table written back lists directories before those beneath them if the old one did. */
  lemma {:induction false} SurvivorsInOrder(mtab: seq<Entry>, slots: seq<Slot>)
    requires |slots| == |mtab| && AncestorsFirst(mtab)
    requires forall k :: 0 <= k < |mtab| ==> slots[k] == Held(mtab[k]) || slots[k] == Gone
    ensures AncestorsFirst(Survivors(slots))
    ensures forall e :: e in Survivors(slots) ==> e in mtab
  {
    if mtab != [] {
      SurvivorsInOrder(mtab[1..], slots[1..]);
      var rest := Survivors(slots[1..]);
      forall e | e in rest
        ensures !Under(e.dir, mtab[0].dir)
      {
        var i :| 0 <= i < |mtab[1..]| && mtab[1..][i] == e;
        assert mtab[i + 1] == e;
      }
    }
  }

  // ---- The list in memory ----

  class Link {
    var slot: Slot
    var next: Link?

    constructor (entry: Entry, next: Link?)
      ensures slot == Held(entry) && this.next == next
    {
      slot := Held(entry);
      this.next := next;
    }
  }

  ghost function Following(links: seq<Link>, i: nat): Link? {
    if i + 1 < |links| then links[i + 1] else null
  }

  /** The list from l on consists of these links. */
  ghost predicate Linked(l: Link?, links: seq<Link>)
    reads links
  {
    && l == (if links == [] then null else links[0])
    && (forall i :: 0 <= i < |links| ==> links[i].next == Following(links, i))
    && (forall i, j :: 0 <= i < j < |links| ==> links[i] != links[j])
  }

  ghost function Slots(links: seq<Link>): (s: seq<Slot>)
    reads links
    ensures |s| == |links|
  {
    seq(|links|, i requires 0 <= i < |links| reads links => links[i].slot)
  }

  method Prepend(entry: Entry, l: Link?, ghost links: seq<Link>) returns (mntl: Link, ghost links': seq<Link>)
    requires Linked(l, links)
    ensures fresh(mntl) && links' == [mntl] + links && Linked(mntl, links') && mntl.slot == Held(entry)
  {
    mntl := new Link(entry, l);
    links' := [mntl] + links;
    forall k | 1 <= k < |links'|
      ensures links'[k].next == Following(links', k)
    {
      assert links'[k] == links[k - 1] && Following(links', k) == Following(links, k - 1);
    }
  }

  /** Reads the mount table, putting each entry in front of the earlier ones. */
  method MkMntList(mtab: seq<Entry>) returns (mntst: Link?, ghost links: seq<Link>)
    ensures Linked(mntst, links) && fresh(links)
    ensures |links| == |mtab| && forall i :: 0 <= i < |mtab| ==> links[i].slot == Held(Reversed(mtab)[i])
  {
    mntst, links := null, [];
    var i := 0;
    while i < |mtab|
      invariant 0 <= i <= |mtab| && |links| == i && Linked(mntst, links) && fresh(links)
      invariant forall k :: 0 <= k < i ==> links[k].slot == Held(mtab[i - 1 - k])
    {
      mntst, links := Prepend(mtab[i], mntst, links);
      i := i + 1;
    }
    forall k | 0 <= k < |mtab|
      ensures links[k].slot == Held(Reversed(mtab)[k])
    {
      ReversedAt(mtab, k);
    }
  }

  /** The body of the loop: decides about one entry, and forgets it if it is unmounted. */
  method Visit(l: Link, ghost e0: Entry, o: Options, argv: array<string>, ok: nat -> bool, tried: seq<Entry>, ghost left: seq<Slot>)
    returns (tried': seq<Entry>)
    requires l.slot == Held(e0)
    modifies l`slot, argv
    ensures Walk(argv[..], tried', left + [l.slot]) == Pass(o, ok, Walk(old(argv[..]), tried, left), e0)
  {
    tried' := tried;
    var e := l.slot.entry;
    if e.dir == "/" || e.kind == "ignore" {
      return;
    }
    if o.all {
      if o.wanted(e) {
        if ok(|tried|) {
          l.slot := Gone;
        }
        tried' := tried + [e];
      }
      return;
    }
    var i := 0;
    while i < argv.Length
      invariant 0 <= i <= argv.Length && Named(argv[..], e, 0) == Named(argv[..], e, i)
      invariant argv[..] == old(argv[..]) && l.slot == Held(e)
    {
      if argv[i] == e.dir || argv[i] == e.fsname {
        if ok(|tried|) {
          l.slot := Gone;
        }
        tried' := tried + [e];
        argv[i] := "";
        return;
      }
      i := i + 1;
    }
  }

  ghost predicate Holding(links: seq<Link>, slots: seq<Slot>)
    reads links
  {
    |links| == |slots| && forall k :: 0 <= k < |links| ==> links[k].slot == slots[k]
  }

  function Helds(es: seq<Entry>): (slots: seq<Slot>)
    ensures |slots| == |es|
  {
    seq(|es|, k requires 0 <= k < |es| => Held(es[k]))
  }

  ghost predicate Apart(a: seq<Link>, b: seq<Link>) {
    forall l :: l in a ==> l !in b
  }

  /** One entry: it is decided about, and its link moves to the front of those already passed. */
  method MoveLink(mntl: Link, mntrev: Link?, ghost e: Entry, o: Options, argv: array<string>, ok: nat -> bool, tried: seq<Entry>,
                  ghost left: seq<Slot>, ghost rest: seq<Link>, ghost back: seq<Link>, ghost es: seq<Entry>)
    returns (next: Link?, tried': seq<Entry>, ghost left': seq<Slot>)
    requires Linked(mntl, rest) && Linked(mntrev, back) && Apart(rest, back)
    requires Holding(rest, Helds(es)) && es != [] && es[0] == e && Holding(back, Reversed(left))
    modifies mntl, argv
    ensures rest != [] && rest[0] == mntl && Linked(next, rest[1..]) && Linked(mntl, [mntl] + back)
    ensures Apart(rest[1..], [mntl] + back)
    ensures Holding(rest[1..], Helds(es[1..])) && Holding([mntl] + back, Reversed(left'))
    ensures Walk(argv[..], tried', left') == Pass(o, ok, Walk(old(argv[..]), tried, left), e)
  {
    assert rest[0].slot == Helds(es)[0];
    tried' := Visit(mntl, e, o, argv, ok, tried, left);
    left' := left + [mntl.slot];
    ReverseAppend(left, mntl.slot);
    next := TurnRound(mntl, mntrev, rest, back);
    forall k | 0 <= k < |rest[1..]|
      ensures rest[1..][k].slot == Helds(es[1..])[k]
    {
      assert rest[1..][k] == rest[k + 1] && Helds(es[1..])[k] == Helds(es)[k + 1];
    }
    forall k | 0 <= k < |[mntl] + back|
      ensures ([mntl] + back)[k].slot == Reversed(left')[k]
    {
      if k > 0 {
        assert ([mntl] + back)[k] == back[k - 1] && Reversed(left')[k] == Reversed(left)[k - 1];
      }
    }
  }

  /** The walk over the whole list, which it leaves reversed; it finds the last link in mntcur. */
  method WalkAndReverse(mntst: Link, ghost links: seq<Link>, ghost es: seq<Entry>, o: Options, argv: array<string>, ok: nat -> bool)
    returns (tried: seq<Entry>, mntcur: Link, ghost back: seq<Link>, ghost w: Walk)
    requires Linked(mntst, links) && Holding(links, Helds(es))
    modifies links, argv
    ensures Linked(mntcur, back) && w == WalkOver(o, ok, old(argv[..]), es)
    ensures tried == w.tried && argv[..] == w.args
    ensures Holding(back, Reversed(w.left))
  {
    var mntl: Link?, mntrev: Link? := mntst, null;
    mntcur, tried, back := mntst, [], [];
    ghost var rest, todo, n: nat := links, es, 0;
    ghost var args := argv[..];
    w := WalkOver(o, ok, args, []);
    while mntl != null
      invariant Linked(mntl, rest) && Linked(mntrev, back) && Apart(rest, back)
      invariant Holding(rest, Helds(todo)) && Holding(back, Reversed(w.left))
      invariant n <= |es| == |links| && todo == es[n..] && rest == links[n..]
      invariant w == WalkOver(o, ok, args, es[..n]) && tried == w.tried && argv[..] == w.args
      invariant n > 0 ==> mntrev == mntcur
      decreases |rest|
    {
      mntcur := mntl;
      ghost var left;
      WalkNext(o, ok, args, es, n);
      NextSlice(es, n);
      NextSlice(links, n);
      mntl, tried, left := MoveLink(mntcur, mntrev, es[n], o, argv, ok, tried, w.left, rest, back, todo);
      w := Walk(argv[..], tried, left);
      mntrev := mntcur;
      back, rest, todo, n := [mntcur] + back, rest[1..], todo[1..], n + 1;
    }
    assert es[..n] == es;
  }

  lemma NextSlice<T>(es: seq<T>, n: nat)
    requires n < |es|
    ensures es[n..] != [] && es[n..][0] == es[n] && es[n..][1..] == es[n + 1..]
  {
  }

  lemma WalkNext(o: Options, ok: nat -> bool, args: seq<string>, es: seq<Entry>, n: nat)
    requires n < |es|
    ensures WalkOver(o, ok, args, es[..n + 1]) == Pass(o, ok, WalkOver(o, ok, args, es[..n]), es[n])
  {
    assert es[..n + 1][..n] == es[..n];
  }

  /** mntl = mntl->mntl_next, mntcur->mntl_next = mntrev, for the link mntcur that mntl was. */
  method TurnRound(mntcur: Link, mntrev: Link?, ghost rest: seq<Link>, ghost back: seq<Link>) returns (mntl: Link?)
    requires Linked(mntcur, rest) && Linked(mntrev, back) && forall l :: l in rest ==> l !in back
    modifies mntcur`next
    ensures rest != [] && rest[0] == mntcur && Linked(mntl, rest[1..]) && Linked(mntcur, [mntcur] + back)
  {
    assert rest != [] && mntcur in rest;
    mntl := mntcur.next;
    mntcur.next := mntrev;
    forall k | 0 <= k < |rest[1..]|
      ensures rest[1..][k].next == Following(rest[1..], k)
    {
      assert rest[1..][k] == rest[k + 1] && Following(rest[1..], k) == Following(rest, k + 1);
    }
    ghost var back' := [mntcur] + back;
    forall k | 1 <= k < |back'|
      ensures back'[k].next == Following(back', k)
    {
      assert back'[k] == back[k - 1] && Following(back', k) == Following(back, k - 1);
    }
  }

  /** Everything but the calls of the operating system: the table is read, walked and written back. */
  method UmountList(mtab: seq<Entry>, o: Options, argv: array<string>, ok: nat -> bool)
    returns (tried: seq<Entry>, others: seq<string>, mtab': seq<Entry>)
    requires mtab != []
    modifies argv
    ensures var w := WalkOver(o, ok, old(argv[..]), Reversed(mtab));
      tried == w.tried && mtab' == Survivors(Reversed(w.left)) && others == Paths(w.args)
  {
    var mntst;
    ghost var links, back, w;
    mntst, links := MkMntList(mtab);
    var mntcur: Link?;
    tried, mntcur, back, w := WalkAndReverse(mntst, links, Reversed(mtab), o, argv, ok);
    others := Leftover(argv);
    mtab' := WriteBack(mntcur, back, Reversed(w.left));
  }

  /** Names that fit no entry are unmounted as they stand, if they are full paths. */
  function Paths(args: seq<string>): seq<string> {
    if args == [] then []
    else
      var last := args[|args| - 1];
      Paths(args[..|args| - 1]) + if last != "" && last[0] == '/' then [last] else []
  }

  method Leftover(argv: array<string>) returns (others: seq<string>)
    ensures others == Paths(argv[..])
  {
    others := [];
    var i := 0;
    while i < argv.Length
      invariant 0 <= i <= argv.Length && others == Paths(argv[..i])
    {
      assert argv[..i + 1][..i] == argv[..i];
      if argv[i] != "" && argv[i][0] == '/' {
        others := others + [argv[i]];
      }
      i := i + 1;
    }
    assert argv[..i] == argv[..];
  }

  /** The entries still held, in the order of the list. */
  method WriteBack(l: Link?, ghost links: seq<Link>, ghost slots: seq<Slot>) returns (mtab: seq<Entry>)
    requires Linked(l, links) && Holding(links, slots)
    ensures mtab == Survivors(slots)
  {
    mtab := [];
    var mntcur := l;
    ghost var n: nat := 0;
    while mntcur != null
      invariant n <= |links| && mntcur == (if n < |links| then links[n] else null)
      invariant mtab + Survivors(slots[n..]) == Survivors(slots)
      decreases |links| - n
    {
      assert links[n].slot == slots[n] && links[n].next == Following(links, n);
      assert slots[n..][0] == slots[n] && slots[n..][1..] == slots[n + 1..];
      if mntcur.slot.Held? {
        mtab := mtab + [mntcur.slot.entry];
      }
      mntcur := mntcur.next;
      n := n + 1;
    }
    assert slots[n..] == [];
  }

  /** For every table that lists directories before those beneath them: nothing is unmounted
      before what is beneath it, the table written back is the old one without the entries
      unmounted, and it lists directories before those beneath them again. */
  lemma UmountKeepsOrder(mtab: seq<Entry>, o: Options, args: seq<string>, ok: nat -> bool)
    requires AncestorsFirst(mtab)
    ensures var w := WalkOver(o, ok, args, Reversed(mtab));
      && DescendantsFirst(w.tried)
      && |w.left| == |mtab|
      && (forall k :: 0 <= k < |mtab| ==> Reversed(w.left)[k] == Held(mtab[k]) || Reversed(w.left)[k] == Gone)
      && AncestorsFirst(Survivors(Reversed(w.left)))
  {
    var es := Reversed(mtab);
    var w := WalkOver(o, ok, args, es);
    OldestFirstReversed(mtab);
    TriedInOrder(o, ok, args, es);
    LeftOf(o, ok, args, es);
    forall k | 0 <= k < |mtab|
      ensures Reversed(w.left)[k] == Held(mtab[k]) || Reversed(w.left)[k] == Gone
    {
      ReversedAt(w.left, k);
      ReversedAt(mtab, |mtab| - 1 - k);
    }
    SurvivorsInOrder(mtab, Reversed(w.left));
  }

  /** Of the entries tried, those whose mount succeeded are in the table. */
  function Mounted(order: seq<Entry>, up: Entry -> bool): (slots: seq<Slot>)
    ensures |slots| == |order|
  {
    seq(|order|, i requires 0 <= i < |order| => if up(order[i]) then Held(order[i]) else Gone)
  }

  /** What mount -a mounts, from a table of any order, umount -a tries in an order that respects
      it, whichever mounts and unmounts succeed. */
  lemma MountThenUmount(es: seq<Entry>, up: Entry -> bool, o: Options, ok: nat -> bool)
    ensures var mtab := Survivors(Mounted(Visited(Build(es), up), up));
      AncestorsFirst(mtab) && DescendantsFirst(WalkOver(o, ok, [], Reversed(mtab)).tried)
  {
    var order := Visited(Build(es), up);
    MountOrder(es, up);
    SurvivorsInOrder(order, Mounted(order, up));
    UmountKeepsOrder(Survivors(Mounted(order, up)), o, [], ok);
  }

  // ---- What mount -a takes from fstab ----

  /** All entries count but those for swapping, to be ignored or not to be mounted now, the root, and those of another type
      than the one asked for. */
  lemma {:induction false} KeptIs(fstab: seq<Entry>, kind: string, e: Entry)
    ensures multiset(Kept(fstab, kind))[e] ==
      if e.kind != "ignore" && e.kind != "swap" && !e.noauto && e.dir != "/" && (kind == "" || e.kind == kind) then multiset(fstab)[e] else 0
  {
    if fstab != [] {
      var front, last := fstab[..|fstab| - 1], fstab[|fstab| - 1];
      KeptIs(front, kind, e);
      assert fstab == front + [last];
    }
  }
}
