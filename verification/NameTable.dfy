/** ps: a table from user ids to login names, filled from the password file as far as needed. */
module NameTable {

  const NUID: nat := 2048
  const NMAX: nat := 8
  const STRIDE: nat := 5
  const INVERSE: nat := 1229   // STRIDE * INVERSE == 3 * NUID + 1

  datatype Passwd = Passwd(name: string, uid: int)
  datatype Found<T> = Some(value: T) | None

  newtype ushort = x: int | 0 <= x < 65536

  // ---- Probing ----

  /** The k-th slot looked at from a start. */
  function Probe(start: nat, k: nat): (j: nat)
    ensures j < NUID
  {
    (start + STRIDE * k) % NUID
  }

  /** When slot j is looked at. */
  function When(start: nat, j: nat): (k: nat)
    requires start < NUID && j < NUID
    ensures k < NUID
  {
    (j + NUID - start) * INVERSE % NUID
  }

  /** Stepping by 5 comes to every slot, and not to the start again before that. */
  lemma ProbesAll(start: nat, j: nat)
    requires start < NUID && j < NUID
    ensures Probe(start, When(start, j)) == j
  {
    var d := j + NUID - start;
    var k, q := When(start, j), d * INVERSE / NUID;
    assert d * 1229 == 2048 * q + k;
    ModIs(start + 5 * k, 1 + 3 * d - 5 * q, j);
  }

  lemma ProbeReturns(start: nat, k: nat)
    requires start < NUID && 0 < k <= NUID && Probe(start, k) == start
    ensures k == NUID
  {
    var q := (start + STRIDE * k) / NUID;
    assert STRIDE * k == NUID * q;
    assert k == NUID * (q * INVERSE - 3 * k);
  }

  lemma ProbeNext(start: nat, k: nat)
    ensures Probe(start, k + 1) ==
            if Probe(start, k) + STRIDE >= NUID then Probe(start, k) + STRIDE - NUID else Probe(start, k) + STRIDE
  {
    assert start + STRIDE * (k + 1) == (start + STRIDE * k) + STRIDE;
  }

  lemma ProbeAround(start: nat)
    requires start < NUID
    ensures Probe(start, 0) == Probe(start, NUID) == start
  {
    ModIs(start + STRIDE * NUID, STRIDE, start);
  }

  lemma ModIs(x: int, c: int, k: nat)
    requires x == k + NUID * c && k < NUID
    ensures x % NUID == k
  {
  }

  lemma WhenIsInverse(start: nat, k: nat)
    requires start < NUID && k < NUID
    ensures When(start, Probe(start, k)) == k
  {
    var j := Probe(start, k);
    var q := (start + STRIDE * k) / NUID;
    assert start + STRIDE * k == NUID * q + j;
    ModIs((j + NUID - start) * INVERSE, 3 * k + INVERSE - q * INVERSE, k);
  }

  // ---- What the table is for ----

  function Cut(s: string): string {
    if |s| <= NMAX then s else s[..NMAX]
  }

  /** The name of the first of these entries with the uid. */
  function Lookup(pws: seq<Passwd>, uid: ushort): Found<string> {
    if pws == [] then None
    else
      var before := Lookup(pws[..|pws| - 1], uid);
      if before.Some? then before
      else if pws[|pws| - 1].uid == uid as int then Some(Cut(pws[|pws| - 1].name)) else None
  }

  function Uids(pws: seq<Passwd>): set<ushort> {
    set p <- pws | 0 <= p.uid < 65536 :: p.uid as ushort
  }

  lemma {:induction false} LookupFinds(pws: seq<Passwd>, uid: ushort)
    ensures Lookup(pws, uid).Some? <==> uid in Uids(pws)
  {
    if pws != [] {
      var front, last := pws[..|pws| - 1], pws[|pws| - 1];
      LookupFinds(front, uid);
      assert pws == front + [last];
      if uid in Uids(pws) {
        var p :| p in pws && p.uid == uid as int;
        assert p in front || p == last;
      }
    }
  }

  lemma LookupNext(pws: seq<Passwd>, n: nat, uid: ushort)
    requires n < |pws|
    ensures Lookup(pws[..n + 1], uid) ==
            if Lookup(pws[..n], uid).Some? then Lookup(pws[..n], uid)
            else if pws[n].uid == uid as int then Some(Cut(pws[n].name)) else None
  {
    assert pws[..n + 1][..n] == pws[..n];
  }

  /** Once found, found for good. */
  lemma {:induction false} LookupStays(pws: seq<Passwd>, n: nat, uid: ushort)
    requires n <= |pws| && Lookup(pws[..n], uid).Some?
    ensures Lookup(pws, uid) == Lookup(pws[..n], uid)
    decreases |pws| - n
  {
    if n == |pws| {
      assert pws[..n] == pws;
    } else {
      LookupNext(pws, n, uid);
      LookupStays(pws, n + 1, uid);
    }
  }

  function Values(s: seq<ushort>): set<ushort> {
    set x | x in s
  }

  /** As many different values as places. */
  lemma {:induction false} DistinctCount(s: seq<ushort>)
    requires forall i, j :: 0 <= i < j < |s| ==> s[i] != s[j]
    ensures |Values(s)| == |s|
  {
    if s != [] {
      var front, last := s[..|s| - 1], s[|s| - 1];
      DistinctCount(front);
      assert s == front + [last];
      assert Values(s) == Values(front) + {last};
    }
  }

  // ---- The table ----

  class Names {
    const name: array<string>
    const uid: array<ushort>
    const passwd: seq<Passwd>
    var init: nat
    var pos: nat                // how far the password file has been read

    constructor (passwd: seq<Passwd>)
      requires forall p :: p in passwd ==> p.name != "" && p.uid < 65536
      ensures Valid() && this.passwd == passwd && fresh(name) && fresh(uid)
    {
      this.passwd := passwd;
      name := new string[NUID](_ => "");
      uid := new ushort[NUID];
      init, pos := 0, 0;
    }

    ghost predicate Shape()
      reads this
    {
      var n: object, u: object := name, uid;
      && name.Length == uid.Length == NUID && n != u && pos <= |passwd|
      && forall p :: p in passwd ==> p.name != "" && p.uid < 65536
    }

    /** Slot j belongs to somebody else. */
    predicate Taken(j: nat, u: ushort)
      requires name.Length == uid.Length == NUID && j < NUID
      reads name, uid
    {
      name[j] != "" && uid[j] != u
    }

    /** The entry in slot j can be found by probing. */
    ghost predicate Placed(j: nat)
      requires Shape() && j < NUID
      reads this, name, uid
    {
      name[j] != "" ==> forall i: nat {:trigger Probe(Start(uid[j]), i)} :: i < When(Start(uid[j]), j) ==>
        Taken(Probe(Start(uid[j]), i), uid[j])
    }

    ghost predicate Right(j: nat)
      requires Shape() && j < NUID
      reads this, name, uid
    {
      name[j] != "" ==> Lookup(passwd[..pos], uid[j]) == Some(name[j])
    }

    /** There is a slot with the uid. */
    ghost predicate Listed(u: ushort)
      requires Shape()
      reads this, name, uid
    {
      exists j :: 0 <= j < NUID && name[j] != "" && uid[j] == u
    }

    /** The table holds what the part of the file that was read says, and each uid where it will
        be looked for. */
    ghost predicate Valid()
      reads this, name, uid
    {
      && Shape()
      && (forall j :: 0 <= j < NUID ==> Placed(j) && Right(j))
      && (forall i, j :: 0 <= i < j < NUID && name[i] != "" && name[j] != "" ==> uid[i] != uid[j])
      && (forall u :: Lookup(passwd[..pos], u).Some? ==> Listed(u))
      && (init == 0 ==> pos == 0)
      && (init != 0 && init != 1 ==> pos == |passwd| || |Uids(passwd)| > NUID)
    }

    /** uid % (NUID - 20) */
    function Start(u: ushort): (j: nat)
      ensures j < NUID
    {
      u as int % (NUID - 20)
    }

    /** The slot of the uid, or an empty one for it; none only if every slot belongs to others. */
    method FindSlot(u: ushort) returns (slot: Found<nat>)
      requires Shape()
      ensures slot.None? <==> forall j :: 0 <= j < NUID ==> Taken(j, u)
      ensures slot.Some? ==> slot.value < NUID && !Taken(slot.value, u)
      ensures slot.Some? ==> forall i: nat {:trigger Probe(Start(u), i)} :: i < When(Start(u), slot.value) ==>
        Taken(Probe(Start(u), i), u)
    {
      var start: nat := Start(u);
      var n: nat := start;
      ghost var k: nat := 0;
      while name[n] != "" && uid[n] != u
        invariant k < NUID && n == Probe(start, k)
        invariant forall i: nat {:trigger Probe(start, i)} :: i < k ==> Taken(Probe(start, i), u)
        decreases NUID - k
      {
        n := n + STRIDE;
        if n >= NUID {
          n := n - NUID;
        }
        k := k + 1;
        ProbeNext(start, k - 1);
        if n == start {
          ProbeReturns(start, k);
          forall j | 0 <= j < NUID
            ensures Taken(j, u)
          {
            ProbesAll(start, j);
          }
          return None;
        }
        ProbeAround(start);
      }
      WhenIsInverse(start, k);
      assert !Taken(n, u);
      slot := Some(n);
    }

    /** An empty slot found for a uid means that no slot has it. */
    lemma FreeMeansAbsent(u: ushort, slot: nat)
      requires Valid() && slot < NUID && name[slot] == ""
      requires forall i: nat {:trigger Probe(Start(u), i)} :: i < When(Start(u), slot) ==> Taken(Probe(Start(u), i), u)
      ensures !Listed(u) && Lookup(passwd[..pos], u) == None
    {
      if Listed(u) {
        var j :| 0 <= j < NUID && name[j] != "" && uid[j] == u;
        assert Placed(j);
        ProbesAll(Start(u), j);
        ProbesAll(Start(u), slot);
      }
    }

    /** The slot of a uid holds its name. */
    lemma HeldIsRight(u: ushort, slot: nat)
      requires Valid() && slot < NUID && name[slot] != "" && uid[slot] == u
      ensures Lookup(passwd, u) == Some(name[slot])
    {
      assert Right(slot);
      LookupStays(passwd, pos, u);
    }

    /** When every slot belongs to others, the uid is in no entry, unless there are too many uids. */
    lemma FullMeansAbsent(u: ushort)
      requires Valid() && forall j :: 0 <= j < NUID ==> Taken(j, u)
      ensures Lookup(passwd, u) == None || |Uids(passwd)| > NUID
    {
      LookupFinds(passwd, u);
      var held := uid[..];
      assert forall j :: 0 <= j < NUID ==> Taken(j, u) && held[j] == uid[j];
      DistinctCount(held);
      forall x | x in Values(held)
        ensures x in Uids(passwd) && x != u
      {
        var j :| 0 <= j < |held| && held[j] == x;
        assert Taken(j, u);
        HeldIsRight(x, j);
        LookupFinds(passwd, x);
      }
      if u in Uids(passwd) {
        Subset(Values(held) + {u}, Uids(passwd));
      }
    }

    lemma Subset(a: set<ushort>, b: set<ushort>)
      requires a <= b
      ensures |a| <= |b|
    {
      if a != {} {
        var x :| x in a;
        Subset(a - {x}, b - {x});
      }
    }

    /** Reads past an entry whose uid is in the table already, or is negative. */
    method Pass()
      requires Valid() && init == 1 && pos < |passwd|
      requires passwd[pos].uid < 0 || Lookup(passwd[..pos], passwd[pos].uid as ushort).Some?
      modifies this`pos
      ensures Valid() && init == 1 && pos == old(pos) + 1
    {
      pos := pos + 1;
      forall u
        ensures Lookup(passwd[..pos], u) == Lookup(passwd[..old(pos)], u)
      {
        LookupNext(passwd, old(pos), u);
      }
      forall j | 0 <= j < NUID
        ensures Placed(j) && Right(j)
      {
        assert old(Placed(j)) && old(Right(j));
      }
      forall u | Lookup(passwd[..pos], u).Some?
        ensures Listed(u)
      {
        assert old(Listed(u));
      }
    }

    /** Enters the next entry of the file in the slot found for it. */
    method Enter(slot: nat)
      requires Valid() && init == 1 && pos < |passwd| && passwd[pos].uid >= 0 && slot < NUID && name[slot] == ""
      requires Lookup(passwd[..pos], passwd[pos].uid as ushort) == None && !Listed(passwd[pos].uid as ushort)
      requires var u := passwd[pos].uid as ushort;
        forall i: nat {:trigger Probe(Start(u), i)} :: i < When(Start(u), slot) ==> Taken(Probe(Start(u), i), u)
      modifies this`pos, name, uid
      ensures Valid() && init == 1 && pos == old(pos) + 1
      ensures name[slot] == Cut(passwd[old(pos)].name) && uid[slot] as int == passwd[old(pos)].uid
    {
      var pw := passwd[pos];
      assert pw in passwd;
      name[slot] := Cut(pw.name);
      uid[slot] := pw.uid as ushort;
      pos := pos + 1;
      LookupNext(passwd, old(pos), uid[slot]);
      forall j | 0 <= j < NUID
        ensures Placed(j) && Right(j)
      {
        if j != slot {
          assert old(Placed(j)) && old(Right(j));
          LookupNext(passwd, old(pos), uid[j]);
        }
      }
      forall u | Lookup(passwd[..pos], u).Some?
        ensures Listed(u)
      {
        LookupNext(passwd, old(pos), u);
        if u != uid[slot] {
          var j :| 0 <= j < NUID && old(name[j]) != "" && old(uid[j]) == u;
          assert name[j] != "" && uid[j] == u;
        } else {
          assert name[slot] != "";
        }
      }
    }

    /** setpwent or endpwent, after which init has this value. */
    method SetInit(k: nat)
      requires Valid() && (k == 0 ==> pos == 0)
      requires k > 1 ==> pos == |passwd| || |Uids(passwd)| > NUID
      modifies this`init
      ensures Valid() && init == k
    {
      init := k;
      forall j | 0 <= j < NUID
        ensures Placed(j) && Right(j)
      {
        assert old(Placed(j)) && old(Right(j));
      }
      forall u | Lookup(passwd[..pos], u).Some?
        ensures Listed(u)
      {
        assert old(Listed(u));
      }
    }

    /** One entry of the file: entered, if its uid is new; ok unless there is no room. */
    method ReadEntry() returns (ok: bool, slot: Found<nat>)
      requires Valid() && init == 1 && pos < |passwd|
      modifies this`pos, name, uid
      ensures Valid() && init == 1 && (ok ==> pos == old(pos) + 1)
      ensures !ok ==> |Uids(passwd)| > NUID
      ensures ok && slot.Some? ==> slot.value < NUID && name[slot.value] != "" && uid[slot.value] as int == passwd[old(pos)].uid
      ensures ok && slot.None? ==> passwd[old(pos)].uid < 0 || Lookup(passwd[..old(pos)], passwd[old(pos)].uid as ushort).Some?
    {
      var pw := passwd[pos];
      assert pw in passwd;
      ok, slot := true, None;
      if pw.uid < 0 {
        Pass();
        return;
      }
      var v := pw.uid as ushort;
      slot := FindSlot(v);
      if slot.None? {
        EntryIsListed(pos);
        FullMeansAbsent(v);
        ok := false;
      } else if name[slot.value] != "" {
        assert Right(slot.value);
        Pass();
        slot := None;
      } else {
        FreeMeansAbsent(v, slot.value);
        CutKeeps(pw.name);
        Enter(slot.value);
      }
    }

    lemma CutKeeps(s: string)
      ensures s != "" ==> Cut(s) != ""
    {
    }

    /** The rest of the file, until an entry has the uid. */
    method ReadOn(u: ushort) returns (r: Found<string>)
      requires Valid() && init == 1 && Lookup(passwd[..pos], u) == None
      modifies this, name, uid
      ensures Valid() && (|Uids(passwd)| <= NUID || r.Some? ==> r == Lookup(passwd, u))
    {
      while pos < |passwd|
        invariant Valid() && init == 1 && Lookup(passwd[..pos], u) == None
        decreases |passwd| - pos
      {
        LookupNext(passwd, pos, u);
        var slot, ok;
        ok, slot := ReadEntry();
        if !ok {
          SetInit(2);
          return None;
        }
        if slot.Some? && uid[slot.value] == u {
          HeldIsRight(u, slot.value);
          return Some(name[slot.value]);
        }
      }
      assert passwd[..pos] == passwd;
      SetInit(2);
      r := None;
    }

    lemma EntryIsListed(k: nat)
      requires k < |passwd| && 0 <= passwd[k].uid < 65536
      ensures Lookup(passwd, passwd[k].uid as ushort).Some?
    {
      LookupFinds(passwd, passwd[k].uid as ushort);
      assert passwd[k] in passwd;
    }

    /** getname: whatever was asked before, the name of the first entry with the uid, as long as
        the file has no more uids than the table has slots; any name returned is right in any case. */
    method GetName(u: ushort) returns (r: Found<string>)
      requires Valid()
      modifies this, name, uid
      ensures Valid()
      ensures |Uids(passwd)| <= NUID || r.Some? ==> r == Lookup(passwd, u)
    {
      var slot := FindSlot(u);
      if slot.None? {
        FullMeansAbsent(u);
        return None;
      }
      if name[slot.value] != "" {
        HeldIsRight(u, slot.value);
        return Some(name[slot.value]);
      }
      FreeMeansAbsent(u, slot.value);
      if init == 0 {
        SetInit(1);
      }
      if init == 1 {
        r := ReadOn(u);
        return;
      }
      assert pos == |passwd| ==> passwd[..pos] == passwd;
      r := None;
    }
  }
}