/** What a regular expression of grep and ed means.

    A pattern is a sequence of items.  `Spans` says which stretches of a line a
    tail of the pattern matches; the end-of-line item is what makes the rest of
    the line matter.  `Denotes` is the textbook reading as sets of words, and the
    lemmas at the end show the two agree. */
module Patterns {
  import opened Common

  datatype Atom =
    | Char(c: byte)
    | Any
    | Class(members: set<byte>)    // grep: one membership bit per 7-bit character
    | Listed(listed: seq<byte>)    // ed: [...], compared as whole bytes
    | Unlisted(listed: seq<byte>)  // ed: [^...]
  {
    predicate Takes(b: byte) {
      match this
      case Char(c) => b == c
      case Any => true
      case Class(members) => b % 128 in members
      case Listed(listed) => b in listed
      case Unlisted(listed) => b !in listed
    }
  }

  datatype Item =
    | One(atom: Atom)
    | Many(atom: Atom)
    | EndOfLine
    | Open(group: nat)
    | Close(group: nat)

  /** Every byte of line[i..k) is taken by the atom. */
  ghost predicate TakesAll(a: Atom, line: Text, i: nat, k: nat)
    requires k <= |line|
  {
    forall t :: i <= t < k ==> a.Takes(line[t])
  }

  /** items[m..] matches exactly line[i..j). */
  ghost predicate Spans(items: seq<Item>, m: nat, line: Text, i: nat, j: nat)
    requires m <= |items| && i <= j <= |line|
    decreases |items| - m
  {
    if m == |items| then i == j
    else
      match items[m]
      case One(a) => i < j && a.Takes(line[i]) && Spans(items, m + 1, line, i + 1, j)
      case Many(a) => exists k: nat :: i <= k <= j && TakesAll(a, line, i, k) && Spans(items, m + 1, line, k, j)
      case EndOfLine => i == |line| && Spans(items, m + 1, line, i, j)
      case Open(_) => Spans(items, m + 1, line, i, j)
      case Close(_) => Spans(items, m + 1, line, i, j)
  }

  /** items[m..] matches some stretch of the line that starts at i. */
  ghost predicate CanMatch(items: seq<Item>, m: nat, line: Text, i: nat)
    requires m <= |items| && i <= |line|
  {
    exists j: nat :: i <= j <= |line| && Spans(items, m, line, i, j)
  }

  /** The line holds a match; an anchored pattern matches only at the start. */
  ghost predicate Found(anchored: bool, items: seq<Item>, line: Text) {
    exists i: nat :: i <= |line| && (anchored ==> i == 0) && CanMatch(items, 0, line, i)
  }

  /** items[m..] matches from one of the places i, i + 1, ..., top. */
  ghost predicate MatchesWithin(items: seq<Item>, m: nat, line: Text, i: nat, top: nat)
    requires m <= |items| && top <= |line|
  {
    exists k: nat :: i <= k <= top && CanMatch(items, m, line, k)
  }

  /** A repetition that can take line[i..top) and no more can stop anywhere in
      between, and nowhere else. */
  lemma ManyStops(items: seq<Item>, m: nat, line: Text, i: nat, top: nat)
    requires m < |items| && items[m].Many? && i <= top <= |line|
    requires TakesAll(items[m].atom, line, i, top)
    requires top < |line| ==> !items[m].atom.Takes(line[top])
    ensures CanMatch(items, m, line, i) <==> MatchesWithin(items, m + 1, line, i, top)
  {
    if CanMatch(items, m, line, i) {
      var j: nat :| i <= j <= |line| && Spans(items, m, line, i, j);
      var k: nat :| i <= k <= j && TakesAll(items[m].atom, line, i, k) && Spans(items, m + 1, line, k, j);
      assert k <= top;
      assert CanMatch(items, m + 1, line, k);
    }
    var next := m + 1;
    if k: nat :| i <= k <= top && CanMatch(items, next, line, k) {
      var j: nat :| k <= j <= |line| && Spans(items, m + 1, line, k, j);
      assert TakesAll(items[m].atom, line, i, k);
      assert Spans(items, m, line, i, j);
    }
  }

  /** How a match starting at i begins, for every kind of item but a repetition. */
  lemma MatchStep(items: seq<Item>, m: nat, line: Text, i: nat)
    requires m < |items| && i <= |line|
    ensures items[m].One? ==>
      (CanMatch(items, m, line, i) <==>
       i < |line| && items[m].atom.Takes(line[i]) && CanMatch(items, m + 1, line, i + 1))
    ensures items[m].EndOfLine? ==>
      (CanMatch(items, m, line, i) <==> i == |line| && CanMatch(items, m + 1, line, i))
    ensures items[m].Open? || items[m].Close? ==>
      (CanMatch(items, m, line, i) <==> CanMatch(items, m + 1, line, i))
  {
    if !items[m].Many? && CanMatch(items, m, line, i) {
      var j: nat :| i <= j <= |line| && Spans(items, m, line, i, j);
      assert Spans(items, m + 1, line, if items[m].One? then i + 1 else i, j);
    }
    var i' := if items[m].One? then i + 1 else i;
    if !items[m].Many? && i' <= |line| && CanMatch(items, m + 1, line, i') {
      var next := m + 1;
      var j: nat :| i' <= j <= |line| && Spans(items, next, line, i', j);
      assert Spans(items, m, line, i, j) <==>
             (items[m].One? ==> items[m].atom.Takes(line[i])) && (items[m].EndOfLine? ==> i == |line|);
    }
  }

  // ---- Words ----

  /** The set of words one item stands for. */
  ghost predicate ItemDenotes(it: Item, w: Text) {
    match it
    case One(a) => |w| == 1 && a.Takes(w[0])
    case Many(a) => forall t :: 0 <= t < |w| ==> a.Takes(w[t])
    case _ => w == []
  }

  /** The set of words a pattern stands for: the concatenation of its items' sets. */
  ghost predicate Denotes(body: seq<Item>, w: Text) {
    if body == [] then w == []
    else exists k: nat :: k <= |w| && ItemDenotes(body[0], w[..k]) && Denotes(body[1..], w[k..])
  }

  ghost predicate Unanchored(body: seq<Item>) {
    forall t :: 0 <= t < |body| ==> !body[t].EndOfLine?
  }

  /** A pattern, as written: a body between an optional ^ and an optional $. */
  function Program(body: seq<Item>, atEnd: bool): seq<Item> {
    if atEnd then body + [EndOfLine] else body
  }

  lemma {:induction false} SpansGiveWords(body: seq<Item>, atEnd: bool, m: nat, line: Text, i: nat, j: nat)
    requires Unanchored(body) && m <= |body| && i <= j <= |line|
    requires Spans(Program(body, atEnd), m, line, i, j)
    ensures Denotes(body[m..], line[i..j]) && (atEnd ==> j == |line|)
    decreases |body| - m
  {
    if m < |body| {
      var k: nat := SplitOfSpan(Program(body, atEnd), m, line, i, j);
      SpansGiveWords(body, atEnd, m + 1, line, k, j);
      SliceOfSlice(line, i, k, j);
      assert body[m..][1..] == body[m + 1..];
      JoinWord(body[m..], line[i..j], k - i);
    }
  }

  lemma {:induction false} WordsGiveSpans(body: seq<Item>, atEnd: bool, m: nat, line: Text, i: nat, j: nat)
    requires Unanchored(body) && m <= |body| && i <= j <= |line|
    requires Denotes(body[m..], line[i..j]) && (atEnd ==> j == |line|)
    ensures Spans(Program(body, atEnd), m, line, i, j)
    decreases |body| - m
  {
    if m == |body| {
      assert line[i..j] == [];
    } else {
      var n: nat := SplitOfWord(body[m..], line[i..j]);
      var k: nat := i + n;
      SliceOfSlice(line, i, k, j);
      assert body[m..][1..] == body[m + 1..] && body[m..][0] == Program(body, atEnd)[m];
      assert line[i..j][..n] == line[i..k] && line[i..j][n..] == line[k..j];
      WordsGiveSpans(body, atEnd, m + 1, line, k, j);
      JoinSpan(Program(body, atEnd), m, line, i, k, j);
    }
  }

  lemma SliceOfSlice(line: Text, i: nat, k: nat, j: nat)
    requires i <= k <= j <= |line|
    ensures line[i..j][..k - i] == line[i..k] && line[i..j][k - i..] == line[k..j]
  {
  }

  lemma SplitOfWord(body: seq<Item>, w: Text) returns (k: nat)
    requires body != [] && Denotes(body, w)
    ensures k <= |w| && ItemDenotes(body[0], w[..k]) && Denotes(body[1..], w[k..])
  {
    k :| k <= |w| && ItemDenotes(body[0], w[..k]) && Denotes(body[1..], w[k..]);
  }

  /** Where the first item of a match ends. */
  lemma SplitOfSpan(items: seq<Item>, m: nat, line: Text, i: nat, j: nat) returns (k: nat)
    requires m < |items| && i <= j <= |line| && !items[m].EndOfLine?
    requires Spans(items, m, line, i, j)
    ensures i <= k <= j && ItemDenotes(items[m], line[i..k]) && Spans(items, m + 1, line, k, j)
  {
    match items[m] {
      case One(_) => k := i + 1;
      case Many(a) =>
        k :| i <= k <= j && TakesAll(a, line, i, k) && Spans(items, m + 1, line, k, j);
      case _ => k := i;
    }
  }

  lemma JoinSpan(items: seq<Item>, m: nat, line: Text, i: nat, k: nat, j: nat)
    requires m < |items| && i <= k <= j <= |line| && !items[m].EndOfLine?
    requires ItemDenotes(items[m], line[i..k]) && Spans(items, m + 1, line, k, j)
    ensures Spans(items, m, line, i, j)
  {
    var w := line[i..k];
    assert forall t :: i <= t < k ==> line[t] == w[t - i];
    if items[m].Many? {
      assert TakesAll(items[m].atom, line, i, k);
    }
  }

  lemma JoinWord(body: seq<Item>, w: Text, k: nat)
    requires body != [] && k <= |w|
    requires ItemDenotes(body[0], w[..k]) && Denotes(body[1..], w[k..])
    ensures Denotes(body, w)
  {
  }

  /** A search succeeds exactly when the line contains a word of the pattern's
      language, at the start if ^ says so and at the end if $ says so. */
  lemma FoundIsContainment(anchored: bool, body: seq<Item>, atEnd: bool, line: Text)
    requires Unanchored(body)
    ensures Found(anchored, Program(body, atEnd), line) <==>
            exists i: nat, j: nat :: i <= j <= |line| && (anchored ==> i == 0) && (atEnd ==> j == |line|) &&
              Denotes(body, line[i..j])
  {
    var items := Program(body, atEnd);
    assert body[0..] == body;
    if Found(anchored, items, line) {
      var i: nat :| i <= |line| && (anchored ==> i == 0) && CanMatch(items, 0, line, i);
      var j: nat :| i <= j <= |line| && Spans(items, 0, line, i, j);
      SpansGiveWords(body, atEnd, 0, line, i, j);
    }
    if exists i: nat, j: nat ::
        i <= j <= |line| && (anchored ==> i == 0) && (atEnd ==> j == |line|) && Denotes(body, line[i..j])
    {
      var i: nat, j: nat :|
        i <= j <= |line| && (anchored ==> i == 0) && (atEnd ==> j == |line|) && Denotes(body, line[i..j]);
      WordsGiveSpans(body, atEnd, 0, line, i, j);
      assert CanMatch(items, 0, line, i);
    }
  }
}
