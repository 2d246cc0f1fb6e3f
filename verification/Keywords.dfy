/** fgrep: the keywords in force, and what an automaton with its failure links finds. */
module Keywords {
  import opened Common

  const NEWLINE := '\n' as byte

  /** The lines of a text that a newline ends, and what comes after the last newline. */
  datatype Read = Read(lines: seq<Text>, tail: Text)

  /** Reads on from t[i], with these lines and this part of a line already read. */
  function Split(t: Text, i: nat, lines: seq<Text>, cur: Text): Read
    requires i <= |t|
    decreases |t| - i
  {
    if i == |t| then Read(lines, cur)
    else
      assert t[i] in t;
      if t[i] == NEWLINE then Split(t, i + 1, lines + [cur], []) else Split(t, i + 1, lines, cur + [t[i]])
  }

  function ReadAll(t: Text): Read {
    Split(t, 0, [], [])
  }

  lemma SplitNext(t: Text, i: nat, lines: seq<Text>, cur: Text)
    requires i < |t|
    ensures t[i] != 0
    ensures t[i] == NEWLINE ==> Split(t, i, lines, cur) == Split(t, i + 1, lines + [cur], [])
    ensures t[i] != NEWLINE ==> Split(t, i, lines, cur) == Split(t, i + 1, lines, cur + [t[i]])
  {
    assert t[i] in t;
  }

  function Join(r: Read): seq<byte> {
    Joined(r.lines) + r.tail
  }

  function Joined(lines: seq<Text>): seq<byte> {
    if lines == [] then [] else Joined(lines[..|lines| - 1]) + lines[|lines| - 1] + [NEWLINE]
  }

  predicate Clean(lines: seq<Text>) {
    forall k :: 0 <= k < |lines| ==> NEWLINE !in lines[k]
  }

  lemma CleanMore(lines: seq<Text>, cur: Text)
    requires Clean(lines) && NEWLINE !in cur
    ensures Clean(lines + [cur])
  {
  }

  /** Splitting loses nothing, and no line holds a newline. */
  lemma {:induction false} SplitJoins(t: Text, i: nat, lines: seq<Text>, cur: Text)
    requires i <= |t| && Join(Read(lines, cur)) == t[..i] && NEWLINE !in cur && Clean(lines)
    ensures var r := Split(t, i, lines, cur); Join(r) == t && NEWLINE !in r.tail && Clean(r.lines)
    decreases |t| - i
  {
    if i == |t| {
      assert t[..i] == t;
      return;
    }
    SplitNext(t, i, lines, cur);
    if t[i] == NEWLINE {
      JoinLine(lines, cur, t, i);
      CleanMore(lines, cur);
      SplitJoins(t, i + 1, lines + [cur], []);
    } else {
      JoinByte(lines, cur, t, i);
      NoNewline(cur, t[i]);
      SplitJoins(t, i + 1, lines, cur + [t[i]]);
    }
  }

  lemma NoNewline(cur: Text, c: byte)
    requires NEWLINE !in cur && c != NEWLINE
    ensures NEWLINE !in cur + [c]
  {
  }

  lemma JoinLine(lines: seq<Text>, cur: Text, t: Text, i: nat)
    requires i < |t| && t[i] == NEWLINE && Joined(lines) + cur == t[..i]
    ensures Join(Read(lines + [cur], [])) == t[..i + 1]
  {
    assert (lines + [cur])[..|lines|] == lines;
    assert Joined(lines + [cur]) == Joined(lines) + cur + [NEWLINE];
    assert t[..i + 1] == t[..i] + [t[i]];
    assert Joined(lines + [cur]) + [] == Joined(lines + [cur]);
  }

  lemma JoinByte(lines: seq<Text>, cur: Text, t: Text, i: nat)
    requires i < |t| && t[i] != 0 && Joined(lines) + cur == t[..i]
    ensures Join(Read(lines, cur + [t[i]])) == t[..i + 1]
  {
    var j := Joined(lines);
    assert j + (cur + [t[i]]) == (j + cur) + [t[i]];
    assert t[..i + 1] == t[..i] + [t[i]];
  }

  predicate PrefixOfSome(w: Text, lines: seq<Text>) {
    exists k :: 0 <= k < |lines| && w <= lines[k]
  }

  /** The keywords in force: every line, and a last one without newline unless an earlier
      keyword begins with it. */
  ghost predicate Keyword(t: Text, w: Text) {
    var r := ReadAll(t);
    w in r.lines || (w == r.tail && w != [] && !PrefixOfSome(w, r.lines))
  }

  /** For example: after the keyword ab, a last line a that no newline ends is lost. */
  lemma LastLineLost()
    ensures var t: Text := ['a' as byte, 'b' as byte, NEWLINE, 'a' as byte];
      ReadAll(t).tail == ['a' as byte] && !Keyword(t, ['a' as byte])
  {
    var t: Text := ['a' as byte, 'b' as byte, NEWLINE, 'a' as byte];
    var a: Text, ab: Text, none: Text := t[3..], t[..2], [];
    var lines := [ab];
    assert none + [t[0]] == t[..1] && t[..1] + [t[1]] == ab && none + [t[3]] == a && [] + lines == lines;
    SplitNext(t, 0, [], none);
    SplitNext(t, 1, [], t[..1]);
    SplitNext(t, 2, [], ab);
    SplitNext(t, 3, lines, none);
    assert ReadAll(t) == Split(t, 4, lines, a) == Read(lines, a);
    assert a <= lines[0];
  }

  predicate SuffixOf(u: Text, v: Text) {
    |u| <= |v| && v[|v| - |u|..] == u
  }

  lemma SuffixTrans(u: Text, v: Text, x: Text)
    requires SuffixOf(u, v) && SuffixOf(v, x)
    ensures SuffixOf(u, x)
  {
  }

  lemma SuffixGrows(u: Text, v: Text, c: byte)
    requires SuffixOf(u, v) && c != 0
    ensures SuffixOf(u + [c], v + [c])
  {
  }

  /** Some keyword ends w. */
  ghost predicate EndsWithKey(t: Text, w: Text) {
    exists key: Text :: Keyword(t, key) && SuffixOf(key, w)
  }

  ghost predicate BeginsKey(t: Text, w: Text) {
    exists key: Text :: Keyword(t, key) && w <= key
  }

  ghost predicate BeginsWithKey(t: Text, line: seq<byte>) {
    exists key: Text :: key != [] && Keyword(t, key) && key <= line
  }

  predicate Occurs(key: Text, line: seq<byte>) {
    exists a: nat, b: nat :: a <= b <= |line| && line[a..b] == key
  }

  ghost predicate HoldsKey(t: Text, line: seq<byte>) {
    exists key: Text :: Keyword(t, key) && Occurs(key, line)
  }

  lemma KeysAreLines(t: Text, key: Text)
    requires Keyword(t, key)
    ensures NEWLINE !in key
  {
    SplitJoins(t, 0, [], []);
  }

  lemma OccursBefore(key: Text, u: Text, line: seq<byte>)
    requires SuffixOf(key, u) && u <= line
    ensures Occurs(key, line)
  {
    var a: nat := |u| - |key|;
    assert line[a..a + |key|] == u[a..];
  }

  lemma Shorter(t: Text, cur: Text, b: byte)
    requires b != 0 && BeginsKey(t, cur + [b])
    ensures BeginsKey(t, cur)
  {
    var key: Text :| Keyword(t, key) && cur + [b] <= key;
    assert cur <= key;
  }

  lemma EndsLonger(t: Text, u: Text, v: Text)
    requires EndsWithKey(t, u) && SuffixOf(u, v)
    ensures EndsWithKey(t, v)
  {
    var key: Text :| Keyword(t, key) && SuffixOf(key, u);
    SuffixTrans(key, u, v);
  }
}
