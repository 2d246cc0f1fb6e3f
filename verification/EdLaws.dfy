/** What a user of ed's searches can rely on. */
module EdLaws {
  import opened Common
  import opened Patterns
  import opened EdSyntax
  import opened Greedy
  import opened EdRegex
  import S = GrepSyntax
  import W = Written
  import opened WrittenItems
  import opened EdReading
  import opened EdMatches

  /** line[i..j) is a word of the pattern's language, in a place where ^ and $ allow it. */
  ghost predicate WordAt(anchored: bool, body: seq<Item>, atEnd: bool, line: Text, i: nat, j: nat) {
    i <= j <= |line| && (anchored ==> i == 0) && (atEnd ==> j == |line|) && Denotes(body, line[i..j])
  }

  /** The match from i is the preferred one: it ends at j and has left these marks. */
  ghost predicate Prefers(items: seq<Item>, line: Text, i: nat, j: nat, marks: Marks) {
    && i <= |line| && CanMatch(items, 0, line, i) && j == MatchEnd(items, line, i)
    && marks.Sized() && Grouped(items) && Captured(items, line, marks, 0, i, |items|)
  }

  /** From the start of the program: one pattern, up to its delimiter, and one line. */
  method Search(p: seq<byte>, eof: byte, text: Text)
    returns (ok: bool, found: bool, loc1: nat, loc2: nat, begins: seq<int>, ends: seq<int>)
    requires Ascii(p) && p != [] && p[0] != eof && eof != 0 && !Parse(p, eof).Unmodelled?
    ensures var r := Parse(p, eof);
      && (ok <==> r.Regex? && S.CodeSize(Program(r.body, r.atEnd)) < ESIZE)
      && (ok ==> (found <==> exists i: nat, j: nat :: WordAt(Anchored(p), r.body, r.atEnd, text, i, j)))
      && (ok && found ==> WordAt(Anchored(p), r.body, r.atEnd, text, loc1, loc2))
      && (ok && found ==> forall i: nat, j: nat :: WordAt(Anchored(p), r.body, r.atEnd, text, i, j) ==> loc1 <= i)
      && (ok && found ==> Prefers(Program(r.body, r.atEnd), text, loc1, loc2, Marks(begins, ends)))
  {
    var m := new Matcher(text);
    ok, found := CompileAndExecute(m, p, eof);
    loc1, loc2, begins, ends := m.loc1, m.loc2, m.braslist[..], m.braelist[..];
  }

  /** Compiling a pattern and looking for it in a line finds a word of the pattern's language,
      if the line holds one, and none begins further left. */
  method CompileAndExecute(m: Matcher, p: seq<byte>, eof: byte) returns (ok: bool, found: bool)
    requires m.expbuf.Length == ESIZE + 4 && m.Loaded() && m.Apart()
    requires Ascii(p) && p != [] && p[0] != eof && eof != 0 && !Parse(p, eof).Unmodelled?
    modifies m, m.expbuf, m.braslist, m.braelist
    ensures m.line == old(m.line) && m.linebuf[..] == old(m.linebuf[..])
    ensures var r := Parse(p, eof);
      && (ok <==> r.Regex? && S.CodeSize(Program(r.body, r.atEnd)) < ESIZE)
      && (ok ==> (found <==> exists i: nat, j: nat :: WordAt(Anchored(p), r.body, r.atEnd, m.line, i, j)))
      && (ok && found ==> WordAt(Anchored(p), r.body, r.atEnd, m.line, m.loc1, m.loc2))
      && (ok && found ==> forall i: nat, j: nat :: WordAt(Anchored(p), r.body, r.atEnd, m.line, i, j) ==> m.loc1 <= i)
      && (ok && found ==> Prefers(Program(r.body, r.atEnd), m.line, m.loc1, m.loc2, m.Marked()))
  {
    var rest;
    ok, rest := m.Compile(p, eof);
    found := false;
    if ok {
      ghost var r := Parse(p, eof);
      found := m.Execute();
      ParseGrows(if Anchored(p) then p[1..] else p, eof, START);
      WordsAreMatches(Anchored(p), r.body, r.atEnd, m.line);
      if found {
        LeftmostWord(Anchored(p), r.body, r.atEnd, m.line, m.loc1, m.loc2);
      }
    }
  }

  /** The preferred match from the first place that has one is a word, and none begins further left. */
  lemma LeftmostWord(anchored: bool, body: seq<Item>, atEnd: bool, line: Text, i: nat, j: nat)
    requires Unanchored(body) && i <= |line| && (anchored ==> i == 0) && CanMatch(Program(body, atEnd), 0, line, i)
    requires j == MatchEnd(Program(body, atEnd), line, i) && (!anchored ==> NoneBelow(Program(body, atEnd), line, i))
    ensures WordAt(anchored, body, atEnd, line, i, j)
    ensures forall k: nat, l: nat :: WordAt(anchored, body, atEnd, line, k, l) ==> i <= k
  {
    ReachSpans(Program(body, atEnd), 0, line, i);
    SpansGiveWords(body, atEnd, 0, line, i, j);
    assert body[0..] == body;
    forall k: nat, l: nat | WordAt(anchored, body, atEnd, line, k, l)
      ensures i <= k
    {
      WordMatches(anchored, body, atEnd, line, k, l);
    }
  }

  lemma WordMatches(anchored: bool, body: seq<Item>, atEnd: bool, line: Text, i: nat, j: nat)
    requires Unanchored(body) && WordAt(anchored, body, atEnd, line, i, j)
    ensures CanMatch(Program(body, atEnd), 0, line, i)
  {
    assert body[0..] == body;
    WordsGiveSpans(body, atEnd, 0, line, i, j);
  }

  lemma WordsAreMatches(anchored: bool, body: seq<Item>, atEnd: bool, line: Text)
    requires Unanchored(body)
    ensures Found(anchored, Program(body, atEnd), line) <==>
            exists i: nat, j: nat :: WordAt(anchored, body, atEnd, line, i, j)
  {
    FoundIsContainment(anchored, body, atEnd, line);
    if i: nat, j: nat :| i <= j <= |line| && (anchored ==> i == 0) && (atEnd ==> j == |line|) && Denotes(body, line[i..j]) {
      assert WordAt(anchored, body, atEnd, line, i, j);
    }
    if i: nat, j: nat :| WordAt(anchored, body, atEnd, line, i, j) {
      assert Denotes(body, line[i..j]);
    }
  }

  // ---- Patterns as they are written ----

  lemma TypedAscii(w: W.Pattern, eof: byte, rest: seq<byte>)
    requires W.Fits(W.Ed, w, eof) && eof < 128 && Ascii(rest)
    ensures Ascii(W.PatternText(w, eof) + ([eof] + rest))
  {
    W.TextFits(W.Ed, w.pieces, 0, w.atEnd, eof);
    var t := W.TextFrom(w.pieces, 0, w.atEnd, eof);
    assert forall i :: 0 <= i < |t| ==> W.CharFits(W.Ed, t[i]);
  }

  /** A pattern as it is written, its delimiter and the rest of the command: it is refused exactly if it is
      too long, and otherwise finds a leftmost stretch of the line that the pattern stands for, if there is any.
      Of all that begin there it is the one in which each repetition in turn takes as much as it can, and the
      marks of the groups are the places where they begin and end in it. */
  method Find(w: W.Pattern, eof: byte, rest: seq<byte>, text: Text)
    returns (ok: bool, found: bool, loc1: nat, loc2: nat, begins: seq<int>, ends: seq<int>, ghost at: seq<nat>)
    requires W.Fits(W.Ed, w, eof) && eof < 128 && Ascii(rest)
    ensures ok <==> W.Size(W.Ed, w) < 128
    ensures ok ==> (found <==> exists i: nat, j: nat :: W.Matches(W.Ed, w, text, i, j))
    ensures ok && found ==> W.Matches(W.Ed, w, text, loc1, loc2)
    ensures ok && found ==> forall i: nat, j: nat :: W.Matches(W.Ed, w, text, i, j) ==> loc1 <= i
    ensures ok && found ==> Course(w, text, at, loc1, loc2) && Marked(w.pieces, at, begins, ends)
  {
    TypedAscii(w, eof, rest);
    ghost var body := ReadsWhatIsWritten(w, eof, rest);
    ok, found, loc1, loc2, begins, ends := Search(W.PatternText(w, eof) + ([eof] + rest), eof, text);
    WordsMatch(w, body, text);
    at := [];
    if ok && found {
      at := MadeUp(w, body, text, loc1, loc2, Marks(begins, ends));
    }
  }

  lemma MadeUp(w: W.Pattern, body: seq<Item>, line: Text, i: nat, j: nat, marks: Marks) returns (at: seq<nat>)
    requires Means(W.Ed, body, w.pieces, |w.pieces|) && GroupsAre(w.pieces, |w.pieces|, body)
    requires Prefers(Program(body, w.atEnd), line, i, j, marks)
    ensures Course(w, line, at, i, j) && Marked(w.pieces, at, marks.begins, marks.ends)
  {
    at := TakesItsCourse(w, body, Program(body, w.atEnd), line, i);
    LeavesMarks(w, body, Program(body, w.atEnd), line, i, at, marks);
  }

  lemma WordsMatch(w: W.Pattern, body: seq<Item>, line: Text)
    requires Means(W.Ed, body, w.pieces, |w.pieces|)
    ensures forall i: nat, j: nat :: WordAt(w.anchored, body, w.atEnd, line, i, j) <==> W.Matches(W.Ed, w, line, i, j)
  {
    forall i: nat, j: nat
      ensures WordAt(w.anchored, body, w.atEnd, line, i, j) <==> W.Matches(W.Ed, w, line, i, j)
    {
      if i <= j <= |line| {
        assert body[0..] == body;
        DenotesReads(W.Ed, body, w.pieces, 0, line[i..j]);
      }
    }
  }

  /** The escaped form of a word, after any delimiter but one that an escape would turn into
      something else, finds exactly the places where the line holds the word. */
  lemma QuotedWordFindsWord(w: Text, eof: byte, line: Text, i: nat, j: nat)
    requires w != [] && (forall k :: 0 <= k < |w| ==> w[k] < 128 && w[k] != '\n' as byte)
    requires eof !in {0, '\\' as byte, '(' as byte, ')' as byte} && !('1' as byte <= eof <= '5' as byte)
    ensures W.Fits(W.Ed, W.Quoted(w), eof)
    ensures W.Matches(W.Ed, W.Quoted(w), line, i, j) <==> i <= j <= |line| && line[i..j] == w
  {
    QuotedFits(w, eof, 0);
    assert W.TextFrom(W.Quoted(w).pieces, 0, false, eof) != [];
    if i <= j <= |line| {
      W.QuotedReads(W.Ed, w, 0, line[i..j]);
      assert w[0..] == w;
    }
  }

  lemma {:induction false} QuotedFits(w: Text, eof: byte, k: nat)
    requires k <= |w| && (forall k :: 0 <= k < |w| ==> w[k] < 128 && w[k] != '\n' as byte)
    requires eof !in {0, '\\' as byte, '(' as byte, ')' as byte} && !('1' as byte <= eof <= '5' as byte)
    ensures W.GroupsFit(W.Ed, W.Quoted(w).pieces, k, 0, 0)
    ensures forall i :: 0 <= i < |w| ==> W.PieceFits(W.Ed, W.Quoted(w).pieces[i], eof)
    decreases |w| - k
  {
    assert forall i :: 0 <= i < |w| ==> w[i] in w;
    if k < |w| {
      QuotedFits(w, eof, k + 1);
    }
  }

  /** For example: how /a.c/ is made up, and that it matches all of abc. */
  lemma AnyCharacter()
    ensures var w := W.Pattern(false, [W.Once(W.Exactly('a' as byte)), W.Once(W.AnyOne), W.Once(W.Exactly('c' as byte))], false);
      && W.PatternText(w, '/' as byte) == ['a' as byte, '.' as byte, 'c' as byte] && W.Fits(W.Ed, w, '/' as byte)
      && W.Matches(W.Ed, w, ['a' as byte, 'b' as byte, 'c' as byte], 0, 3)
  {
    var eof := '/' as byte;
    var ps := [W.Once(W.Exactly('a' as byte)), W.Once(W.AnyOne), W.Once(W.Exactly('c' as byte))];
    var abc := ['a' as byte, 'b' as byte, 'c' as byte];
    assert W.TextFrom(ps, 3, false, eof) == [];
    assert W.TextFrom(ps, 2, false, eof) == ['c' as byte];
    assert W.TextFrom(ps, 1, false, eof) == ['.' as byte, 'c' as byte];
    assert W.TextFrom(ps, 0, false, eof) == ['a' as byte, '.' as byte, 'c' as byte];
    assert W.GroupsFit(W.Ed, ps, 3, 0, 0) && W.GroupsFit(W.Ed, ps, 2, 0, 0) && W.GroupsFit(W.Ed, ps, 1, 0, 0);
    assert abc[0..3] == abc && abc[1..][1..] == ['c' as byte] && abc[1..][0] == 'b' as byte;
    assert W.Reads(W.Ed, ps, 3, abc[1..][1..][1..]);
    assert W.Reads(W.Ed, ps, 2, abc[1..][1..]) && W.Reads(W.Ed, ps, 1, abc[1..]) && W.Reads(W.Ed, ps, 0, abc);
  }

  /** For example: of the four places in \(\(\)\) the inner two are the second group's. */
  lemma Nested(ps: seq<W.Piece>, a: nat, b: nat, c: nat, d: nat)
    requires ps == [W.Begin, W.Begin, W.End, W.End] && a == 1 && b == 2 && c == 3 && d == 4
    ensures W.Begun(ps, a - 1) == 0 && W.Begun(ps, a) == 1
    ensures W.Unended(ps, b) == [0, 1] && W.Unended(ps, c) == [0] && W.Unended(ps, d) == []
  {
    assert W.Unended(ps, a - 1) == [] && W.Unended(ps, a) == [0];
    assert [0, 1][..1] == [0] && [0][..0] == [];
  }
}
