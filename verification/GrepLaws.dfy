/** What a user of grep can rely on. */
module GrepLaws {
  import opened Common
  import opened Patterns
  import opened GrepSyntax
  import opened GrepCode
  import opened Grep
  import W = Written
  import opened WrittenItems
  import opened GrepReading

  /** Some stretch of the line is a word of the pattern's language. */
  ghost predicate Contains(anchored: bool, body: seq<Item>, atEnd: bool, line: Text) {
    exists i: nat, j: nat :: i <= j <= |line| && (anchored ==> i == 0) && (atEnd ==> j == |line|) &&
      Denotes(body, line[i..j])
  }

  /** Compiling a pattern and running it decides whether the line contains a word
      of the pattern's language. */
  method CompileAndExecute(g: Grep, astr: Text) returns (ok: bool, found: bool)
    requires g.Fresh() && g.Loaded() && g.linebuf != g.expbuf && !Parse(astr).Unmodelled?
    modifies g, g.expbuf
    ensures g.line == old(g.line) && g.linebuf[..] == old(g.linebuf[..])
    ensures var r := Parse(astr);
      && (ok <==> r.Regex? && CodeSize(Program(r.body, r.atEnd)) < ESIZE)
      && (ok ==> (found <==> Contains(Anchored(astr), r.body, r.atEnd, g.line)))
  {
    ok := g.Compile(astr);
    found := false;
    if ok {
      found := g.Execute();
      ParseGrows(if Anchored(astr) then astr[1..] else astr, START);
      FoundIsContainment(Anchored(astr), Parse(astr).body, Parse(astr).atEnd, g.line);
    }
  }

  /** From the start of the program: one pattern, and one line. */
  method Search(astr: Text, text: Text) returns (ok: bool, found: bool)
    requires !Parse(astr).Unmodelled?
    ensures var r := Parse(astr);
      && (ok <==> r.Regex? && CodeSize(Program(r.body, r.atEnd)) < ESIZE)
      && (ok ==> (found <==> Contains(Anchored(astr), r.body, r.atEnd, text)))
  {
    var g := new Grep(text);
    ok, found := CompileAndExecute(g, astr);
  }

  // ---- Patterns as they are written ----

  function Typed(w: W.Pattern): (p: Text)
    requires W.Fits(W.Grep, w, 0)
    ensures p == W.PatternText(w, 0)
  {
    W.TextFits(W.Grep, w.pieces, 0, w.atEnd, 0);
    assert forall i :: 0 <= i < |W.TextFrom(w.pieces, 0, w.atEnd, 0)| ==> W.CharFits(W.Grep, W.TextFrom(w.pieces, 0, w.atEnd, 0)[i]);
    W.PatternText(w, 0)
  }

  ghost predicate Holds(w: W.Pattern, line: Text) {
    exists i: nat, j: nat :: W.Matches(W.Grep, w, line, i, j)
  }

  /** Reading a pattern as it is written, compiling it and running it finds exactly the lines that
      hold what the pattern stands for; it is refused exactly if it is too long. */
  method Find(w: W.Pattern, text: Text) returns (ok: bool, found: bool)
    requires W.Fits(W.Grep, w, 0)
    ensures ok <==> W.Size(W.Grep, w) < 256
    ensures ok ==> (found <==> Holds(w, text))
  {
    ghost var body := ReadsWhatIsWritten(w, Typed(w));
    ok, found := Search(Typed(w), text);
    ContainsHolds(w, body, text);
  }

  lemma ContainsHolds(w: W.Pattern, body: seq<Item>, line: Text)
    requires Means(W.Grep, body, w.pieces, |w.pieces|)
    ensures Contains(w.anchored, body, w.atEnd, line) <==> Holds(w, line)
  {
    forall i: nat, j: nat | i <= j <= |line|
      ensures Denotes(body, line[i..j]) <==> W.Reads(W.Grep, w.pieces, 0, line[i..j])
    {
      assert body[0..] == body;
      DenotesReads(W.Grep, body, w.pieces, 0, line[i..j]);
    }
    if Contains(w.anchored, body, w.atEnd, line) {
      var i: nat, j: nat :| i <= j <= |line| && (w.anchored ==> i == 0) && (w.atEnd ==> j == |line|) && Denotes(body, line[i..j]);
      assert W.Matches(W.Grep, w, line, i, j);
    }
  }

  /** The escaped form of a word finds exactly the lines that hold the word. */
  lemma QuotedWordFindsWord(w: Text, line: Text)
    ensures W.Fits(W.Grep, W.Quoted(w), 0)
    ensures Holds(W.Quoted(w), line) <==> exists i: nat :: i + |w| <= |line| && line[i..][..|w|] == w
  {
    QuotedFits(w, 0);
    if Holds(W.Quoted(w), line) {
      var i: nat, j: nat :| W.Matches(W.Grep, W.Quoted(w), line, i, j);
      W.QuotedReads(W.Grep, w, 0, line[i..j]);
      assert line[i..][..|w|] == w;
    }
    if i: nat :| i + |w| <= |line| && line[i..][..|w|] == w {
      assert line[i..i + |w|] == w && w[0..] == w;
      W.QuotedReads(W.Grep, w, 0, line[i..i + |w|]);
      assert W.Matches(W.Grep, W.Quoted(w), line, i, i + |w|);
    }
  }

  lemma {:induction false} QuotedFits(w: Text, k: nat)
    requires k <= |w|
    ensures W.GroupsFit(W.Grep, W.Quoted(w).pieces, k, 0, 0)
    ensures forall i :: 0 <= i < |w| ==> W.PieceFits(W.Grep, W.Quoted(w).pieces[i], 0)
    decreases |w| - k
  {
    assert forall i :: 0 <= i < |w| ==> w[i] in w;
    if k < |w| {
      QuotedFits(w, k + 1);
    }
  }

  /** A class finds exactly the lines with a character that it lists, or with one that it does not
      if it begins with a caret. */
  lemma ClassFindsCharacter(negated: bool, es: seq<W.Element>, line: Text)
    requires forall i :: 0 <= i < |line| ==> line[i] < 128
    ensures Holds(W.Pattern(false, [W.Once(W.Among(negated, es))], false), line) <==>
            exists i :: 0 <= i < |line| && ((exists k :: 0 <= k < |es| && es[k].Covers(W.Grep, line[i])) != negated)
  {
    var w := W.Pattern(false, [W.Once(W.Among(negated, es))], false);
    forall i: nat, j: nat | i <= j <= |line|
      ensures W.Matches(W.Grep, w, line, i, j) <==> j == i + 1 && (W.Covered(W.Grep, es, line[i]) != negated)
    {
      OneClass(negated, es, line, i, j);
    }
    if i :| 0 <= i < |line| && (W.Covered(W.Grep, es, line[i]) != negated) {
      assert W.Matches(W.Grep, w, line, i, i + 1);
    }
  }

  lemma OneClass(negated: bool, es: seq<W.Element>, line: Text, i: nat, j: nat)
    requires i <= j <= |line| && forall i :: 0 <= i < |line| ==> line[i] < 128
    ensures W.Matches(W.Grep, W.Pattern(false, [W.Once(W.Among(negated, es))], false), line, i, j) <==>
            j == i + 1 && (W.Covered(W.Grep, es, line[i]) != negated)
  {
    var ps := [W.Once(W.Among(negated, es))];
    if i < j {
      var v := line[i..j];
      assert v[0] == line[i] && line[i] in line;
      assert W.Reads(W.Grep, ps, 1, v[1..]) <==> j == i + 1;
    }
  }

  /** For example: what [^a] is, and that it finds b and does not find a. */
  lemma NotAnA()
    ensures var w := W.Pattern(false, [W.Once(W.Among(true, [W.Single('a' as byte)]))], false);
      && W.PatternText(w, 0) == ['[' as byte, '^' as byte, 'a' as byte, ']' as byte]
      && Holds(w, ['b' as byte]) && !Holds(w, ['a' as byte])
  {
    var es := [W.Single('a' as byte)];
    var ps := [W.Once(W.Among(true, es))];
    assert W.ElementsText(es, 1) == [] && W.ElementsText(es, 0) == ['a' as byte];
    assert W.TextFrom(ps, 1, false, 0) == [] && W.TextFrom(ps, 0, false, 0) == W.PieceText(ps[0], 0);
    ClassFindsCharacter(true, es, ['b' as byte]);
    ClassFindsCharacter(true, es, ['a' as byte]);
    assert es[0].Covers(W.Grep, 'a' as byte);
    assert ['b' as byte][0] == 'b' as byte;
  }

  /** For example: how ^a.\.b*[x-z]$ is made up. */
  lemma HowItIsWritten()
    ensures var a, b, dot := W.Exactly('a' as byte), W.Exactly('b' as byte), W.Exactly('.' as byte);
      var xyz := W.Among(false, [W.Range('x' as byte, 'z' as byte)]);
      W.PatternText(W.Pattern(true, [W.Once(a), W.Once(W.AnyOne), W.Once(dot), W.Repeat(b), W.Once(xyz)], true), 0)
      == ['^' as byte, 'a' as byte, '.' as byte, '\\' as byte, '.' as byte, 'b' as byte, '*' as byte,
          '[' as byte, 'x' as byte, '-' as byte, 'z' as byte, ']' as byte, '$' as byte]
  {
    var a, b, dot := W.Exactly('a' as byte), W.Exactly('b' as byte), W.Exactly('.' as byte);
    var es := [W.Range('x' as byte, 'z' as byte)];
    var ps := [W.Once(a), W.Once(W.AnyOne), W.Once(dot), W.Repeat(b), W.Once(W.Among(false, es))];
    assert W.ElementsText(es, 1) == [] && W.ElementsText(es, 0) == W.ElementText(es[0]);
    assert W.TextFrom(ps, 5, true, 0) == ['$' as byte];
    assert W.TextFrom(ps, 4, true, 0) == W.PieceText(ps[4], 0) + ['$' as byte];
    assert W.TextFrom(ps, 3, true, 0) == W.PieceText(ps[3], 0) + W.TextFrom(ps, 4, true, 0);
    assert W.TextFrom(ps, 2, true, 0) == W.PieceText(ps[2], 0) + W.TextFrom(ps, 3, true, 0);
    assert W.TextFrom(ps, 1, true, 0) == W.PieceText(ps[1], 0) + W.TextFrom(ps, 2, true, 0);
    assert W.TextFrom(ps, 0, true, 0) == W.PieceText(ps[0], 0) + W.TextFrom(ps, 1, true, 0);
  }
}
