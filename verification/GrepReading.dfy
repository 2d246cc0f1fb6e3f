/** grep reads a pattern as it is written. */
module GrepReading {
  import opened Common
  import opened Patterns
  import opened GrepSyntax
  import W = Written
  import opened WrittenItems

  /** The members of a class, from element k on. */
  lemma {:induction false} ReadElements(es: seq<W.Element>, negated: bool, k: nat, p: Text, rest: Text, prev: Previous, members: set<byte>)
    returns (m: set<byte>)
    requires es != [] && k <= |es| && (forall i :: 0 <= i < |es| ==> W.ElementFits(W.Grep, negated, es, i))
    requires (prev.Some? <==> k > 0) && p == W.ElementsText(es, k) + ([']' as byte] + rest)
    ensures ParseMembers(p, prev, members) == Members(m, rest)
    ensures forall b: byte :: b in m <==> b in members || W.CoveredFrom(W.Grep, es, k, b)
    decreases |es| - k
  {
    if k == |es| {
      assert p[1..] == rest;
      m := members;
    } else {
      var e, more := es[k], W.ElementsText(es, k + 1) + ([']' as byte] + rest);
      assert W.ElementFits(W.Grep, negated, es, k) && p == W.ElementText(e) + more;
      OneElement(e, p, more, prev, members);
      m := ReadElements(es, negated, k + 1, more, rest, if e.Single? then Some(e.c) else Some(e.hi), AfterElement(e, members));
      forall b: byte
        ensures b in m <==> b in members || W.CoveredFrom(W.Grep, es, k, b)
      {
        W.CoveredNext(W.Grep, es, k, b);
      }
    }
  }

  function AfterElement(e: W.Element, members: set<byte>): (m: set<byte>)
    ensures forall b: byte :: b in m <==> b in members || e.Covers(W.Grep, b)
  {
    members + {e.c} + if e.Range? then RangeMembers(e.c, e.hi) else {}
  }

  lemma OneElement(e: W.Element, p: Text, more: Text, prev: Previous, members: set<byte>)
    requires p == W.ElementText(e) + more && more != [] && 0 < e.c < 128
    requires e.Range? ==> 0 < e.hi < 128 && e.hi != ']' as byte
    requires prev.Some? ==> e.c != ']' as byte && (e.c == '-' as byte ==> e.Single? && more[0] == ']' as byte)
    ensures ParseMembers(p, prev, members) == ParseMembers(more, if e.Single? then Some(e.c) else Some(e.hi), AfterElement(e, members))
  {
    match e {
      case Single(c) =>
        assert p[1..] == more;
        assert AfterElement(e, members) == members + {c};
      case Range(lo, hi) =>
        var q := p[1..];
        assert q == ['-' as byte, hi] + more && q[2..] == more;
        assert AfterElement(e, members) == members + {lo} + RangeMembers(lo, hi);
    }
  }

  /** A class, from the opening bracket on. */
  lemma ReadClass(negated: bool, es: seq<W.Element>, p: Text, rest: Text) returns (m: set<byte>)
    requires W.SignFits(W.Grep, W.Among(negated, es), 0) && p == W.SignText(W.Among(negated, es), 0) + rest
    ensures Scan(p) == Scanned(Bracket(m), rest) && AtomOk(W.Grep, Class(m), W.Among(negated, es))
  {
    var inner: Text := W.ElementsText(es, 0) + ([']' as byte] + rest);
    assert p == (if negated then ['[' as byte, '^' as byte] else ['[' as byte]) + inner;
    assert W.ElementFits(W.Grep, negated, es, 0);
    var listed := ReadElements(es, negated, 0, inner, rest, None, {});
    m := if negated then Complement(listed) else listed;
    ScanClass(negated, p, inner, listed, rest);
    CoveredAscii(negated, es);
    ClassMeans(negated, es, listed);
  }

  lemma ScanClass(negated: bool, p: Text, inner: Text, listed: set<byte>, rest: Text)
    requires p == (if negated then ['[' as byte, '^' as byte] else ['[' as byte]) + inner
    requires inner != [] && (!negated ==> inner[0] != '^' as byte) && ParseMembers(inner, None, {}) == Members(listed, rest)
    ensures Scan(p) == Scanned(Bracket(if negated then Complement(listed) else listed), rest)
  {
    assert p[1..] == (if negated then ['^' as byte] + inner else inner);
    assert negated ==> p[1..][1..] == inner;
  }

  lemma ClassMeans(negated: bool, es: seq<W.Element>, listed: set<byte>)
    requires forall b: byte :: b in listed <==> W.CoveredFrom(W.Grep, es, 0, b)
    requires forall b: byte :: W.Covered(W.Grep, es, b) ==> 0 < b < 128
    ensures AtomOk(W.Grep, Class(if negated then Complement(listed) else listed), W.Among(negated, es))
  {
    forall b: byte
      ensures b in listed <==> W.Covered(W.Grep, es, b)
    {
      assert W.CoveredFrom(W.Grep, es, 0, b) <==> W.Covered(W.Grep, es, b);
    }
  }

  lemma CoveredAscii(negated: bool, es: seq<W.Element>)
    requires forall i :: 0 <= i < |es| ==> W.ElementFits(W.Grep, negated, es, i)
    ensures forall b: byte :: W.Covered(W.Grep, es, b) ==> 0 < b < 128
  {
    forall b: byte | W.Covered(W.Grep, es, b)
      ensures 0 < b < 128
    {
      var k :| 0 <= k < |es| && es[k].Covers(W.Grep, b);
      assert W.ElementFits(W.Grep, negated, es, k);
    }
  }

  lemma ReadSign(s: W.Sign, p: Text, rest: Text, st: State) returns (a: Atom)
    requires st.Valid() && W.SignFits(W.Grep, s, 0) && p == W.SignText(s, 0) + rest
    ensures AtomOk(W.Grep, a, s) && AtomSize(a) == W.SignSize(W.Grep, s)
    ensures p != [DOLLAR] && ParseItems(p, st) == ParseItems(rest, st.Add(One(a)))
  {
    match s {
      case AnyOne =>
        assert p[1..] == rest;
        a := Any;
      case Exactly(c) =>
        a := Char(c);
        if W.Special(c, 0) {
          assert p[1..] == [c] + rest && p[1..][1..] == rest;
        } else {
          assert p[1..] == rest;
        }
      case Among(negated, es) =>
        var m := ReadClass(negated, es, p, rest);
        a := Class(m);
    }
  }

  /** What a piece makes of the state. */
  ghost predicate After(piece: W.Piece, st: State, it: Item, st': State) {
    && st'.Valid() && st'.body == st.body + [it] && ItemOk(W.Grep, it, piece) && ItemSize(it) == W.PieceSize(W.Grep, piece)
    && st'.begun == st.begun + (if piece.Begin? then 1 else 0)
    && |st'.open| == |st.open| + (if piece.Begin? then 1 else if piece.End? then -1 else 0)
  }

  lemma ReadRepeat(s: W.Sign, p: Text, rest: Text, st: State) returns (it: Item, st': State)
    requires st.Valid() && W.SignFits(W.Grep, s, 0) && p == W.SignText(s, 0) + ([STARCH] + rest)
    ensures After(W.Repeat(s), st, it, st') && p != [DOLLAR] && ParseItems(p, st) == ParseItems(rest, st')
  {
    var more: Text := [STARCH] + rest;
    assert more[1..] == rest;
    var a := ReadSign(s, p, more, st);
    var single := st.Add(One(a));
    assert Repeated(single.body) == st.body + [Many(a)];
    it, st' := Many(a), single.(body := st.body + [Many(a)]);
    assert Scan(more) == Scanned(Star, rest);
  }

  lemma ReadGroup(piece: W.Piece, p: Text, rest: Text, st: State) returns (it: Item, st': State)
    requires st.Valid() && p == W.PieceText(piece, 0) + rest
    requires (piece.Begin? && st.begun < 9) || (piece.End? && st.open != [])
    ensures After(piece, st, it, st') && p != [DOLLAR] && ParseItems(p, st) == ParseItems(rest, st')
  {
    var c := if piece.Begin? then LPAREN else RPAREN;
    assert p[1..] == [c] + rest && p[1..][1..] == rest;
    if piece.Begin? {
      it := Open(st.begun);
      st' := st.Add(it).(begun := st.begun + 1, open := st.open + [st.begun]);
    } else {
      it := Close(st.open[|st.open| - 1]);
      st' := st.Add(it).(open := st.open[..|st.open| - 1], closed := st.closed + 1);
    }
  }

  /** The state after a piece. */
  lemma ReadPiece(piece: W.Piece, p: Text, rest: Text, st: State) returns (it: Item, st': State)
    requires st.Valid() && W.PieceFits(W.Grep, piece, 0) && p == W.PieceText(piece, 0) + rest
    requires (piece.Begin? ==> st.begun < 9) && (piece.End? ==> st.open != [])
    ensures After(piece, st, it, st') && p != [DOLLAR] && ParseItems(p, st) == ParseItems(rest, st')
  {
    match piece {
      case Once(s) =>
        var a := ReadSign(s, p, rest, st);
        it, st' := One(a), st.Add(One(a));
      case Repeat(s) =>
        assert p == W.SignText(s, 0) + ([STARCH] + rest);
        it, st' := ReadRepeat(s, p, rest, st);
      case _ =>
        it, st' := ReadGroup(piece, p, rest, st);
    }
  }

  /** The first k pieces have been read. */
  ghost predicate ReadTo(ps: seq<W.Piece>, k: nat, st: State) {
    && st.Valid() && Means(W.Grep, st.body, ps, k) && CodeSize(st.body) == W.SizeTo(W.Grep, ps, k)
    && W.GroupsFit(W.Grep, ps, k, st.begun, |st.open|)
  }

  lemma OneMoreRead(ps: seq<W.Piece>, k: nat, st: State, it: Item, st': State)
    requires k < |ps| && ReadTo(ps, k, st) && After(ps[k], st, it, st')
    ensures ReadTo(ps, k + 1, st')
  {
    MeansMore(W.Grep, st.body, ps, k, it);
    CodeSizeOfAppend(st.body, it);
  }

  lemma {:induction false} ReadPieces(ps: seq<W.Piece>, k: nat, atEnd: bool, p: Text, st: State) returns (body: seq<Item>)
    requires k <= |ps| && (forall i :: 0 <= i < |ps| ==> W.PieceFits(W.Grep, ps[i], 0)) && p == W.TextFrom(ps, k, atEnd, 0)
    requires ReadTo(ps, k, st)
    ensures ParseItems(p, st) == Regex(body, atEnd)
    ensures Means(W.Grep, body, ps, |ps|) && CodeSize(body) == W.SizeTo(W.Grep, ps, |ps|)
    decreases |ps| - k
  {
    if k == |ps| {
      body := st.body;
    } else {
      var rest := p[|W.PieceText(ps[k], 0)|..];
      assert W.PieceFits(W.Grep, ps[k], 0) && rest == W.TextFrom(ps, k + 1, atEnd, 0);
      var it, st' := ReadPiece(ps[k], p, rest, st);
      OneMoreRead(ps, k, st, it, st');
      body := ReadPieces(ps, k + 1, atEnd, rest, st');
    }
  }

  /** Reading a pattern as it is written gives items that mean what its pieces do. */
  lemma ReadsWhatIsWritten(w: W.Pattern, p: Text) returns (body: seq<Item>)
    requires W.Fits(W.Grep, w, 0) && p == W.PatternText(w, 0)
    ensures Parse(p) == Regex(body, w.atEnd) && Anchored(p) == w.anchored
    ensures Means(W.Grep, body, w.pieces, |w.pieces|) && CodeSize(Program(body, w.atEnd)) == W.Size(W.Grep, w)
  {
    var q := if w.anchored then p[1..] else p;
    assert q == W.TextFrom(w.pieces, 0, w.atEnd, 0);
    if w.pieces != [] {
      assert W.PieceFits(W.Grep, w.pieces[0], 0);
      NotACaret(w.pieces[0]);
    }
    body := ReadPieces(w.pieces, 0, w.atEnd, q, START);
    CodeSizeOfAppend(body, EndOfLine);
  }

  lemma NotACaret(piece: W.Piece)
    ensures W.PieceText(piece, 0)[0] != '^' as byte
  {
  }
}
