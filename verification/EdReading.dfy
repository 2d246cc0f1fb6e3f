/** ed reads a pattern as it is written. */
module EdReading {
  import opened Common
  import opened Patterns
  import opened EdSyntax
  import S = GrepSyntax
  import W = Written
  import opened WrittenItems

  lemma {:induction false} BetweenHas(lo: byte, hi: byte, b: byte)
    ensures b in Between(lo, hi) <==> lo < b <= hi
    decreases hi
  {
    if hi > lo {
      BetweenHas(lo, hi - 1, b);
    }
  }

  /** What an element adds to the list, unless it is a dash at the end. */
  function ListedBy(e: W.Element): (l: seq<byte>)
    ensures |l| == W.ElementLength(e) && l != []
  {
    if e.Range? then [e.c] + Between(e.c, e.hi) + [e.hi] else [e.c]
  }

  lemma ListedCovers(e: W.Element, b: byte)
    ensures b in ListedBy(e) <==> e.Covers(W.Ed, b)
  {
    if e.Range? {
      BetweenHas(e.c, e.hi, b);
    }
  }

  lemma OneElement(e: W.Element, p: seq<byte>, more: seq<byte>, listed: seq<byte>)
    requires p == W.ElementText(e) + more && more != [] && W.CharFits(W.Ed, e.c)
    requires e.Range? ==> W.CharFits(W.Ed, e.hi) && e.hi != ']' as byte
    requires listed != [] ==> e.c != ']' as byte && e.c != '-' as byte
    ensures ParseMembers(p, listed) == ParseMembers(more, listed + ListedBy(e))
  {
    match e {
      case Single(c) =>
        assert p[1..] == more;
      case Range(lo, hi) =>
        var q := p[1..];
        assert q == ['-' as byte, hi] + more && q[2..] == more;
        assert (listed + [lo]) + Between(lo, hi) + [hi] == listed + ListedBy(e);
    }
  }

  /** The members of a class, from element k on. */
  lemma {:induction false} ReadElements(es: seq<W.Element>, negated: bool, k: nat, p: seq<byte>, rest: seq<byte>, listed: seq<byte>)
    returns (l: seq<byte>)
    requires es != [] && k <= |es| && (forall i :: 0 <= i < |es| ==> W.ElementFits(W.Ed, negated, es, i))
    requires (listed != [] <==> k > 0) && p == W.ElementsText(es, k) + ([']' as byte] + rest)
    ensures ParseMembers(p, listed) == Members(l, rest)
    ensures |l| == |listed| + W.ElementsLength(es, k)
    ensures forall b: byte :: b in l <==> b in listed || W.CoveredFrom(W.Ed, es, k, b)
    decreases |es| - k
  {
    if k == |es| {
      assert p[1..] == rest;
      l := listed;
    } else {
      var e, more := es[k], W.ElementsText(es, k + 1) + ([']' as byte] + rest);
      assert W.ElementFits(W.Ed, negated, es, k) && p == W.ElementText(e) + more;
      if k > 0 && e.c == '-' as byte {
        assert W.ElementsText(es, k + 1) == [] && p == ['-' as byte, ']' as byte] + rest;
        assert p[2..] == rest;
        l := listed + ['-' as byte];
      } else {
        OneElement(e, p, more, listed);
        l := ReadElements(es, negated, k + 1, more, rest, listed + ListedBy(e));
      }
      forall b: byte
        ensures b in l <==> b in listed || W.CoveredFrom(W.Ed, es, k, b)
      {
        W.CoveredNext(W.Ed, es, k, b);
        ListedCovers(e, b);
      }
    }
  }

  lemma ListedMeans(negated: bool, es: seq<W.Element>, l: seq<byte>)
    requires forall b: byte :: b in l <==> W.CoveredFrom(W.Ed, es, 0, b)
    ensures AtomOk(W.Ed, if negated then Unlisted(l) else Listed(l), W.Among(negated, es))
  {
    forall b: byte
      ensures b in l <==> W.Covered(W.Ed, es, b)
    {
      assert W.CoveredFrom(W.Ed, es, 0, b) <==> W.Covered(W.Ed, es, b);
    }
  }

  lemma ScanClass(negated: bool, p: seq<byte>, inner: seq<byte>, l: seq<byte>, rest: seq<byte>)
    requires p == (if negated then ['[' as byte, '^' as byte] else ['[' as byte]) + inner
    requires inner != [] && (!negated ==> inner[0] != '^' as byte) && ParseMembers(inner, []) == Members(l, rest)
    ensures Scan(p) == Scanned(Bracket(negated, l), rest)
  {
    assert p[1..] == (if negated then ['^' as byte] + inner else inner);
    assert negated ==> p[1..][1..] == inner;
  }

  lemma ClassText(negated: bool, es: seq<W.Element>, eof: byte, rest: seq<byte>) returns (inner: seq<byte>)
    requires es != []
    ensures inner == W.ElementsText(es, 0) + ([']' as byte] + rest) && inner != [] && inner[0] == es[0].c
    ensures W.SignText(W.Among(negated, es), eof) + rest == (if negated then ['[' as byte, '^' as byte] else ['[' as byte]) + inner
  {
    inner := W.ElementsText(es, 0) + ([']' as byte] + rest);
    Bracketed(negated, W.ElementsText(es, 0), rest);
  }

  lemma Bracketed(negated: bool, t: seq<byte>, rest: seq<byte>)
    ensures ['[' as byte] + (if negated then ['^' as byte] else []) + t + [']' as byte] + rest ==
            (if negated then ['[' as byte, '^' as byte] else ['[' as byte]) + (t + ([']' as byte] + rest))
  {
  }

  /** A class, from the opening bracket on. */
  lemma ReadClass(negated: bool, es: seq<W.Element>, eof: byte, p: seq<byte>, rest: seq<byte>) returns (l: seq<byte>)
    requires W.SignFits(W.Ed, W.Among(negated, es), eof) && p == W.SignText(W.Among(negated, es), eof) + rest
    ensures Scan(p) == Scanned(Bracket(negated, l), rest) && |l| == W.ElementsLength(es, 0)
    ensures AtomOk(W.Ed, if negated then Unlisted(l) else Listed(l), W.Among(negated, es))
  {
    var inner := ClassText(negated, es, eof, rest);
    assert W.ElementFits(W.Ed, negated, es, 0);
    l := ReadElements(es, negated, 0, inner, rest, []);
    ScanClass(negated, p, inner, l, rest);
    ListedMeans(negated, es, l);
  }

  lemma ReadSign(s: W.Sign, eof: byte, p: seq<byte>, rest: seq<byte>, st: State) returns (a: Atom)
    requires st.Valid() && W.SignFits(W.Ed, s, eof) && p == W.SignText(s, eof) + rest
    ensures AtomOk(W.Ed, a, s) && S.AtomSize(a) == W.SignSize(W.Ed, s)
    ensures ParseItems(p, eof, st) == ParseItems(rest, eof, st.Add(One(a)))
  {
    match s {
      case AnyOne =>
        assert p[1..] == rest;
        a := Any;
      case Exactly(c) =>
        a := Char(c);
        if W.Special(c, eof) {
          assert p[1..] == [c] + rest && p[1..][1..] == rest;
        } else {
          assert p[1..] == rest;
        }
      case Among(negated, es) =>
        var l := ReadClass(negated, es, eof, p, rest);
        a := if negated then Unlisted(l) else Listed(l);
    }
  }

  /** What a piece makes of the state. */
  ghost predicate After(piece: W.Piece, st: State, it: Item, st': State) {
    && st'.Valid() && st'.body == st.body + [it] && ItemOk(W.Ed, it, piece) && S.ItemSize(it) == W.PieceSize(W.Ed, piece)
    && match piece
       case Begin => it == Open(st.begun) && st'.begun == st.begun + 1 && st'.open == st.open + [st.begun]
       case End =>
         st.open != [] && it == Close(st.open[|st.open| - 1]) && st'.begun == st.begun && st'.open == st.open[..|st.open| - 1]
       case _ => st'.begun == st.begun && st'.open == st.open
  }

  lemma ReadRepeat(s: W.Sign, eof: byte, p: seq<byte>, rest: seq<byte>, st: State) returns (it: Item, st': State)
    requires st.Valid() && W.PieceFits(W.Ed, W.Repeat(s), eof) && p == W.SignText(s, eof) + ([S.STARCH] + rest)
    ensures After(W.Repeat(s), st, it, st') && ParseItems(p, eof, st) == ParseItems(rest, eof, st')
  {
    var more := [S.STARCH] + rest;
    assert more[1..] == rest;
    var a := ReadSign(s, eof, p, more, st);
    var single := st.Add(One(a));
    assert S.Repeated(single.body) == st.body + [Many(a)];
    it, st' := Many(a), single.(body := st.body + [Many(a)]);
    assert Scan(more) == Scanned(Star, rest);
  }

  lemma ReadGroup(piece: W.Piece, eof: byte, p: seq<byte>, rest: seq<byte>, st: State) returns (it: Item, st': State)
    requires st.Valid() && W.PieceFits(W.Ed, piece, eof) && p == W.PieceText(piece, eof) + rest
    requires (piece.Begin? && st.begun < 5) || (piece.End? && st.open != [])
    ensures After(piece, st, it, st') && ParseItems(p, eof, st) == ParseItems(rest, eof, st')
  {
    var c := if piece.Begin? then S.LPAREN else S.RPAREN;
    assert p[1..] == [c] + rest && p[1..][1..] == rest;
    if piece.Begin? {
      it := Open(st.begun);
      st' := st.Add(it).(begun := st.begun + 1, open := st.open + [st.begun]);
    } else {
      it := Close(st.open[|st.open| - 1]);
      st' := st.Add(it).(open := st.open[..|st.open| - 1]);
    }
  }

  /** The state after a piece. */
  lemma ReadPiece(piece: W.Piece, eof: byte, p: seq<byte>, rest: seq<byte>, st: State) returns (it: Item, st': State)
    requires st.Valid() && W.PieceFits(W.Ed, piece, eof) && p == W.PieceText(piece, eof) + rest
    requires (piece.Begin? ==> st.begun < 5) && (piece.End? ==> st.open != [])
    ensures After(piece, st, it, st') && ParseItems(p, eof, st) == ParseItems(rest, eof, st')
  {
    match piece {
      case Once(s) =>
        var a := ReadSign(s, eof, p, rest, st);
        it, st' := One(a), st.Add(One(a));
      case Repeat(s) =>
        assert p == W.SignText(s, eof) + ([S.STARCH] + rest);
        it, st' := ReadRepeat(s, eof, p, rest, st);
      case _ =>
        it, st' := ReadGroup(piece, eof, p, rest, st);
    }
  }

  /** The first k pieces have been read. */
  ghost predicate ReadTo(ps: seq<W.Piece>, k: nat, st: State) {
    && st.Valid() && Means(W.Ed, st.body, ps, k) && S.CodeSize(st.body) == W.SizeTo(W.Ed, ps, k)
    && W.GroupsFit(W.Ed, ps, k, st.begun, |st.open|)
  }

  /** The groups of the first k pieces have the numbers that go with them. */
  ghost predicate Numbered(ps: seq<W.Piece>, k: nat, st: State) {
    k <= |ps| && st.begun == W.Begun(ps, k) && st.open == W.Unended(ps, k) && GroupsAre(ps, k, st.body)
  }

  ghost predicate GroupsAre(ps: seq<W.Piece>, k: nat, body: seq<Item>) {
    k <= |ps| && |body| == k && forall t :: 0 <= t < k ==> GroupIs(ps, t, body[t])
  }

  ghost predicate GroupIs(ps: seq<W.Piece>, t: nat, it: Item)
    requires t < |ps|
  {
    match ps[t]
    case Begin => it == Open(W.Begun(ps, t))
    case End => W.Unended(ps, t) != [] && it == Close(W.Unended(ps, t)[|W.Unended(ps, t)| - 1])
    case _ => true
  }

  lemma OneMoreNumbered(ps: seq<W.Piece>, k: nat, st: State, it: Item, st': State)
    requires k < |ps| && Numbered(ps, k, st) && After(ps[k], st, it, st')
    ensures Numbered(ps, k + 1, st')
  {
    assert GroupIs(ps, k, it);
  }

  lemma OneMoreRead(ps: seq<W.Piece>, k: nat, st: State, it: Item, st': State)
    requires k < |ps| && ReadTo(ps, k, st) && After(ps[k], st, it, st')
    ensures ReadTo(ps, k + 1, st')
  {
    MeansMore(W.Ed, st.body, ps, k, it);
    S.CodeSizeOfAppend(st.body, it);
  }

  lemma ReadEnd(atEnd: bool, eof: byte, p: seq<byte>, rest: seq<byte>, st: State)
    requires st.Valid() && st.open == [] && p == (if atEnd then ['$' as byte] else []) + ([eof] + rest)
    requires atEnd ==> eof != '$' as byte
    ensures ParseItems(p, eof, st) == Regex(st.body, atEnd, rest)
  {
    if atEnd {
      assert p[0] == '$' as byte && p[1] == eof && p[2..] == rest;
    } else {
      assert p[0] == eof && p[1..] == rest;
    }
  }

  /** The pieces from k on, the delimiter, and what follows it. */
  lemma {:induction false} ReadPieces(ps: seq<W.Piece>, k: nat, atEnd: bool, eof: byte, p: seq<byte>, rest: seq<byte>, st: State)
    returns (body: seq<Item>)
    requires k <= |ps| && (forall i :: 0 <= i < |ps| ==> W.PieceFits(W.Ed, ps[i], eof)) && (atEnd ==> eof != '$' as byte)
    requires p == W.TextFrom(ps, k, atEnd, eof) + ([eof] + rest) && ReadTo(ps, k, st) && Numbered(ps, k, st)
    ensures ParseItems(p, eof, st) == Regex(body, atEnd, rest)
    ensures Means(W.Ed, body, ps, |ps|) && GroupsAre(ps, |ps|, body) && S.CodeSize(body) == W.SizeTo(W.Ed, ps, |ps|)
    decreases |ps| - k
  {
    if k == |ps| {
      body := st.body;
      ReadEnd(atEnd, eof, p, rest, st);
    } else {
      var more := W.TextFrom(ps, k + 1, atEnd, eof) + ([eof] + rest);
      TextNext(ps, k, atEnd, eof, [eof] + rest);
      var st' := ReadNext(ps, k, eof, p, more, st);
      body := ReadPieces(ps, k + 1, atEnd, eof, more, rest, st');
    }
  }

  lemma TextNext(ps: seq<W.Piece>, k: nat, atEnd: bool, eof: byte, tail: seq<byte>)
    requires k < |ps|
    ensures W.TextFrom(ps, k, atEnd, eof) + tail == W.PieceText(ps[k], eof) + (W.TextFrom(ps, k + 1, atEnd, eof) + tail)
  {
  }

  lemma ReadNext(ps: seq<W.Piece>, k: nat, eof: byte, p: seq<byte>, more: seq<byte>, st: State) returns (st': State)
    requires k < |ps| && (forall i :: 0 <= i < |ps| ==> W.PieceFits(W.Ed, ps[i], eof))
    requires p == W.PieceText(ps[k], eof) + more && ReadTo(ps, k, st) && Numbered(ps, k, st)
    ensures ReadTo(ps, k + 1, st') && Numbered(ps, k + 1, st') && ParseItems(p, eof, st) == ParseItems(more, eof, st')
  {
    assert W.PieceFits(W.Ed, ps[k], eof);
    var it, next := ReadPiece(ps[k], eof, p, more, st);
    OneMoreRead(ps, k, st, it, next);
    OneMoreNumbered(ps, k, st, it, next);
    st' := next;
  }

  /** Reading a pattern as it is written, up to its delimiter, gives items that mean what its pieces do. */
  lemma ReadsWhatIsWritten(w: W.Pattern, eof: byte, rest: seq<byte>) returns (body: seq<Item>)
    requires W.Fits(W.Ed, w, eof)
    ensures var p := W.PatternText(w, eof) + ([eof] + rest);
      Parse(p, eof) == Regex(body, w.atEnd, rest) && Anchored(p) == w.anchored && p[0] != eof
    ensures GroupsAre(w.pieces, |w.pieces|, body)
    ensures Means(W.Ed, body, w.pieces, |w.pieces|) && S.CodeSize(Program(body, w.atEnd)) == W.Size(W.Ed, w)
  {
    var q := W.TextFrom(w.pieces, 0, w.atEnd, eof) + ([eof] + rest);
    NotACaret(w, eof, rest);
    assert w.anchored ==> (['^' as byte] + q)[1..] == q;
    body := ReadPieces(w.pieces, 0, w.atEnd, eof, q, rest, START);
    S.CodeSizeOfAppend(body, EndOfLine);
  }

  /** Only a pattern that is anchored begins with a caret, and none begins with the delimiter. */
  lemma NotACaret(w: W.Pattern, eof: byte, rest: seq<byte>)
    requires W.Fits(W.Ed, w, eof)
    ensures var p, q := W.PatternText(w, eof) + ([eof] + rest), W.TextFrom(w.pieces, 0, w.atEnd, eof) + ([eof] + rest);
      p == (if w.anchored then ['^' as byte] + q else q) && Anchored(p) == w.anchored && p[0] != eof
  {
    TextStart(w.pieces, w.atEnd, eof);
    Caret(w.anchored, W.TextFrom(w.pieces, 0, w.atEnd, eof), eof, rest);
  }

  lemma Caret(anchored: bool, t: seq<byte>, eof: byte, rest: seq<byte>)
    requires (anchored ==> eof != '^' as byte) && (anchored || t != []) && (t != [] ==> t[0] != '^' as byte && t[0] != eof)
    ensures var p, q := ((if anchored then ['^' as byte] else []) + t) + ([eof] + rest), t + ([eof] + rest);
      p == (if anchored then ['^' as byte] + q else q) && Anchored(p) == anchored && p[0] != eof
  {
  }

  lemma TextStart(ps: seq<W.Piece>, atEnd: bool, eof: byte)
    requires (forall i :: 0 <= i < |ps| ==> W.PieceFits(W.Ed, ps[i], eof)) && (atEnd ==> eof != '$' as byte)
    ensures var t := W.TextFrom(ps, 0, atEnd, eof); t != [] ==> t[0] != '^' as byte && t[0] != eof
  {
    if ps != [] {
      assert W.PieceFits(W.Ed, ps[0], eof);
      PieceStart(ps[0], eof);
      assert W.TextFrom(ps, 0, atEnd, eof)[0] == W.PieceText(ps[0], eof)[0];
    }
  }

  lemma PieceStart(piece: W.Piece, eof: byte)
    requires W.PieceFits(W.Ed, piece, eof)
    ensures W.PieceText(piece, eof)[0] != '^' as byte && W.PieceText(piece, eof)[0] != eof
  {
  }
}
