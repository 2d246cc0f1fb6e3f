/** Patterns as a user writes them for grep and ed, and what the manual says they mean. */
module Written {
  import opened Common

  datatype Tool = Grep | Ed

  datatype Element = Single(c: byte) | Range(c: byte, hi: byte) {
    /** If the upper end is below the lower one there is nothing between them; grep drops it then. */
    predicate Covers(tool: Tool, b: byte) {
      match this
      case Single(c) => b == c
      case Range(lo, hi) => lo <= b <= hi || b == lo || (tool.Ed? && b == hi)
    }
  }

  /** What stands for one character. */
  datatype Sign = AnyOne | Exactly(c: byte) | Among(negated: bool, elements: seq<Element>)

  datatype Piece = Once(sign: Sign) | Repeat(sign: Sign) | Begin | End

  datatype Pattern = Pattern(anchored: bool, pieces: seq<Piece>, atEnd: bool)

  // ---- Meaning ----

  predicate Covered(tool: Tool, es: seq<Element>, b: byte) {
    exists k :: 0 <= k < |es| && es[k].Covers(tool, b)
  }

  /** In brackets grep looks only at seven bits of a character, and NUL is in no class. */
  predicate Stands(tool: Tool, s: Sign, b: byte) {
    match s
    case AnyOne => true
    case Exactly(c) => b == c
    case Among(negated, es) =>
      if tool.Grep? then b % 128 != 0 && (Covered(tool, es, b % 128) != negated) else Covered(tool, es, b) != negated
  }

  predicate AllStand(tool: Tool, s: Sign, w: Text) {
    forall i :: 0 <= i < |w| ==> Stands(tool, s, w[i])
  }

  /** The pieces from k on stand for the word. */
  ghost predicate Reads(tool: Tool, ps: seq<Piece>, k: nat, w: Text)
    requires k <= |ps|
    decreases |ps| - k
  {
    if k == |ps| then w == []
    else
      match ps[k]
      case Once(s) => w != [] && Stands(tool, s, w[0]) && Reads(tool, ps, k + 1, w[1..])
      case Repeat(s) =>
        exists n: nat :: n <= |w| && AllStand(tool, s, w[..n]) && Reads(tool, ps, k + 1, w[n..])
      case Begin => Reads(tool, ps, k + 1, w)
      case End => Reads(tool, ps, k + 1, w)
  }

  /** line[i..j) is what the pattern stands for, in a place where ^ and $ allow it. */
  ghost predicate Matches(tool: Tool, p: Pattern, line: Text, i: nat, j: nat) {
    && i <= j <= |line| && (p.anchored ==> i == 0) && (p.atEnd ==> j == |line|)
    && Reads(tool, p.pieces, 0, line[i..j])
  }

  // ---- Writing ----

  /** Characters that are escaped; eof is the delimiter, or 0 if there is none. */
  predicate Special(c: byte, eof: byte) {
    c == eof || c in {'.' as byte, '*' as byte, '[' as byte, '\\' as byte, '^' as byte, '$' as byte}
  }

  function ElementText(e: Element): (t: seq<byte>)
    ensures t != [] && t[0] == e.c
  {
    match e
    case Single(c) => [c]
    case Range(lo, hi) => [lo, '-' as byte, hi]
  }

  function ElementsText(es: seq<Element>, k: nat): (t: seq<byte>)
    requires k <= |es|
    ensures k < |es| ==> t != [] && t[0] == es[k].c
    decreases |es| - k
  {
    if k == |es| then [] else ElementText(es[k]) + ElementsText(es, k + 1)
  }

  function SignText(s: Sign, eof: byte): (t: seq<byte>)
    ensures t != []
  {
    match s
    case AnyOne => ['.' as byte]
    case Exactly(c) => if Special(c, eof) then ['\\' as byte, c] else [c]
    case Among(negated, es) =>
      ['[' as byte] + (if negated then ['^' as byte] else []) + ElementsText(es, 0) + [']' as byte]
  }

  function PieceText(p: Piece, eof: byte): (t: seq<byte>)
    ensures t != []
  {
    match p
    case Once(s) => SignText(s, eof)
    case Repeat(s) => SignText(s, eof) + ['*' as byte]
    case Begin => ['\\' as byte, '(' as byte]
    case End => ['\\' as byte, ')' as byte]
  }

  /** The pieces from k on, and a dollar sign if that is asked for. */
  function TextFrom(ps: seq<Piece>, k: nat, atEnd: bool, eof: byte): seq<byte>
    requires k <= |ps|
    decreases |ps| - k
  {
    if k == |ps| then if atEnd then ['$' as byte] else []
    else PieceText(ps[k], eof) + TextFrom(ps, k + 1, atEnd, eof)
  }

  function PatternText(p: Pattern, eof: byte): seq<byte> {
    (if p.anchored then ['^' as byte] else []) + TextFrom(p.pieces, 0, p.atEnd, eof)
  }

  // ---- What can be written ----

  predicate CharFits(tool: Tool, c: byte) {
    c != 0 && (tool.Ed? ==> c < 128 && c != '\n' as byte)
  }

  /** A bracket or a dash may come first, and a dash last; a caret that comes first would negate. */
  predicate ElementFits(tool: Tool, negated: bool, es: seq<Element>, k: nat)
    requires k < |es|
  {
    && CharFits(tool, es[k].c) && es[k].c < 128
    && (es[k].Range? ==> CharFits(tool, es[k].hi) && es[k].hi < 128 && es[k].hi != ']' as byte)
    && (k == 0 && !negated ==> es[k].c != '^' as byte)
    && (k > 0 ==> es[k].c != ']' as byte && (es[k].c == '-' as byte ==> es[k].Single? && k == |es| - 1))
  }

  predicate SignFits(tool: Tool, s: Sign, eof: byte) {
    && SignText(s, eof)[0] != eof
    && match s
       case AnyOne => true
       case Exactly(c) => CharFits(tool, c) && (c == eof ==> c !in {'(' as byte, ')' as byte} && !('1' as byte <= c <= '5' as byte))
       case Among(negated, es) => es != [] && forall k :: 0 <= k < |es| ==> ElementFits(tool, negated, es, k)
  }

  predicate PieceFits(tool: Tool, p: Piece, eof: byte) {
    match p
    case Once(s) => SignFits(tool, s, eof)
    case Repeat(s) => SignFits(tool, s, eof) && eof != '*' as byte
    case _ => eof != '\\' as byte
  }

  /** Groups end after they begin, and there are not too many; in ed all of them end. */
  predicate GroupsFit(tool: Tool, ps: seq<Piece>, k: nat, begun: nat, depth: nat)
    requires k <= |ps|
    decreases |ps| - k
  {
    if k == |ps| then tool.Ed? ==> depth == 0
    else
      match ps[k]
      case Begin => begun < (if tool.Grep? then 9 else 5) && GroupsFit(tool, ps, k + 1, begun + 1, depth + 1)
      case End => depth > 0 && GroupsFit(tool, ps, k + 1, begun, depth - 1)
      case _ => GroupsFit(tool, ps, k + 1, begun, depth)
  }

  predicate Fits(tool: Tool, p: Pattern, eof: byte) {
    && (forall k :: 0 <= k < |p.pieces| ==> PieceFits(tool, p.pieces[k], eof))
    && GroupsFit(tool, p.pieces, 0, 0, 0)
    && (tool.Grep? ==> eof == 0)
    && (tool.Ed? ==> eof != 0 && (p.anchored ==> eof != '^' as byte) && (p.atEnd ==> eof != '$' as byte) && PatternText(p, eof) != [])
  }

  // ---- Groups ----

  /** How many groups begin among the first k pieces. */
  function Begun(ps: seq<Piece>, k: nat): nat
    requires k <= |ps|
  {
    if k == 0 then 0 else Begun(ps, k - 1) + if ps[k - 1].Begin? then 1 else 0
  }

  /** The groups that have begun among the first k pieces and not ended, the innermost last. */
  function Unended(ps: seq<Piece>, k: nat): seq<nat>
    requires k <= |ps|
  {
    if k == 0 then []
    else
      var before := Unended(ps, k - 1);
      match ps[k - 1]
      case Begin => before + [Begun(ps, k - 1)]
      case End => if before == [] then [] else before[..|before| - 1]
      case _ => before
  }

  // ---- How much code it makes ----

  function ElementLength(e: Element): nat {
    if e.Range? then if e.hi > e.c then e.hi - e.c + 2 else 2 else 1
  }

  function ElementsLength(es: seq<Element>, k: nat): nat
    requires k <= |es|
    decreases |es| - k
  {
    if k == |es| then 0 else ElementLength(es[k]) + ElementsLength(es, k + 1)
  }

  function SignSize(tool: Tool, s: Sign): nat {
    match s
    case AnyOne => 1
    case Exactly(_) => 2
    case Among(_, es) => if tool.Grep? then 17 else 2 + ElementsLength(es, 0)
  }

  function PieceSize(tool: Tool, p: Piece): nat {
    match p
    case Once(s) => SignSize(tool, s)
    case Repeat(s) => SignSize(tool, s)
    case _ => 2
  }

  function SizeTo(tool: Tool, ps: seq<Piece>, k: nat): nat
    requires k <= |ps|
  {
    if k == 0 then 0 else SizeTo(tool, ps, k - 1) + PieceSize(tool, ps[k - 1])
  }

  function Size(tool: Tool, p: Pattern): nat {
    SizeTo(tool, p.pieces, |p.pieces|) + if p.atEnd then 1 else 0
  }

  // ---- Words ----

  /** The pattern that stands for one word only. */
  function Quoted(w: Text): Pattern {
    Pattern(false, seq(|w|, i requires 0 <= i < |w| => Once(Exactly(w[i]))), false)
  }

  lemma {:induction false} QuotedReads(tool: Tool, w: Text, k: nat, v: Text)
    requires k <= |w|
    ensures Reads(tool, Quoted(w).pieces, k, v) <==> v == w[k..]
    decreases |w| - k
  {
    if k < |w| && v != [] {
      QuotedReads(tool, w, k + 1, v[1..]);
      assert v == [v[0]] + v[1..] && w[k..] == [w[k]] + w[k + 1..];
    }
  }

  // ---- Element by element ----

  predicate CoveredFrom(tool: Tool, es: seq<Element>, k: nat, b: byte) {
    exists j :: k <= j < |es| && es[j].Covers(tool, b)
  }

  lemma CoveredNext(tool: Tool, es: seq<Element>, k: nat, b: byte)
    requires k < |es|
    ensures CoveredFrom(tool, es, k, b) <==> es[k].Covers(tool, b) || CoveredFrom(tool, es, k + 1, b)
  {
  }

  // ---- Only characters that fit are written ----

  predicate AllFit(tool: Tool, t: seq<byte>) {
    forall i :: 0 <= i < |t| ==> CharFits(tool, t[i])
  }

  lemma FitJoined(tool: Tool, a: seq<byte>, b: seq<byte>)
    requires AllFit(tool, a) && AllFit(tool, b)
    ensures AllFit(tool, a + b)
  {
  }

  lemma {:induction false} ElementsTextFits(tool: Tool, negated: bool, es: seq<Element>, k: nat)
    requires k <= |es| && forall i :: 0 <= i < |es| ==> ElementFits(tool, negated, es, i)
    ensures AllFit(tool, ElementsText(es, k))
    decreases |es| - k
  {
    if k < |es| {
      assert ElementFits(tool, negated, es, k);
      ElementsTextFits(tool, negated, es, k + 1);
    }
  }

  lemma SignTextFits(tool: Tool, s: Sign, eof: byte)
    requires SignFits(tool, s, eof)
    ensures AllFit(tool, SignText(s, eof))
  {
    if s.Among? {
      ElementsTextFits(tool, s.negated, s.elements, 0);
    }
  }

  lemma {:induction false} TextFits(tool: Tool, ps: seq<Piece>, k: nat, atEnd: bool, eof: byte)
    requires k <= |ps| && forall i :: 0 <= i < |ps| ==> PieceFits(tool, ps[i], eof)
    ensures AllFit(tool, TextFrom(ps, k, atEnd, eof))
    decreases |ps| - k
  {
    if k < |ps| {
      assert PieceFits(tool, ps[k], eof);
      TextFits(tool, ps, k + 1, atEnd, eof);
      PieceTextFits(tool, ps[k], eof);
      FitJoined(tool, PieceText(ps[k], eof), TextFrom(ps, k + 1, atEnd, eof));
    }
  }

  lemma PieceTextFits(tool: Tool, p: Piece, eof: byte)
    requires PieceFits(tool, p, eof)
    ensures AllFit(tool, PieceText(p, eof))
  {
    if p.Once? || p.Repeat? {
      SignTextFits(tool, p.sign, eof);
    }
  }
}
