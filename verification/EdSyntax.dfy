/** The patterns ed accepts, up to the delimiter that ends them. */
module EdSyntax {
  import opened Common
  import opened Patterns
  import S = GrepSyntax

  const NBRA := 5
  const ESIZE := 128
  const NEWLINE := '\n' as byte

  /** ed reads 7-bit characters. */
  predicate Ascii(p: seq<byte>) {
    forall i :: 0 <= i < |p| ==> 0 < p[i] < 128
  }

  datatype Parsed = Regex(body: seq<Item>, atEnd: bool, rest: seq<byte>) | Malformed | Unmodelled
  datatype Bracketed = Members(listed: seq<byte>, rest: seq<byte>) | BadClass

  /** lo + 1, lo + 2, ..., hi; nothing if hi is not above lo. */
  function Between(lo: byte, hi: byte): (s: seq<byte>)
    ensures |s| == if hi > lo then hi - lo else 0
    ensures forall i :: 0 <= i < |s| ==> s[i] == lo + 1 + i
    decreases hi
  {
    if hi <= lo then [] else Between(lo, hi - 1) + [hi]
  }

  /** The members up to the closing bracket, in the order they are written to the code.
      The first member may be a bracket or a dash, a dash may also come last. */
  function ParseMembers(p: seq<byte>, listed: seq<byte>): (r: Bracketed)
    ensures r.Members? ==> |r.rest| < |p|
    decreases |p|
  {
    if p == [] then BadClass
    else if p[0] == S.RBRACKET && listed != [] then Members(listed, p[1..])
    else if p[0] == NEWLINE then BadClass
    else if p[0] == S.DASH && listed != [] then
      if |p| == 1 then BadClass
      else if p[1] == S.RBRACKET then Members(listed + [S.DASH], p[2..])
      else ParseMembers(p[2..], listed + Between(listed[|listed| - 1], p[1]) + [p[1]])
    else ParseMembers(p[1..], listed + [p[0]])
  }

  datatype Token =
    | Dot
    | Star
    | Literal(c: byte)
    | Bracket(negated: bool, listed: seq<byte>)
    | OpenGroup
    | CloseGroup
    | BackReference
    | BadToken

  datatype Scanned = Scanned(token: Token, rest: seq<byte>)

  function Scan(p: seq<byte>): (r: Scanned)
    requires p != []
    ensures |r.rest| < |p|
  {
    var c, rest := p[0], p[1..];
    if c == S.DOT then Scanned(Dot, rest)
    else if c == S.STARCH then Scanned(Star, rest)
    else if c == NEWLINE then Scanned(BadToken, rest)
    else if c == S.LBRACKET then
      var negated := rest != [] && rest[0] == S.CARET;
      match ParseMembers(if negated then rest[1..] else rest, []) {
        case Members(listed, rest') => Scanned(Bracket(negated, listed), rest')
        case BadClass => Scanned(BadToken, rest)
      }
    else if c == S.BACKSLASH then
      if rest == [] then Scanned(BadToken, rest) else Scanned(Escaped(rest[0]), rest[1..])
    else Scanned(Literal(c), rest)
  }

  function Escaped(d: byte): Token {
    if d == S.LPAREN then OpenGroup
    else if d == S.RPAREN then CloseGroup
    else if S.DIGIT1 <= d < S.DIGIT1 + NBRA then BackReference
    else if d == NEWLINE then BadToken
    else Literal(d)
  }

  /** The items so far, whether a star would repeat the last of them, how many groups
      were begun, and which are unfinished. */
  datatype State = State(body: seq<Item>, starable: bool, begun: nat, open: seq<nat>) {
    predicate Valid() {
      starable ==> S.Repeatable(body)
    }

    function Add(it: Item): State {
      State(body + [it], it.One?, begun, open)
    }
  }

  datatype Step = Go(state: State) | Bad | Odd

  function Next(st: State, token: Token): (r: Step)
    requires st.Valid()
    ensures r.Go? ==> r.state.Valid()
  {
    match token
    case Dot => Go(st.Add(One(Any)))
    case Star =>
      Go(if st.starable then st.(body := S.Repeated(st.body)) else st.(body := st.body + [One(Char(S.STARCH))]))
    case Literal(c) => Go(st.Add(One(Char(c))))
    case Bracket(negated, listed) => Go(st.Add(One(if negated then Unlisted(listed) else Listed(listed))))
    case OpenGroup =>
      if st.begun >= NBRA then Bad
      else Go(st.Add(Open(st.begun)).(begun := st.begun + 1, open := st.open + [st.begun]))
    case CloseGroup =>
      if st.open == [] then Bad
      else Go(st.Add(Close(st.open[|st.open| - 1])).(open := st.open[..|st.open| - 1]))
    case BackReference => Odd
    case BadToken => Bad
  }

  /** Reads the rest of a pattern up to the delimiter eof. */
  function ParseItems(p: seq<byte>, eof: byte, st: State): Parsed
    requires st.Valid()
    decreases |p|
  {
    if p == [] then Malformed
    else if p[0] == eof then if st.open == [] then Regex(st.body, false, p[1..]) else Malformed
    else if p[0] == S.DOLLAR && |p| > 1 && p[1] == eof then
      if st.open == [] then Regex(st.body, true, p[2..]) else Malformed
    else
      match Next(st, Scan(p).token)
      case Go(next) => ParseItems(Scan(p).rest, eof, next)
      case Bad => Malformed
      case Odd => Unmodelled
  }

  const START := State([], false, 0, [])

  predicate Anchored(p: seq<byte>) {
    p != [] && p[0] == S.CARET
  }

  /** A pattern that is not empty. */
  function Parse(p: seq<byte>, eof: byte): Parsed {
    ParseItems(if Anchored(p) then p[1..] else p, eof, START)
  }

  predicate GoodItem(it: Item) {
    (it.One? || it.Many?) ==>
      match it.atom
      case Char(c) => c != 0
      case Class(_) => false
      case _ => true
  }

  predicate GoodItems(items: seq<Item>) {
    forall k :: 0 <= k < |items| ==> GoodItem(items[k])
  }

  lemma NextIsGood(st: State, p: seq<byte>)
    requires st.Valid() && p != [] && Ascii(p) && GoodItems(st.body) && Next(st, Scan(p).token).Go?
    ensures GoodItems(Next(st, Scan(p).token).state.body)
  {
  }

  lemma NextGrows(st: State, token: Token)
    requires st.Valid() && Next(st, token).Go?
    ensures S.CodeSize(Next(st, token).state.body) >= S.CodeSize(st.body)
    ensures Unanchored(st.body) ==> Unanchored(Next(st, token).state.body)
  {
    if token.Star? && st.starable {
      S.CodeSizeOfRepeated(st.body);
    } else {
      var next := Next(st, token).state.body;
      S.CodeSizeOfAppend(st.body, next[|next| - 1]);
    }
  }

  /** Parsing only adds code and never puts an end-of-line test in the body. */
  lemma {:induction false} ParseGrows(p: seq<byte>, eof: byte, st: State)
    requires st.Valid() && Unanchored(st.body) && ParseItems(p, eof, st).Regex?
    ensures var r := ParseItems(p, eof, st);
      Unanchored(r.body) && S.CodeSize(Program(r.body, r.atEnd)) >= S.CodeSize(st.body)
    decreases |p|
  {
    if p[0] == eof {
    } else if p[0] == S.DOLLAR && |p| > 1 && p[1] == eof {
      S.CodeSizeOfAppend(st.body, EndOfLine);
    } else {
      NextGrows(st, Scan(p).token);
      ParseGrows(Scan(p).rest, eof, Next(st, Scan(p).token).state);
    }
  }

  /** Reading members only makes the list longer. */
  lemma {:induction false} MembersGrow(p: seq<byte>, listed: seq<byte>)
    requires ParseMembers(p, listed).Members?
    ensures |ParseMembers(p, listed).listed| >= |listed| && ParseMembers(p, listed).listed != []
    decreases |p|
  {
    if p[0] == S.RBRACKET && listed != [] {
    } else if p[0] == S.DASH && listed != [] {
      if p[1] != S.RBRACKET {
        MembersGrow(p[2..], listed + Between(listed[|listed| - 1], p[1]) + [p[1]]);
      }
    } else {
      MembersGrow(p[1..], listed + [p[0]]);
    }
  }

  /** No two items begin or end the same group. */
  ghost predicate Grouped(items: seq<Item>) {
    && (forall t :: 0 <= t < |items| && items[t].Open? ==> items[t].group < NBRA)
    && (forall t :: 0 <= t < |items| && items[t].Close? ==> items[t].group < NBRA)
    && (forall t, u :: 0 <= t < u < |items| && items[t].Open? && items[u].Open? ==> items[t].group != items[u].group)
    && (forall t, u :: 0 <= t < u < |items| && items[t].Close? && items[u].Close? ==> items[t].group != items[u].group)
  }

  /** Groups are numbered as they begin, and each unfinished one is remembered once. */
  ghost predicate Numbered(st: State) {
    && st.begun <= NBRA && Grouped(st.body)
    && (forall t :: 0 <= t < |st.body| && st.body[t].Open? ==> st.body[t].group < st.begun)
    && (forall t :: 0 <= t < |st.body| && st.body[t].Close? ==> st.body[t].group !in st.open)
    && (forall a :: 0 <= a < |st.open| ==> st.open[a] < st.begun)
    && (forall a, b :: 0 <= a < b < |st.open| ==> st.open[a] != st.open[b])
    && (forall t :: 0 <= t < |st.body| && st.body[t].Close? ==> st.body[t].group < st.begun)
  }

  /** Items that are not groups do not matter. */
  lemma PlainNumbered(st: State, body: seq<Item>, starable: bool)
    requires Numbered(st) && |st.body| <= |body| <= |st.body| + 1
    requires forall t :: 0 <= t < |body| ==> if t < |st.body| && GroupItem(st.body[t]) then body[t] == st.body[t] else !GroupItem(body[t])
    ensures Numbered(State(body, starable, st.begun, st.open))
  {
  }

  predicate GroupItem(it: Item) {
    it.Open? || it.Close?
  }

  lemma OpenNumbered(st: State, next: State)
    requires Numbered(st) && st.begun < NBRA
    requires next == State(st.body + [Open(st.begun)], false, st.begun + 1, st.open + [st.begun])
    ensures Numbered(next)
  {
  }

  lemma CloseNumbered(st: State, next: State)
    requires Numbered(st) && st.open != []
    requires next == State(st.body + [Close(st.open[|st.open| - 1])], false, st.begun, st.open[..|st.open| - 1])
    ensures Numbered(next)
  {
  }

  lemma NextNumbered(st: State, token: Token)
    requires st.Valid() && Numbered(st) && Next(st, token).Go?
    ensures Numbered(Next(st, token).state)
  {
    var next := Next(st, token).state;
    match token {
      case OpenGroup => OpenNumbered(st, next);
      case CloseGroup => CloseNumbered(st, next);
      case _ => PlainNumbered(st, next.body, next.starable);
    }
  }

  lemma {:induction false} ParseGroups(p: seq<byte>, eof: byte, st: State)
    requires st.Valid() && Numbered(st) && ParseItems(p, eof, st).Regex?
    ensures var r := ParseItems(p, eof, st); Grouped(Program(r.body, r.atEnd))
    decreases |p|
  {
    if p[0] == eof || (p[0] == S.DOLLAR && |p| > 1 && p[1] == eof) {
    } else {
      NextNumbered(st, Scan(p).token);
      ParseGroups(Scan(p).rest, eof, Next(st, Scan(p).token).state);
    }
  }
}
