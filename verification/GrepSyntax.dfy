/** The pattern language grep accepts, and the byte code its compiler emits. */
module GrepSyntax {
  import opened Common
  import opened Patterns

  const NBRA := 9
  const ESIZE := 256

  /** Unmodelled: back-references, word anchors, and the two bracket forms whose
      effect C leaves undefined (an 8-bit member, a range with no upper end). */
  datatype Parsed = Regex(body: seq<Item>, atEnd: bool) | Malformed | Unmodelled
  datatype ParsedClass = Members(members: set<byte>, rest: Text) | BadClass | UnmodelledClass
  datatype Previous = None | Some(b: byte)

  const CARET := '^' as byte
  const STARCH := '*' as byte
  const DOT := '.' as byte
  const DOLLAR := '$' as byte
  const LBRACKET := '[' as byte
  const RBRACKET := ']' as byte
  const BACKSLASH := '\\' as byte
  const DASH := '-' as byte
  const LPAREN := '(' as byte
  const RPAREN := ')' as byte
  const LESS := '<' as byte
  const GREATER := '>' as byte
  const DIGIT1 := '1' as byte
  const DIGIT9 := '9' as byte

  /** Members of a range: the upper end counts only when it is not below the lower. */
  function RangeMembers(lo: byte, hi: byte): set<byte> {
    set b: byte | 0 <= b < 256 && InRange(b, lo, hi)
  }

  predicate InRange(b: byte, lo: byte, hi: byte) {
    b == lo || lo <= b <= hi
  }

  /** The members listed in p up to the closing bracket.  The first member may be
      a bracket or a dash; prev is the byte before p, if any of it was a member. */
  function ParseMembers(p: Text, prev: Previous, members: set<byte>): (r: ParsedClass)
    ensures r.Members? ==> |r.rest| < |p|
    decreases |p|
  {
    if p == [] then BadClass
    else if p[0] == RBRACKET && prev.Some? then Members(members, p[1..])
    else if p[0] >= 128 then UnmodelledClass
    else if p[0] == DASH && prev.Some? && !(|p| > 1 && p[1] == RBRACKET) then
      if |p| == 1 || p[1] >= 128 then UnmodelledClass
      else ParseMembers(p[2..], Some(p[1]), members + RangeMembers(prev.b, p[1]))
    else ParseMembers(p[1..], Some(p[0]), members + {p[0]})
  }

  /** What follows an opening bracket. */
  function ParseClass(p: Text): (r: ParsedClass)
    ensures r.Members? ==> |r.rest| < |p|
  {
    if p != [] && p[0] == CARET then
      match ParseMembers(p[1..], None, {})
      case Members(members, rest) => Members(Complement(members), rest)
      case other => other
    else ParseMembers(p, None, {})
  }

  function Complement(members: set<byte>): set<byte> {
    set b: byte | 0 < b < 128 && b !in members
  }

  /** Repeat the last item. */
  function Repeated(body: seq<Item>): seq<Item>
    requires body != [] && (body[|body| - 1].One? || body[|body| - 1].Many?)
  {
    body[|body| - 1 := Many(body[|body| - 1].atom)]
  }

  predicate Repeatable(body: seq<Item>) {
    body != [] && (body[|body| - 1].One? || body[|body| - 1].Many?)
  }

  datatype Token =
    | Dot
    | Star
    | Literal(c: byte)
    | Bracket(members: set<byte>)
    | OpenGroup
    | CloseGroup
    | BackReference(n: nat)
    | BadToken
    | UnmodelledToken

  datatype Scanned = Scanned(token: Token, rest: Text)

  /** The first token of a pattern; a dollar sign is special only at the very end. */
  function Scan(p: Text): (r: Scanned)
    requires p != []
    ensures |r.rest| < |p|
  {
    var c, rest := p[0], p[1..];
    if c == DOT then Scanned(Dot, rest)
    else if c == STARCH then Scanned(Star, rest)
    else if c == LBRACKET then
      match ParseClass(rest) {
        case Members(members, rest') => Scanned(Bracket(members), rest')
        case BadClass => Scanned(BadToken, rest)
        case UnmodelledClass => Scanned(UnmodelledToken, rest)
      }
    else if c == BACKSLASH then
      if rest == [] then Scanned(BadToken, rest) else Scanned(Escaped(rest[0]), rest[1..])
    else Scanned(Literal(c), rest)
  }

  function Escaped(d: byte): Token {
    if d == LESS || d == GREATER then UnmodelledToken
    else if d == LPAREN then OpenGroup
    else if d == RPAREN then CloseGroup
    else if DIGIT1 <= d <= DIGIT9 then BackReference(d - DIGIT1)
    else Literal(d)
  }

  /** What has been read: the items so far, whether a star would repeat the last
      of them, how many groups were begun, which are unfinished, how many ended. */
  datatype State = State(body: seq<Item>, starable: bool, begun: nat, open: seq<nat>, closed: nat) {
    predicate Valid() {
      starable ==> Repeatable(body)
    }

    function Add(it: Item): State {
      State(body + [it], it.One?, begun, open, closed)
    }
  }

  datatype Step = Go(state: State) | Bad | Odd

  /** A star is an ordinary character at the beginning, after a parenthesis, and
      after another such star. */
  function Next(st: State, token: Token): (r: Step)
    requires st.Valid()
    ensures r.Go? ==> r.state.Valid()
  {
    match token
    case Dot => Go(st.Add(One(Any)))
    case Star =>
      Go(if st.starable then st.(body := Repeated(st.body)) else st.(body := st.body + [One(Char(STARCH))]))
    case Literal(c) => Go(st.Add(One(Char(c))))
    case Bracket(members) => Go(st.Add(One(Class(members))))
    case OpenGroup =>
      if st.begun >= NBRA then Bad
      else Go(st.Add(Open(st.begun)).(begun := st.begun + 1, open := st.open + [st.begun]))
    case CloseGroup =>
      if st.open == [] then Bad
      else Go(st.Add(Close(st.open[|st.open| - 1])).(open := st.open[..|st.open| - 1], closed := st.closed + 1))
    case BackReference(n) => if n >= st.closed then Bad else Odd
    case BadToken => Bad
    case UnmodelledToken => Odd
  }

  /** Reads the rest p of a pattern. */
  function ParseItems(p: Text, st: State): Parsed
    requires st.Valid()
    decreases |p|
  {
    if p == [] then Regex(st.body, false)
    else if p == [DOLLAR] then Regex(st.body, true)
    else
      match Next(st, Scan(p).token)
      case Go(next) => ParseItems(Scan(p).rest, next)
      case Bad => Malformed
      case Odd => Unmodelled
  }

  function Anchored(p: Text): bool {
    p != [] && p[0] == CARET
  }

  const START := State([], false, 0, [], 0)

  function Parse(p: Text): Parsed {
    ParseItems(if Anchored(p) then p[1..] else p, START)
  }

  /** A class is made of 7-bit characters, never NUL. */
  lemma {:induction false} MembersAreAscii(p: Text, prev: Previous, members: set<byte>)
    requires ParseMembers(p, prev, members).Members?
    requires prev.Some? ==> 0 < prev.b < 128
    requires forall b :: b in members ==> 0 < b < 128
    ensures forall b :: b in ParseMembers(p, prev, members).members ==> 0 < b < 128
    decreases |p|
  {
    assert forall i :: 0 <= i < |p| ==> p[i] in p;
    if p[0] == RBRACKET && prev.Some? {
    } else if p[0] == DASH && prev.Some? && !(|p| > 1 && p[1] == RBRACKET) {
      MembersAreAscii(p[2..], Some(p[1]), members + RangeMembers(prev.b, p[1]));
    } else {
      MembersAreAscii(p[1..], Some(p[0]), members + {p[0]});
    }
  }

  predicate GoodItem(it: Item) {
    (it.One? || it.Many?) ==>
      match it.atom
      case Char(c) => c != 0
      case Any => true
      case Class(members) => forall b :: b in members ==> 0 < b < 128
      case _ => false
  }

  predicate GoodItems(items: seq<Item>) {
    forall k :: 0 <= k < |items| ==> GoodItem(items[k])
  }

  // ---- Code size ----

  function ItemSize(it: Item): nat {
    match it
    case One(a) => AtomSize(a)
    case Many(a) => AtomSize(a)
    case EndOfLine => 1
    case _ => 2
  }

  function AtomSize(a: Atom): nat {
    match a
    case Char(_) => 2
    case Any => 1
    case Class(_) => 17
    case Listed(listed) => 2 + |listed|
    case Unlisted(listed) => 2 + |listed|
  }

  function CodeSize(items: seq<Item>): nat {
    if items == [] then 0 else CodeSize(items[..|items| - 1]) + ItemSize(items[|items| - 1])
  }

  lemma CodeSizeOfAppend(items: seq<Item>, it: Item)
    ensures CodeSize(items + [it]) == CodeSize(items) + ItemSize(it)
  {
    assert (items + [it])[..|items|] == items;
  }

  lemma CodeSizeOfRepeated(body: seq<Item>)
    requires Repeatable(body)
    ensures CodeSize(Repeated(body)) == CodeSize(body)
  {
    assert Repeated(body)[..|body| - 1] == body[..|body| - 1];
  }

  lemma NextGrows(st: State, token: Token)
    requires st.Valid() && Next(st, token).Go?
    ensures CodeSize(Next(st, token).state.body) >= CodeSize(st.body)
    ensures Unanchored(st.body) ==> Unanchored(Next(st, token).state.body)
  {
    if token.Star? && st.starable {
      CodeSizeOfRepeated(st.body);
    } else {
      var next := Next(st, token).state.body;
      CodeSizeOfAppend(st.body, next[|next| - 1]);
    }
  }

  /** Parsing only adds code and never puts an end-of-line test in the body. */
  lemma {:induction false} ParseGrows(p: Text, st: State)
    requires st.Valid() && Unanchored(st.body) && ParseItems(p, st).Regex?
    ensures var r := ParseItems(p, st); Unanchored(r.body) && CodeSize(Program(r.body, r.atEnd)) >= CodeSize(st.body)
    decreases |p|
  {
    if p == [] {
    } else if p == [DOLLAR] {
      CodeSizeOfAppend(st.body, EndOfLine);
    } else {
      NextGrows(st, Scan(p).token);
      ParseGrows(Scan(p).rest, Next(st, Scan(p).token).state);
    }
  }
}
