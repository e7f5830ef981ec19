/** Glob patterns: their tokens, their trees, and which paths they match. */
module GlobSyntax {
  import opened Basics
  import opened TextLines

  datatype Token =
    | TStar
    | TDoubleStar
    | TDoubleStarSlash
    | TQuest
    | TOpen
    | TClose
    | TComma
    | TClass(neg: bool, body: string)
    | TLit(c: char)

  // ----- tokens

  /** Length of the class body that starts `s` and ends before a `]`; a `]` in
    * first place is a member, not the end.
    */
  function ClassBody(s: string): (n: Option<nat>)
    ensures n.Some? ==> 0 < n.value < |s| && s[n.value] == ']' && ']' !in s[1..n.value]
  {
    if s == [] then None
    else
      var n := 1 + IndexOf(s[1..], ']');
      if n == |s| then None
      else
        assert s[1..n] == s[1..][..n - 1];
        Some(n)
  }

  predicate Negated(s: string) {
    s != [] && (s[0] == '!' || s[0] == '^')
  }

  /** The first token of `s` and its length; none when it is a class that is
    * not closed.
    */
  function NextToken(s: string): (r: Option<(Token, nat)>)
    requires s != []
    ensures r.Some? ==> 0 < r.value.1 <= |s|
  {
    match s[0]
    case '*' =>
      if |s| > 1 && s[1] == '*' then
        if |s| > 2 && s[2] == '/' then Some((TDoubleStarSlash, 3)) else Some((TDoubleStar, 2))
      else Some((TStar, 1))
    case '?' => Some((TQuest, 1))
    case '{' => Some((TOpen, 1))
    case '}' => Some((TClose, 1))
    case ',' => Some((TComma, 1))
    case '[' =>
      var neg := Negated(s[1..]);
      var start := if neg then 2 else 1;
      var n := ClassBody(s[start..]);
      if n.None? then None else Some((TClass(neg, s[start..start + n.value]), start + n.value + 1))
    case c => Some((TLit(c), 1))
  }

  /** The tokens of a pattern; none when a class is not closed. */
  function Lex(s: string): Option<seq<Token>>
    decreases |s|
  {
    if s == [] then Some([])
    else
      match NextToken(s)
      case None => None
      case Some((t, n)) =>
        match Lex(s[n..])
        case None => None
        case Some(ts) => Some([t] + ts)
  }

  /** Every `}` closes a `{`, and every `{` is closed, `depth` being open already. */
  predicate Balanced(tokens: seq<Token>, depth: nat) {
    if tokens == [] then depth == 0
    else match tokens[0]
      case TOpen => Balanced(tokens[1..], depth + 1)
      case TClose => depth > 0 && Balanced(tokens[1..], depth - 1)
      case _ => Balanced(tokens[1..], depth)
  }

  // ----- trees

  datatype Glob = GEnd | GCons(head: Atom, tail: Glob)

  datatype Atom =
    | Star
    | DoubleStar
    | DoubleStarSlash
    | Quest
    | Class(neg: bool, body: string)
    | Lit(c: char)
    | Brace(alts: Alternatives)

  datatype Alternatives = One(g: Glob) | More(g: Glob, rest: Alternatives)

  datatype Parsed<+T> = Fail | Parsed(value: T, rest: seq<Token>)

  function SimpleAtom(t: Token): Atom
    requires !t.TOpen? && !t.TClose?
  {
    match t
    case TStar => Star
    case TDoubleStar => DoubleStar
    case TDoubleStarSlash => DoubleStarSlash
    case TQuest => Quest
    case TComma => Lit(',')
    case TClass(neg, body) => Class(neg, body)
    case TLit(c) => Lit(c)
  }

  /** A concatenation; inside braces it ends at `,` or `}`. */
  function ParseSeq(tokens: seq<Token>, inBrace: bool): (r: Parsed<Glob>)
    ensures r.Parsed? ==> |r.rest| <= |tokens|
    ensures r.Parsed? ==> if inBrace then r.rest == [] || r.rest[0].TClose? || r.rest[0].TComma? else r.rest == []
    decreases |tokens|, 0
  {
    if tokens == [] then Parsed(GEnd, [])
    else if inBrace && (tokens[0].TClose? || tokens[0].TComma?) then Parsed(GEnd, tokens)
    else match tokens[0]
      case TClose => Fail
      case TOpen =>
        var alts := ParseAlts(tokens[1..]);
        if alts.Fail? then Fail
        else
          var g := ParseSeq(alts.rest, inBrace);
          if g.Fail? then Fail else Parsed(GCons(Brace(alts.value), g.value), g.rest)
      case t =>
        var g := ParseSeq(tokens[1..], inBrace);
        if g.Fail? then Fail else Parsed(GCons(SimpleAtom(t), g.value), g.rest)
  }

  /** Alternatives up to and with their `}`. */
  function ParseAlts(tokens: seq<Token>): (r: Parsed<Alternatives>)
    ensures r.Parsed? ==> |r.rest| < |tokens|
    decreases |tokens|, 1
  {
    var g := ParseSeq(tokens, true);
    if g.Fail? || g.rest == [] then Fail
    else if g.rest[0].TClose? then Parsed(One(g.value), g.rest[1..])
    else
      var more := ParseAlts(g.rest[1..]);
      if more.Fail? then Fail else Parsed(More(g.value, more.value), more.rest)
  }

  predicate WellFormed(pattern: string) {
    pattern != [] && Lex(pattern).Some? && Balanced(Lex(pattern).value, 0)
  }

  /** The tree of a well-formed pattern. */
  function Tree(pattern: string): Glob
    requires WellFormed(pattern)
  {
    BalancedParses(Lex(pattern).value);
    ParseSeq(Lex(pattern).value, false).value
  }

  /** Reading a concatenation or a group leaves the balance of the rest alone. */
  lemma {:induction false} ParseKeepsBalance(tokens: seq<Token>, inBrace: bool, depth: nat)
    requires inBrace <==> depth > 0
    ensures var r := ParseSeq(tokens, inBrace);
            Balanced(tokens, depth) <==> r.Parsed? && Balanced(r.rest, depth)
    decreases |tokens|, 0
  {
    if tokens == [] {
    } else if inBrace && (tokens[0].TClose? || tokens[0].TComma?) {
    } else if tokens[0].TClose? {
    } else if tokens[0].TOpen? {
      AltsKeepBalance(tokens[1..], depth + 1);
      var alts := ParseAlts(tokens[1..]);
      if alts.Parsed? {
        ParseKeepsBalance(alts.rest, inBrace, depth);
      }
    } else {
      ParseKeepsBalance(tokens[1..], inBrace, depth);
    }
  }

  lemma {:induction false} AltsKeepBalance(tokens: seq<Token>, depth: nat)
    requires depth > 0
    ensures var r := ParseAlts(tokens);
            Balanced(tokens, depth) <==> r.Parsed? && Balanced(r.rest, depth - 1)
    decreases |tokens|, 1
  {
    ParseKeepsBalance(tokens, true, depth);
    var g := ParseSeq(tokens, true);
    if g.Parsed? && g.rest != [] && !g.rest[0].TClose? {
      AltsKeepBalance(g.rest[1..], depth);
    }
  }

  /** Exactly the balanced token lists have a tree. */
  lemma BalancedParses(tokens: seq<Token>)
    ensures Balanced(tokens, 0) <==> ParseSeq(tokens, false).Parsed?
  {
    ParseKeepsBalance(tokens, false, 0);
  }

  // ----- meaning

  /** What regular expressions make of the body of a class, which is opaque here:
    * whether a class of it, negated or not, is valid, and which characters it names.
    */
  datatype ClassSets = ClassSets(valid: string -> bool, names: (string, char) -> bool)

  /** Whether the whole of `p` is matched. */
  ghost predicate Matches(g: Glob, p: string, sets: ClassSets)
    decreases g, 0
  {
    match g
    case GEnd => p == []
    case GCons(a, rest) =>
      exists k :: 0 <= k <= |p| && AtomMatches(a, p[..k], sets) && Matches(rest, p[k..], sets)
  }

  ghost predicate AtomMatches(a: Atom, w: string, sets: ClassSets)
    decreases a, 0
  {
    match a
    case Star => '/' !in w
    case DoubleStar => true
    case DoubleStarSlash => w == [] || w[|w| - 1] == '/'
    case Quest => |w| == 1 && w[0] != '/'
    case Class(neg, body) => |w| == 1 && sets.names(body, w[0]) != neg
    case Lit(c) => w == [c]
    case Brace(alts) => AltsMatch(alts, w, sets)
  }

  ghost predicate AltsMatch(alts: Alternatives, w: string, sets: ClassSets)
    decreases alts, 0
  {
    match alts
    case One(g) => Matches(g, w, sets)
    case More(g, rest) => Matches(g, w, sets) || AltsMatch(rest, w, sets)
  }
}
