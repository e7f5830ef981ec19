/** What the tokens of a pattern look like, and that the lexer finds exactly them. */
module GlobSpelling {
  import opened Basics
  import opened TextLines
  import opened GlobSyntax

  const SPECIAL := "*?{},["

  /** The texts that stand for a token. A class is negated by either of two signs. */
  predicate Spells(t: Token, w: string) {
    match t
    case TStar => w == "*"
    case TDoubleStar => w == "**"
    case TDoubleStarSlash => w == "**/"
    case TQuest => w == "?"
    case TOpen => w == "{"
    case TClose => w == "}"
    case TComma => w == ","
    case TClass(neg, body) =>
      if neg then w == "[!" + body + "]" || w == "[^" + body + "]" else w == "[" + body + "]"
    case TLit(c) => w == [c]
  }

  predicate Starts(c: char, rest: string) {
    rest != [] && rest[0] == c
  }

  /** Whether the token ends where it does when `rest` follows: stars are read
    * greedily, a class ends at its first `]` after the first member, and a sign
    * in front of the members negates.
    */
  predicate Ends(t: Token, rest: string) {
    match t
    case TStar => !Starts('*', rest)
    case TDoubleStar => !Starts('/', rest)
    case TClass(neg, body) =>
      && body != [] && ']' !in body[1..]
      && (!neg ==> body[0] != '!' && body[0] != '^')
    case TLit(c) => c !in SPECIAL
    case _ => true
  }

  /** `s` is the tokens one after the other. */
  predicate Spelled(tokens: seq<Token>, s: string) {
    if tokens == [] then s == []
    else
      exists n :: 0 < n <= |s| && Spells(tokens[0], s[..n]) && Ends(tokens[0], s[n..]) && Spelled(tokens[1..], s[n..])
  }

  // ----- one token

  lemma FirstClosing(s: string, n: nat)
    requires 0 < n < |s| && s[n] == ']' && ']' !in s[1..n]
    ensures ClassBody(s) == Some(n)
  {
    hide IndexOf;
    var t := s[1..];
    assert t[n - 1] == ']';
    var m := ClassBody(s).value;
    NotBefore(s, m, n);
    NotBefore(s, n, m);
  }

  lemma NotBefore(s: string, m: nat, n: nat)
    requires 0 < m <= |s| && ']' !in s[1..m]
    requires 0 < n < |s| && s[n] == ']'
    ensures m <= n
  {
    forall k | 1 <= k < m ensures s[k] != ']' {
      assert s[k] == s[1..m][k - 1];
    }
  }

  lemma NextIsSpelled(s: string)
    requires s != [] && NextToken(s).Some?
    ensures var (t, n) := NextToken(s).value; Spells(t, s[..n]) && Ends(t, s[n..])
  {
    if s[0] == '[' {
      NextClass(s);
    }
  }

  lemma NextClass(s: string)
    requires s != [] && s[0] == '[' && NextToken(s).Some?
    ensures var (t, n) := NextToken(s).value; Spells(t, s[..n]) && Ends(t, s[n..])
  {
    hide ClassBody;
    var start := if Negated(s[1..]) then 2 else 1;
    var n := ClassBody(s[start..]).value;
    var body := s[start..start + n];
    assert body == s[start..][..n];
    assert body[1..] == s[start..][1..n];
    assert s[start + n] == s[start..][n];
    assert s[..start + n + 1] == s[..start] + body + "]";
  }

  lemma SpelledIsNext(s: string, t: Token, n: nat)
    requires 0 < n <= |s| && Spells(t, s[..n]) && Ends(t, s[n..])
    ensures NextToken(s) == Some((t, n))
  {
    assert s[0] == s[..n][0];
    if t.TClass? {
      SpelledClass(s, t, n);
    } else {
      SpelledPlain(s, t, n);
    }
  }

  lemma SpelledPlain(s: string, t: Token, n: nat)
    requires 0 < n <= |s| && !t.TClass? && Spells(t, s[..n]) && Ends(t, s[n..])
    ensures NextToken(s) == Some((t, n))
  {
    var w := s[..n];
    assert s[0] == w[0];
    if t.TDoubleStar? || t.TDoubleStarSlash? {
      assert s[1] == w[1];
      if t.TDoubleStarSlash? {
        assert s[2] == w[2];
      }
    }
  }

  lemma SpelledClass(s: string, t: Token, n: nat)
    requires 0 < n <= |s| && t.TClass? && Spells(t, s[..n]) && Ends(t, s[n..])
    ensures NextToken(s) == Some((t, n))
  {
    var start := if t.neg then 2 else 1;
    ClassParts(s, t, n, start);
    FirstClosing(s[start..], |t.body|);
    hide ClassBody, Spells, Ends;
  }

  lemma ClassParts(s: string, t: Token, n: nat, start: nat)
    requires 0 < n <= |s| && t.TClass? && Spells(t, s[..n]) && Ends(t, s[n..])
    requires start == if t.neg then 2 else 1
    ensures n == start + |t.body| + 1 && |t.body| > 0 && s[0] == '[' && Negated(s[1..]) == t.neg
    ensures s[start..start + |t.body|] == t.body && s[start..][|t.body|] == ']' && ']' !in s[start..][1..|t.body|]
  {
    var w, body := s[..n], t.body;
    assert s[0] == w[0] && s[1] == w[1];
    assert n == start + |body| + 1;
    assert s[start..start + |body|] == w[start..start + |body|] == body;
    assert s[n - 1] == w[n - 1];
    assert s[start..][1..|body|] == body[1..];
    assert !t.neg ==> s[1] == body[0];
  }

  // ----- all of them

  /** The tokens of a pattern are exactly those it is spelled with. */
  lemma {:induction false} LexExactly(s: string, tokens: seq<Token>)
    ensures Lex(s) == Some(tokens) <==> Spelled(tokens, s)
    decreases |s|
  {
    hide NextToken, Spells, Ends;
    if Lex(s) == Some(tokens) && s != [] {
      var (t, n) := NextToken(s).value;
      NextIsSpelled(s);
      LexExactly(s[n..], tokens[1..]);
      assert tokens[0] == t;
    }
    if Spelled(tokens, s) && tokens != [] {
      var n :| 0 < n <= |s| && Spells(tokens[0], s[..n]) && Ends(tokens[0], s[n..]) && Spelled(tokens[1..], s[n..]);
      SpelledIsNext(s, tokens[0], n);
      LexExactly(s[n..], tokens[1..]);
      assert tokens == [tokens[0]] + tokens[1..];
    }
  }
}
