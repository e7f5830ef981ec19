/** The tokens and the trees of patterns put together. */
module GlobConcat {
  import opened Basics
  import opened TextLines
  import opened GlobSyntax

  function AppendG(a: Glob, b: Glob): Glob {
    match a
    case GEnd => b
    case GCons(h, t) => GCons(h, AppendG(t, b))
  }

  // ----- tokens

  /** No braces and no classes. */
  predicate Flat(tokens: seq<Token>) {
    forall i :: 0 <= i < |tokens| ==> !tokens[i].TOpen? && !tokens[i].TClose? && !tokens[i].TClass?
  }

  function TreeOf(tokens: seq<Token>): Glob
    requires Flat(tokens)
  {
    if tokens == [] then GEnd else GCons(SimpleAtom(tokens[0]), TreeOf(tokens[1..]))
  }

  lemma {:induction false} FlatParses(tokens: seq<Token>)
    requires Flat(tokens)
    ensures Balanced(tokens, 0) && ParseSeq(tokens, false) == Parsed(TreeOf(tokens), [])
  {
    if tokens != [] {
      FlatParses(tokens[1..]);
    }
  }

  lemma TailOfConcat<T>(a: seq<T>, b: seq<T>)
    requires a != []
    ensures (a + b)[0] == a[0] && (a + b)[1..] == a[1..] + b && a + b != []
  {
  }

  lemma {:induction false} FlatBalanced(tokens: seq<Token>, depth: nat)
    requires Flat(tokens)
    ensures Balanced(tokens, depth) <==> depth == 0
  {
    if tokens != [] {
      FlatBalanced(tokens[1..], depth);
    }
  }

  /** Flat tokens at the end leave the balance as it is. */
  lemma {:induction false} BalancedAppend(tokens: seq<Token>, more: seq<Token>, depth: nat)
    requires Flat(more)
    ensures Balanced(tokens + more, depth) == Balanced(tokens, depth)
  {
    hide Flat;
    if tokens == [] {
      assert tokens + more == more;
      FlatBalanced(more, depth);
    } else {
      TailOfConcat(tokens, more);
      var rest := tokens[1..];
      match tokens[0]
      case TOpen => BalancedAppend(rest, more, depth + 1);
      case TClose => if depth > 0 { BalancedAppend(rest, more, depth - 1); }
      case _ => BalancedAppend(rest, more, depth);
    }
  }

  /** What is read inside braces does not depend on what comes later. */
  lemma {:induction false} SeqAppendInside(tokens: seq<Token>, more: seq<Token>)
    requires ParseSeq(tokens, true).Parsed? && ParseSeq(tokens, true).rest != []
    ensures ParseSeq(tokens + more, true) == Parsed(ParseSeq(tokens, true).value, ParseSeq(tokens, true).rest + more)
    decreases |tokens|, 0
  {
    TailOfConcat(tokens, more);
    if tokens[0].TClose? || tokens[0].TComma? {
    } else if tokens[0].TOpen? {
      AltsAppend(tokens[1..], more);
      SeqAppendInside(ParseAlts(tokens[1..]).rest, more);
    } else {
      SeqAppendInside(tokens[1..], more);
    }
  }

  lemma {:induction false} AltsAppend(tokens: seq<Token>, more: seq<Token>)
    requires ParseAlts(tokens).Parsed?
    ensures ParseAlts(tokens + more) == Parsed(ParseAlts(tokens).value, ParseAlts(tokens).rest + more)
    decreases |tokens|, 1
  {
    SeqAppendInside(tokens, more);
    var g := ParseSeq(tokens, true);
    TailOfConcat(g.rest, more);
    if !g.rest[0].TClose? {
      AltsAppend(g.rest[1..], more);
    }
  }

  /** The tree of two token lists in a row. */
  lemma {:induction false} SeqAppend(tokens: seq<Token>, more: seq<Token>)
    requires ParseSeq(tokens, false).Parsed? && ParseSeq(more, false).Parsed?
    ensures ParseSeq(tokens + more, false)
         == Parsed(AppendG(ParseSeq(tokens, false).value, ParseSeq(more, false).value), [])
    decreases |tokens|
  {
    if tokens == [] {
      assert tokens + more == more;
    } else {
      TailOfConcat(tokens, more);
      if tokens[0].TOpen? {
        AltsAppend(tokens[1..], more);
        SeqAppend(ParseAlts(tokens[1..]).rest, more);
      } else {
        SeqAppend(tokens[1..], more);
      }
    }
  }

  // ----- text

  lemma LexStep(s: string, t: Token, n: nat, ts: seq<Token>)
    requires s != [] && NextToken(s) == Some((t, n)) && Lex(s[n..]) == Some(ts)
    ensures Lex(s) == Some([t] + ts)
  {
  }

  lemma LexStop(s: string)
    requires s != [] && (NextToken(s).None? || Lex(s[NextToken(s).value.1..]).None?)
    ensures Lex(s).None?
  {
  }

  lemma {:induction false} IndexOfAppend(s: string, rest: string, c: char)
    requires c !in rest
    ensures IndexOf(s + rest, c) == if IndexOf(s, c) < |s| then IndexOf(s, c) else |s| + |rest|
  {
    if s == [] {
      assert s + rest == rest;
    } else {
      TailOfConcat(s, rest);
      IndexOfAppend(s[1..], rest, c);
    }
  }

  lemma ClassBodyAppend(s: string, rest: string)
    requires ']' !in rest
    ensures ClassBody(s + rest) == ClassBody(s)
  {
    if s == [] {
      assert s + rest == rest;
      if rest != [] {
        assert forall i :: 0 <= i < |rest[1..]| ==> rest[1..][i] == rest[i] || rest[1..][i] in rest;
        NoIndex(rest[1..], ']');
      }
    } else {
      TailOfConcat(s, rest);
      IndexOfAppend(s[1..], rest, ']');
    }
  }

  lemma NoIndex(s: string, c: char)
    requires c !in s
    ensures IndexOf(s, c) == |s|
  {
  }

  /** Text that starts with a slash and closes no class does not change the token
    * in front of it, but for a double star just before.
    */
  lemma NextAppend(s: string, rest: string)
    requires s != [] && s != "**" && rest != [] && rest[0] == '/' && ']' !in rest
    ensures NextToken(s + rest) == NextToken(s)
  {
    hide ClassBody;
    TailOfConcat(s, rest);
    if s[0] == '[' {
      NextClassAppend(s, rest);
    } else if s[0] == '*' {
      assert |s| > 1 ==> (s + rest)[1] == s[1];
      assert |s| > 2 ==> (s + rest)[2] == s[2];
      assert |s| == 1 ==> (s + rest)[1] == rest[0];
      assert |s| == 2 && s[1] == '*' ==> s == "**";
    }
  }

  lemma NextClassAppend(s: string, rest: string)
    requires s != [] && s[0] == '[' && rest != [] && rest[0] == '/' && ']' !in rest
    ensures NextToken(s + rest) == NextToken(s)
  {
    var all := s + rest;
    assert all[0] == '[' && all[1..] == s[1..] + rest;
    var start := if Negated(s[1..]) then 2 else 1;
    assert all[start..] == s[start..] + rest;
    ClassBodyAppend(s[start..], rest);
    var n := ClassBody(s[start..]);
    if n.Some? {
      assert all[start..start + n.value] == s[start..start + n.value];
    }
    ClassToken(s);
    ClassToken(all);
    hide NextToken, ClassBody;
    assert Negated(all[1..]) == Negated(s[1..]);
  }

  lemma ClassToken(s: string)
    requires s != [] && s[0] == '['
    ensures var neg := Negated(s[1..]);
            var start := if neg then 2 else 1;
            var n := ClassBody(s[start..]);
            NextToken(s) == if n.None? then None
                            else Some((TClass(neg, s[start..start + n.value]), start + n.value + 1))
  {
    hide ClassBody;
  }

  predicate EndsInDoubleStar(tokens: seq<Token>) {
    tokens != [] && tokens[|tokens| - 1].TDoubleStar?
  }

  /** The tokens of a pattern with `rest` after it, when `rest` has the tokens
    * `slash` and `tail`: a double star at the end takes the slash with it.
    */
  function Joined(tokens: seq<Token>, slash: Token, tail: seq<Token>): seq<Token> {
    if EndsInDoubleStar(tokens) then tokens[..|tokens| - 1] + [TDoubleStarSlash] + tail
    else tokens + ([slash] + tail)
  }

  lemma JoinedCons(t: Token, tokens: seq<Token>, slash: Token, tail: seq<Token>)
    requires tokens == [] ==> !t.TDoubleStar?
    ensures Joined([t] + tokens, slash, tail) == [t] + Joined(tokens, slash, tail)
  {
    var all := [t] + tokens;
    if tokens == [] {
      assert all == [t] && tokens + ([slash] + tail) == [slash] + tail;
    } else {
      assert all[|all| - 1] == tokens[|tokens| - 1];
      if EndsInDoubleStar(tokens) {
        assert all[..|all| - 1] == [t] + tokens[..|tokens| - 1];
        Assoc4(t, tokens[..|tokens| - 1], [TDoubleStarSlash], tail);
      } else {
        assert [t] + (tokens + ([slash] + tail)) == [t] + tokens + ([slash] + tail);
      }
    }
  }

  lemma Assoc4<T>(t: T, a: seq<T>, b: seq<T>, c: seq<T>)
    ensures [t] + a + b + c == [t] + (a + b + c)
  {
  }

  lemma LexEmpty(s: string)
    requires Lex(s) == Some([])
    ensures s == []
  {
  }

  lemma {:induction false} LexAppend(s: string, rest: string, tail: seq<Token>)
    requires rest != [] && rest[0] == '/' && ']' !in rest && Lex(rest[1..]) == Some(tail)
    ensures Lex(s + rest) == match Lex(s) case None => None case Some(ts) => Some(Joined(ts, TLit('/'), tail))
    decreases |s|
  {
    if s == [] {
      assert s + rest == rest;
      LexStep(rest, TLit('/'), 1, tail);
      assert Joined([], TLit('/'), tail) == [TLit('/')] + tail;
    } else if s == "**" {
      LexDoubleStar(rest, tail);
    } else {
      NextAppend(s, rest);
      hide NextToken, Lex, Joined, EndsInDoubleStar;
      LexAppendStep(s, rest, tail);
    }
  }

  lemma LexDoubleStar(rest: string, tail: seq<Token>)
    requires rest != [] && rest[0] == '/' && Lex(rest[1..]) == Some(tail)
    ensures Lex("**") == Some([TDoubleStar])
    ensures Lex("**" + rest) == Some(Joined([TDoubleStar], TLit('/'), tail))
  {
    hide *;
    var all := "**" + rest;
    StarsThenSlash(rest);
    LexStep(all, TDoubleStarSlash, 3, tail);
    TwoStars();
    LexStep("**", TDoubleStar, 2, []);
    assert [TDoubleStar] + [] == [TDoubleStar];
    JoinedDoubleStar(tail);
  }

  lemma StarsThenSlash(rest: string)
    requires rest != [] && rest[0] == '/'
    ensures var all := "**" + rest;
            NextToken(all) == Some((TDoubleStarSlash, 3)) && all[3..] == rest[1..]
  {
    var all := "**" + rest;
    assert all[0] == all[1] == '*' && all[2] == '/';
    assert all[3..] == rest[1..];
  }

  lemma TwoStars()
    ensures NextToken("**") == Some((TDoubleStar, 2)) && "**"[2..] == "" && Lex("") == Some([])
  {
  }

  lemma JoinedDoubleStar(tail: seq<Token>)
    ensures Joined([TDoubleStar], TLit('/'), tail) == [TDoubleStarSlash] + tail
  {
    assert [TDoubleStar][..0] == [];
    assert [] + [TDoubleStarSlash] + tail == [TDoubleStarSlash] + tail;
  }

  lemma {:induction false} LexAppendStep(s: string, rest: string, tail: seq<Token>)
    requires s != [] && s != "**" && NextToken(s + rest) == NextToken(s)
    requires rest != [] && rest[0] == '/' && ']' !in rest && Lex(rest[1..]) == Some(tail)
    ensures Lex(s + rest) == match Lex(s) case None => None case Some(ts) => Some(Joined(ts, TLit('/'), tail))
    decreases |s|, 0
  {
    hide Lex, NextToken, Joined, EndsInDoubleStar;
    var next := NextToken(s);
    if next.None? {
      LexStop(s);
      LexStop(s + rest);
    } else {
      var t, n := next.value.0, next.value.1;
      assert (s + rest)[n..] == s[n..] + rest;
      LexAppend(s[n..], rest, tail);
      if Lex(s[n..]).None? {
        LexStop(s);
        LexStop(s + rest);
      } else {
        var ts := Lex(s[n..]).value;
        LexStep(s, t, n, ts);
        LexStep(s + rest, t, n, Joined(ts, TLit('/'), tail));
        if ts == [] {
          LexEmpty(s[n..]);
          OnlyDoubleStar(s, t, n);
        }
        JoinedCons(t, ts, TLit('/'), tail);
      }
    }
  }

  lemma OnlyDoubleStar(s: string, t: Token, n: nat)
    requires s != [] && NextToken(s) == Some((t, n)) && s[n..] == []
    ensures t.TDoubleStar? ==> s == "**"
  {
    assert |s| == n;
    if t.TDoubleStar? {
      assert s[0] == '*' && s[1] == '*' && |s| == 2;
    }
  }

  /** In front of any pattern the prefix is a token of its own. */
  lemma LexPrefix(s: string)
    ensures Lex("**/" + s) == match Lex(s) case None => None case Some(ts) => Some([TDoubleStarSlash] + ts)
  {
    var all := "**/" + s;
    assert all[3..] == s;
    assert NextToken(all) == Some((TDoubleStarSlash, 3));
    hide NextToken;
  }
}
