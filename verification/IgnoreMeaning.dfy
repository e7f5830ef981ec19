/** What the globs of one `.gitignore` entry mean together. */
module IgnoreMeaning {
  import opened Basics
  import opened GlobSyntax
  import opened Regex
  import opened GlobConcat
  import opened GlobCorrect
  import opened GlobMeaning
  import opened GlobRefused
  import opened IgnoreRules
  import opened PathGlobs

  // ----- the patterns of an entry

  lemma CompilesWild(core: string, sets: ClassSets)
    requires Wild(core)
    ensures Compiles(core, sets) && Flat(WildTokens(core)) && Tree(core) == TreeOf(WildTokens(core))
  {
    LexWild(core);
    FlatParses(WildTokens(core));
  }

  const AnyTail: seq<Token> := [TDoubleStarSlash, TStar]

  lemma LexTail()
    ensures Lex("**/*") == Some(AnyTail)
  {
    assert "**/*"[3..] == "*" && "*"[1..] == "";
    assert Lex("") == Some([]);
    assert NextToken("*") == Some((TStar, 1));
    LexStep("*", TStar, 1, []);
    assert [TStar] + [] == [TStar];
    assert NextToken("**/*") == Some((TDoubleStarSlash, 3));
    LexStep("**/*", TDoubleStarSlash, 3, [TStar]);
    assert [TDoubleStarSlash] + [TStar] == AnyTail;
  }

  /** The tokens of an entry with everything under it. */
  lemma LexUnder(core: string)
    ensures Lex(core + "/**/*")
         == match Lex(core) case None => None case Some(ts) => Some(Joined(ts, TLit('/'), AnyTail))
  {
    LexTail();
    assert "/**/*"[1..] == "**/*" && ']' !in "/**/*";
    hide Lex, Joined;
    LexAppend(core, "/**/*", AnyTail);
  }

  lemma TailTrees()
    ensures Flat([TLit('/')] + AnyTail) && TreeOf([TLit('/')] + AnyTail) == Below
    ensures Flat([TDoubleStarSlash] + AnyTail) && TreeOf([TDoubleStarSlash] + AnyTail) == Swallowed
    ensures Flat([TDoubleStar]) && TreeOf([TDoubleStar]) == Everything
  {
    assert AnyTail[1..] == [TStar] && [TStar][1..] == [] && [TDoubleStar][1..] == [];
    assert TreeOf([TStar]) == GCons(Star, GEnd);
    assert TreeOf(AnyTail) == GCons(DoubleStarSlash, GCons(Star, GEnd));
    assert ([TLit('/')] + AnyTail)[1..] == AnyTail && ([TDoubleStarSlash] + AnyTail)[1..] == AnyTail;
  }

  /** What a double star before the slash of `/` turns the suffix into. */
  const Swallowed: Glob := GCons(DoubleStarSlash, GCons(DoubleStarSlash, GCons(Star, GEnd)))

  const Everything: Glob := GCons(DoubleStar, GEnd)

  /** A token list with a flat one after it. */
  lemma TreeOfJoined(ts: seq<Token>, more: seq<Token>)
    requires Balanced(ts, 0) && Flat(more)
    ensures Balanced(ts + more, 0) && ParseSeq(ts, false).Parsed? && ParseSeq(ts + more, false).Parsed?
    ensures ParseSeq(ts + more, false).value == AppendG(ParseSeq(ts, false).value, TreeOf(more))
  {
    hide *;
    BalancedAppend(ts, more, 0);
    BalancedParses(ts);
    FlatParses(more);
    SeqAppend(ts, more);
  }

  /** The entry's pattern and the one for what is under it are well formed alike. */
  lemma UnderWellFormed(core: string)
    requires core != []
    ensures WellFormed(core + "/**/*") == WellFormed(core)
  {
    LexUnder(core);
    hide Lex, Balanced;
    if Lex(core).Some? {
      JoinedBalanced(Lex(core).value);
    }
  }

  lemma JoinedBalanced(ts: seq<Token>)
    ensures Balanced(Joined(ts, TLit('/'), AnyTail), 0) == Balanced(ts, 0)
  {
    TailTrees();
    hide Balanced, Flat;
    if EndsInDoubleStar(ts) {
      var init := ts[..|ts| - 1];
      assert ts == init + [TDoubleStar];
      BalancedAppend(init, [TDoubleStar], 0);
      BalancedAppend(init, [TDoubleStarSlash] + AnyTail, 0);
      assert init + [TDoubleStarSlash] + AnyTail == init + ([TDoubleStarSlash] + AnyTail);
    } else {
      BalancedAppend(ts, [TLit('/')] + AnyTail, 0);
    }
  }

  lemma JoinedOk(ts: seq<Token>, ok: ClassTest)
    ensures TokensOk(Joined(ts, TLit('/'), AnyTail), ok) <==> TokensOk(ts, ok)
  {
    hide TokensOk;
    TailTokensOk(ok);
    if EndsInDoubleStar(ts) {
      var init := ts[..|ts| - 1];
      assert ts == init + [TDoubleStar];
      ConcatOk(init, [TDoubleStar], ok);
      ConcatOk(init + [TDoubleStarSlash], AnyTail, ok);
      ConcatOk(init, [TDoubleStarSlash], ok);
    } else {
      ConcatOk(ts, [TLit('/')] + AnyTail, ok);
      ConcatOk([TLit('/')], AnyTail, ok);
    }
  }

  lemma TailTokensOk(ok: ClassTest)
    ensures TokensOk(AnyTail, ok) && TokensOk([TDoubleStarSlash], ok) && TokensOk([TDoubleStar], ok) && TokensOk([TLit('/')], ok)
  {
  }

  lemma ConcatOk(a: seq<Token>, b: seq<Token>, ok: ClassTest)
    ensures TokensOk(a + b, ok) <==> TokensOk(a, ok) && TokensOk(b, ok)
  {
    hide TokenOk;
    assert forall i :: 0 <= i < |a| ==> (a + b)[i] == a[i];
    assert forall i :: 0 <= i < |b| ==> (a + b)[|a| + i] == b[i];
  }

  /** The entry's pattern and the one for what is under it compile alike. */
  lemma UnderCompiles(core: string, sets: ClassSets)
    requires core != []
    ensures Compiles(core + "/**/*", sets) == Compiles(core, sets)
  {
    UnderWellFormed(core);
    LexUnder(core);
    hide Lex, Balanced, TokensOk, Joined, Accepted;
    if WellFormed(core) {
      JoinedOk(Lex(core).value, Accepted(sets));
    }
  }

  /** A tree that can always go on matches all that it begins. */
  lemma EverythingAfter(g: Glob, p: string, sets: ClassSets)
    ensures Matches(AppendG(g, Everything), p, sets) <==> exists k :: 0 <= k <= |p| && Matches(g, p[..k], sets)
  {
    hide Matches, AppendG;
    AppendGMatches(g, Everything, p, sets);
    forall k | 0 <= k <= |p| ensures Matches(Everything, p[k..], sets) {
      EverythingMatches(p[k..], sets);
    }
  }

  lemma EverythingMatches(q: string, sets: ClassSets)
    ensures Matches(Everything, q, sets)
  {
    assert q[..|q|] == q && q[|q|..] == [];
    GlobJoinAt(Everything, q, |q|, sets);
  }

  /** After a pattern that ends in a double star the suffix adds nothing. */
  lemma SwallowedMatches(g: Glob, p: string, sets: ClassSets)
    ensures Matches(AppendG(g, Everything), p, sets) || Matches(AppendG(g, Swallowed), p, sets)
       <==> AtOrUnder(AppendG(g, Everything), p, sets)
  {
    hide Matches, AppendG, Everything, Swallowed;
    var e := AppendG(g, Everything);
    EverythingAfter(g, p, sets);
    AppendGMatches(g, Swallowed, p, sets);
    assert p[..|p|] == p && EndsSegment(p, |p|);
    if AtOrUnder(e, p, sets) {
      var b: nat :| b <= |p| && EndsSegment(p, b) && Matches(e, p[..b], sets);
      EverythingAfter(g, p[..b], sets);
      var k: nat :| k <= b && Matches(g, p[..b][..k], sets);
      assert p[..b][..k] == p[..k];
    }
  }

  /** The entry's pattern and the one for what is under it, together. */
  lemma UnderMeaning(core: string, p: string, sets: ClassSets)
    requires WellFormed(core)
    ensures WellFormed(core + "/**/*")
    ensures Matches(Tree(core), p, sets) || Matches(Tree(core + "/**/*"), p, sets) <==> AtOrUnder(Tree(core), p, sets)
  {
    UnderWellFormed(core);
    LexUnder(core);
    var ts := Lex(core).value;
    JoinedBalanced(ts);
    hide Lex, Matches, AtOrUnder, Balanced, ParseSeq, AppendG;
    JoinedMeaning(ts, p, sets);
  }

  lemma JoinedMeaning(ts: seq<Token>, p: string, sets: ClassSets)
    requires Balanced(ts, 0)
    ensures var g, u := ParseSeq(ts, false), ParseSeq(Joined(ts, TLit('/'), AnyTail), false);
            && g.Parsed? && u.Parsed?
            && (Matches(g.value, p, sets) || Matches(u.value, p, sets) <==> AtOrUnder(g.value, p, sets))
  {
    TailTrees();
    hide Matches, AtOrUnder, Balanced, ParseSeq, AppendG, Flat;
    if EndsInDoubleStar(ts) {
      var init := ts[..|ts| - 1];
      assert ts == init + [TDoubleStar];
      BalancedAppend(init, [TDoubleStar], 0);
      TreeOfJoined(init, [TDoubleStar]);
      TreeOfJoined(init, [TDoubleStarSlash] + AnyTail);
      assert init + [TDoubleStarSlash] + AnyTail == init + ([TDoubleStarSlash] + AnyTail);
      SwallowedMatches(ParseSeq(init, false).value, p, sets);
    } else {
      TreeOfJoined(ts, [TLit('/')] + AnyTail);
      AtOrUnderMatches(ParseSeq(ts, false).value, p, sets);
    }
  }

  /** `**` `/` in front of a pattern. */
  lemma AnyDepthPattern(pattern: string, sets: ClassSets)
    requires pattern != []
    ensures WellFormed("**/" + pattern) == WellFormed(pattern)
    ensures Compiles("**/" + pattern, sets) == Compiles(pattern, sets)
    ensures WellFormed(pattern) ==> Tree("**/" + pattern) == GCons(DoubleStarSlash, Tree(pattern))
  {
    LexPrefix(pattern);
    hide Lex, TokensOk, Accepted;
    if Lex(pattern).Some? {
      var ts := Lex(pattern).value;
      assert ([TDoubleStarSlash] + ts)[1..] == ts;
      BalancedParses(ts);
      TailTokensOk(Accepted(sets));
      ConcatOk([TDoubleStarSlash], ts, Accepted(sets));
    }
  }

  /** Some of the patterns compiles and matches. */
  ghost predicate AnyMatches(patterns: seq<string>, path: string, sets: ClassSets) {
    exists i :: 0 <= i < |patterns| && Compile(patterns[i], sets).Some? && IsMatch(Compile(patterns[i], sets).value, path, sets)
  }

  lemma {:induction false} IgnoredByAny(patterns: seq<string>, path: string, sets: ClassSets)
    ensures IsIgnored(CompileAll(patterns, sets), path, sets) <==> AnyMatches(patterns, path, sets)
  {
    hide Compile, IsMatch;
    if patterns != [] {
      var n := |patterns| - 1;
      IgnoredByAny(patterns[..n], path, sets);
      CompileAllSnoc(patterns, n, sets);
      assert patterns[..n + 1] == patterns;
      var init, all := CompileAll(patterns[..n], sets), CompileAll(patterns, sets);
      if IsIgnored(init, path, sets) {
        var i :| 0 <= i < |init| && IsMatch(init[i], path, sets);
        assert all[i] == init[i];
      }
      if AnyMatches(patterns[..n], path, sets) {
        var i :| 0 <= i < n && Compile(patterns[..n][i], sets).Some? && IsMatch(Compile(patterns[..n][i], sets).value, path, sets);
        assert patterns[i] == patterns[..n][i];
      }
      if Compile(patterns[n], sets).Some? {
        assert all[|all| - 1] == Compile(patterns[n], sets).value;
      }
    }
  }

  // ----- what patterns of text, `*` and `?` match

  lemma {:induction false} WildStaysInSegment(core: string, w: string, sets: ClassSets)
    requires '/' !in core && Flat(WildTokens(core)) && Matches(TreeOf(WildTokens(core)), w, sets)
    ensures '/' !in w
  {
    if core != [] {
      WildTokensCons(core);
      var g := TreeOf(WildTokens(core));
      assert WildTokens(core)[1..] == WildTokens(core[1..]);
      var k := GlobSplitAt(g, w, sets);
      WildStaysInSegment(core[1..], w[k..], sets);
      assert '/' !in w[..k];
      assert w == w[..k] + w[k..];
    }
  }

  lemma {:induction false} LiteralMatchesItself(core: string, w: string, sets: ClassSets)
    requires (core == [] || Literal(core)) && Flat(WildTokens(core))
    ensures Matches(TreeOf(WildTokens(core)), w, sets) <==> w == core
  {
    if core != [] {
      WildTokensCons(core);
      var g := TreeOf(WildTokens(core));
      assert WildTokens(core)[1..] == WildTokens(core[1..]);
      assert g.head == Lit(core[0]);
      if Matches(g, w, sets) {
        var k := GlobSplitAt(g, w, sets);
        LiteralMatchesItself(core[1..], w[k..], sets);
        assert w == w[..k] + w[k..] && core == [core[0]] + core[1..];
      }
      if w == core {
        LiteralMatchesItself(core[1..], w[1..], sets);
        assert w[..1] == [core[0]];
        GlobJoinAt(g, w, 1, sets);
      }
    }
  }

  // ----- the theorems

  /** One pattern of an entry, when it compiles. */
  lemma PatternMatches(pattern: string, path: string, sets: ClassSets)
    requires NewlineFree(path) && SlashClass(sets)
    ensures Compile(pattern, sets).Some? && IsMatch(Compile(pattern, sets).value, path, sets)
       <==> Compiles(pattern, sets) && Matches(Tree(pattern), path, sets)
  {
    TranslationPreservesMeaning(pattern, path, sets);
    hide ReadRegex, Compiles, Matches, Tree, IsMatch;
    assert Compile(pattern, sets).Some? <==> GlobIsMatch(pattern, path, sets).Some?;
  }

  lemma AnyOfTwo(ps: seq<string>, path: string, sets: ClassSets)
    requires |ps| == 2
    ensures AnyMatches(ps, path, sets)
       <==> || (Compile(ps[0], sets).Some? && IsMatch(Compile(ps[0], sets).value, path, sets))
            || (Compile(ps[1], sets).Some? && IsMatch(Compile(ps[1], sets).value, path, sets))
  {
    hide Compile, IsMatch;
  }

  lemma AnyOfFour(ps: seq<string>, path: string, sets: ClassSets)
    requires |ps| == 4
    ensures AnyMatches(ps, path, sets) <==> AnyMatches(ps[..2], path, sets) || AnyMatches(ps[2..], path, sets)
  {
    hide Compile, IsMatch;
    forall i | 0 <= i < 4 ensures ps[i] == if i < 2 then ps[..2][i] else ps[2..][i - 2] {
    }
    if AnyMatches(ps[..2], path, sets) {
      var i: nat :| i < 2 && Compile(ps[..2][i], sets).Some? && IsMatch(Compile(ps[..2][i], sets).value, path, sets);
      assert Compile(ps[i], sets).Some? && IsMatch(Compile(ps[i], sets).value, path, sets);
    }
    if AnyMatches(ps[2..], path, sets) {
      var i: nat :| i < 2 && Compile(ps[2..][i], sets).Some? && IsMatch(Compile(ps[2..][i], sets).value, path, sets);
      assert Compile(ps[i + 2], sets).Some? && IsMatch(Compile(ps[i + 2], sets).value, path, sets);
    }
  }

  /** A pattern at any depth: some start of a segment of the path matches it. */
  lemma AnyDepthMeaning(pattern: string, path: string, sets: ClassSets)
    requires WellFormed(pattern)
    ensures WellFormed("**/" + pattern)
    ensures Matches(Tree("**/" + pattern), path, sets)
       <==> exists a :: 0 <= a <= |path| && StartsSegment(path, a) && Matches(Tree(pattern), path[a..], sets)
  {
    hide Matches, Tree, WellFormed, Compiles;
    assert pattern != [] by { NotEmpty(pattern); }
    AnyDepthPattern(pattern, sets);
    AnyDepthMatches(Tree(pattern), path, sets);
  }

  lemma NotEmpty(pattern: string)
    requires WellFormed(pattern)
    ensures pattern != []
  {
  }

  /** The four patterns of a well-formed entry, at every depth. */
  lemma FourMeaning(core: string, path: string, sets: ClassSets)
    requires WellFormed(core)
    ensures var under := core + "/**/*";
            && WellFormed(under) && WellFormed("**/" + core) && WellFormed("**/" + under)
            && (|| Matches(Tree(core), path, sets) || Matches(Tree("**/" + core), path, sets)
                || Matches(Tree(under), path, sets) || Matches(Tree("**/" + under), path, sets)
                <==> exists a :: 0 <= a <= |path| && StartsSegment(path, a) && AtOrUnder(Tree(core), path[a..], sets))
  {
    hide Matches, Tree, WellFormed, AtOrUnder;
    var under := core + "/**/*";
    UnderMeaning(core, path, sets);
    AnyDepthMeaning(core, path, sets);
    AnyDepthMeaning(under, path, sets);
    forall a | 0 <= a <= |path|
      ensures Matches(Tree(core), path[a..], sets) || Matches(Tree(under), path[a..], sets)
         <==> AtOrUnder(Tree(core), path[a..], sets)
    {
      UnderMeaning(core, path[a..], sets);
    }
    assert path[0..] == path && StartsSegment(path, 0);
  }

  /** The two globs of an anchored entry, or of one with a slash: the path is
    * matched by the entry's pattern, or lies under something that is. An entry
    * that does not compile ignores nothing.
    */
  lemma AnchoredMeaning(core: string, path: string, sets: ClassSets)
    requires core != [] && NewlineFree(path) && SlashClass(sets)
    ensures IsIgnored(CompileAll(PatternsOf(Entry(false, core)), sets), path, sets)
       <==> Compiles(core, sets) && AtOrUnder(Tree(core), path, sets)
  {
    var ps := PatternsOf(Entry(false, core));
    assert ps == [core, core + "/**/*"];
    hide *;
    UnderWellFormed(core);
    UnderCompiles(core, sets);
    IgnoredByAny(ps, path, sets);
    AnyOfTwo(ps, path, sets);
    PatternMatches(core, path, sets);
    PatternMatches(core + "/**/*", path, sets);
    if WellFormed(core) {
      UnderMeaning(core, path, sets);
    }
  }

  /** The four globs of an entry that may match anywhere: so does some part of the
    * path that starts at a segment.
    */
  lemma UnanchoredMeaning(core: string, path: string, sets: ClassSets)
    requires core != [] && NewlineFree(path) && SlashClass(sets)
    ensures IsIgnored(CompileAll(PatternsOf(Entry(true, core)), sets), path, sets)
       <==> && Compiles(core, sets)
            && exists a :: 0 <= a <= |path| && StartsSegment(path, a) && AtOrUnder(Tree(core), path[a..], sets)
  {
    var ps, under := PatternsOf(Entry(true, core)), core + "/**/*";
    assert "**/" + core + "/**/*" == "**/" + under;
    assert ps[..2] == [core, "**/" + core] && ps[2..] == [under, "**/" + under];
    hide *;
    UnderWellFormed(core);
    UnderCompiles(core, sets);
    AnyDepthPattern(core, sets);
    AnyDepthPattern(under, sets);
    IgnoredByAny(ps, path, sets);
    AnyOfFour(ps, path, sets);
    AnyOfTwo(ps[..2], path, sets);
    AnyOfTwo(ps[2..], path, sets);
    PatternMatches(core, path, sets);
    PatternMatches("**/" + core, path, sets);
    PatternMatches(under, path, sets);
    PatternMatches("**/" + under, path, sets);
    if WellFormed(core) {
      FourMeaning(core, path, sets);
    }
  }

  lemma ComponentFromUnder(core: string, path: string, a: nat, sets: ClassSets) returns (i: nat)
    requires Wild(core) && '/' !in core && WellFormed(core)
    requires a <= |path| && StartsSegment(path, a) && AtOrUnder(Tree(core), path[a..], sets)
    ensures i < |Split(path)| && Matches(Tree(core), Split(path)[i], sets)
  {
    CompilesWild(core, sets);
    var q := path[a..];
    var b: nat :| b <= |q| && EndsSegment(q, b) && Matches(Tree(core), q[..b], sets);
    PartOfSuffix(path, a, b);
    hide *;
    WildStaysInSegment(core, q[..b], sets);
    i := ComponentIsListed(path, a, a + b);
  }

  lemma PartOfSuffix(path: string, a: nat, b: nat)
    requires a <= |path| && b <= |path[a..]| && StartsSegment(path, a) && EndsSegment(path[a..], b)
    ensures path[a..][..b] == Part(path, a, a + b)
    ensures '/' !in path[a..][..b] ==> ComponentAt(path, a, a + b)
  {
  }

  lemma UnderFromComponent(g: Glob, path: string, i: nat, sets: ClassSets) returns (a: nat)
    requires i < |Split(path)| && Matches(g, Split(path)[i], sets)
    ensures a <= |path| && StartsSegment(path, a) && AtOrUnder(g, path[a..], sets)
  {
    hide Matches, Split;
    var b;
    a, b := ListedIsComponent(path, i);
    var q := path[a..];
    assert q[..b - a] == path[a..b];
    assert EndsSegment(q, b - a) && Matches(g, q[..b - a], sets);
  }

  /** For a slash-free entry of text, `*` and `?`: some component of the path is
    * matched by the entry's own pattern.
    */
  lemma ComponentMeaning(core: string, path: string, sets: ClassSets)
    requires Wild(core) && '/' !in core && NewlineFree(path) && SlashClass(sets)
    ensures WellFormed(core)
    ensures IsIgnored(CompileAll(PatternsOf(Entry(true, core)), sets), path, sets)
       <==> exists i :: 0 <= i < |Split(path)| && Matches(Tree(core), Split(path)[i], sets)
  {
    assert core != [];
    hide *;
    CompilesWild(core, sets);
    UnanchoredMeaning(core, path, sets);
    if exists a :: 0 <= a <= |path| && StartsSegment(path, a) && AtOrUnder(Tree(core), path[a..], sets) {
      var a: nat :| a <= |path| && StartsSegment(path, a) && AtOrUnder(Tree(core), path[a..], sets);
      var i := ComponentFromUnder(core, path, a, sets);
    }
    if exists i :: 0 <= i < |Split(path)| && Matches(Tree(core), Split(path)[i], sets) {
      var i: nat :| i < |Split(path)| && Matches(Tree(core), Split(path)[i], sets);
      var a := UnderFromComponent(Tree(core), path, i, sets);
    }
  }

  /** A literal name is ignored wherever it is a component. */
  lemma LiteralNameMeaning(name: string, path: string, sets: ClassSets)
    requires Literal(name) && '/' !in name && NewlineFree(path) && SlashClass(sets)
    ensures IsIgnored(CompileAll(PatternsOf(Entry(true, name)), sets), path, sets) <==> name in Split(path)
  {
    LiteralIsWild(name);
    ComponentMeaning(name, path, sets);
    CompilesWild(name, sets);
    forall w ensures Matches(Tree(name), w, sets) <==> w == name {
      LiteralMatchesItself(name, w, sets);
    }
  }

  /** A literal anchored entry ignores itself and everything under it. */
  lemma LiteralPathMeaning(core: string, path: string, sets: ClassSets)
    requires Literal(core) && NewlineFree(path) && SlashClass(sets)
    ensures IsIgnored(CompileAll(PatternsOf(Entry(false, core)), sets), path, sets)
       <==> path == core || core + "/" <= path
  {
    LiteralIsWild(core);
    CompilesWild(core, sets);
    AnchoredMeaning(core, path, sets);
    forall w ensures Matches(Tree(core), w, sets) <==> w == core {
      LiteralMatchesItself(core, w, sets);
    }
    hide Matches, Tree, WellFormed, IsIgnored, CompileAll, PatternsOf, Literal, Wild, WildTokens;
    PrefixSlash(core, path);
    if AtOrUnder(Tree(core), path, sets) {
      var b: nat :| b <= |path| && EndsSegment(path, b) && Matches(Tree(core), path[..b], sets);
      assert path[..|path|] == path;
    }
    if path == core || core + "/" <= path {
      assert path[..|core|] == core && EndsSegment(path, |core|);
    }
  }

  lemma PrefixSlash(core: string, path: string)
    ensures core + "/" <= path <==> |core| < |path| && path[..|core|] == core && path[|core|] == '/'
    ensures path == core ==> path[..|core|] == core
  {
    if |core| < |path| && path[..|core|] == core && path[|core|] == '/' {
      assert path == path[..|core|] + "/" + path[|core| + 1..];
    }
    if core + "/" <= path {
      assert path[..|core| + 1] == core + "/";
      assert path[..|core| + 1][..|core|] == path[..|core|];
    }
  }

  // ----- a whole file

  /** What one line covers. */
  ghost predicate LineCovers(raw: string, path: string, sets: ClassSets) {
    match EntryOf(raw)
    case None => false
    case Some(e) =>
      && Compiles(e.core, sets)
      && if e.anywhere then
           exists a :: 0 <= a <= |path| && StartsSegment(path, a) && AtOrUnder(Tree(e.core), path[a..], sets)
         else AtOrUnder(Tree(e.core), path, sets)
  }

  lemma EntryHasCore(raw: string)
    requires EntryOf(raw).Some?
    ensures EntryOf(raw).value.core != []
  {
  }

  lemma LineMeaning(raw: string, path: string, sets: ClassSets)
    requires NewlineFree(path) && SlashClass(sets)
    ensures EntryOf(raw).Some? ==>
              (IsIgnored(CompileAll(PatternsOf(EntryOf(raw).value), sets), path, sets) <==> LineCovers(raw, path, sets))
  {
    hide EntryOf, IsIgnored, CompileAll, PatternsOf, Compiles, Tree, AtOrUnder;
    var entry := EntryOf(raw);
    if entry.Some? {
      var e := entry.value;
      EntryHasCore(raw);
      if e.anywhere {
        UnanchoredMeaning(e.core, path, sets);
      } else {
        AnchoredMeaning(e.core, path, sets);
      }
    }
  }

  lemma IgnoredConcat(a: seq<RAlts>, b: seq<RAlts>, path: string, sets: ClassSets)
    ensures IsIgnored(a + b, path, sets) <==> IsIgnored(a, path, sets) || IsIgnored(b, path, sets)
  {
    hide IsMatch;
    var c := a + b;
    if IsIgnored(a, path, sets) {
      var i :| 0 <= i < |a| && IsMatch(a[i], path, sets);
      assert c[i] == a[i];
    }
    if IsIgnored(b, path, sets) {
      var i :| 0 <= i < |b| && IsMatch(b[i], path, sets);
      assert c[|a| + i] == b[i];
    }
  }

  /** A path is ignored exactly when some line of the file covers it. */
  lemma {:induction false} FileMeaning(lines: seq<string>, path: string, sets: ClassSets)
    requires NewlineFree(path) && SlashClass(sets)
    ensures IsIgnored(CompileAll(LinePatterns(lines), sets), path, sets)
       <==> exists i :: 0 <= i < |lines| && LineCovers(lines[i], path, sets)
  {
    hide *;
    if lines == [] {
      EmptyFile(path, sets);
    } else {
      var n := |lines| - 1;
      FileMeaning(lines[..n], path, sets);
      LastLineMeaning(lines, path, sets);
      assert forall i :: 0 <= i < n ==> lines[..n][i] == lines[i];
    }
  }

  lemma EmptyFile(path: string, sets: ClassSets)
    ensures !IsIgnored(CompileAll(LinePatterns([]), sets), path, sets)
  {
  }

  lemma LastLineMeaning(lines: seq<string>, path: string, sets: ClassSets)
    requires lines != [] && NewlineFree(path) && SlashClass(sets)
    ensures IsIgnored(CompileAll(LinePatterns(lines), sets), path, sets)
       <==> IsIgnored(CompileAll(LinePatterns(lines[..|lines| - 1]), sets), path, sets)
            || LineCovers(lines[|lines| - 1], path, sets)
  {
    hide *;
    var n := |lines| - 1;
    var init, last := lines[..n], lines[n];
    LinePatternsSnoc(lines, n);
    assert lines[..n + 1] == lines;
    LineMeaning(last, path, sets);
    match EntryOf(last) {
      case None =>
        assert LinePatterns(init) + [] == LinePatterns(init);
        NoEntryNoCover(last, path, sets);
      case Some(e) =>
        CompileAllConcat(LinePatterns(init), PatternsOf(e), sets);
        IgnoredConcat(CompileAll(LinePatterns(init), sets), CompileAll(PatternsOf(e), sets), path, sets);
    }
  }

  lemma NoEntryNoCover(raw: string, path: string, sets: ClassSets)
    requires EntryOf(raw).None?
    ensures !LineCovers(raw, path, sets)
  {
  }
}
