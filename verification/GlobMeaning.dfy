/** The regex of a glob matches what the glob matches. */
module GlobMeaning {
  import opened Basics
  import opened GlobSyntax
  import opened Regex
  import opened GlobCompile
  import opened GlobCorrect
  import opened GlobRefused

  /** A class that names one slash is valid and holds exactly the slash. */
  ghost predicate SlashClass(sets: ClassSets) {
    sets.valid("/") && forall c :: sets.names("/", c) <==> c == '/'
  }

  predicate NewlineFree(s: string) {
    '\n' !in s
  }

  lemma {:induction false} SegmentStar(s: string, i: nat, j: nat, sets: ClassSets)
    requires i <= j <= |s| && SlashClass(sets)
    ensures MatchStar(RClass(true, "/"), s, i, j, sets) <==> '/' !in s[i..j]
    decreases j - i
  {
    if i < j {
      SegmentStar(s, i + 1, j, sets);
      assert s[i..j] == [s[i]] + s[i + 1..j];
      assert MatchAtom(RClass(true, "/"), s, i, i + 1, sets) <==> s[i] != '/';
    }
  }

  lemma {:induction false} DotStar(s: string, i: nat, j: nat, sets: ClassSets)
    requires i <= j <= |s| && NewlineFree(s)
    ensures MatchStar(Dot, s, i, j, sets)
    decreases j - i
  {
    if i < j {
      DotStar(s, i + 1, j, sets);
      assert MatchAtom(Dot, s, i, i + 1, sets);
    }
  }

  lemma SegmentsMeaning(s: string, i: nat, j: nat, sets: ClassSets)
    requires i <= j <= |s| && NewlineFree(s)
    ensures MatchAtom(ToRAtom(DoubleStarSlash), s, i, j, sets) <==> AtomMatches(DoubleStarSlash, s[i..j], sets)
  {
    var slash := RCons(RLit('/'), REnd);
    var inner := RCons(RStar(Dot), slash);
    assert MatchAtom(Group(ROne(inner)), s, i, j, sets) <==> MatchRe(inner, s, i, j, sets);
    forall k | i <= k <= j ensures MatchRe(slash, s, k, j, sets) <==> k + 1 == j && s[k] == '/' {
      if k + 1 == j && s[k] == '/' {
        assert MatchAtom(RLit('/'), s, k, j, sets) && MatchRe(REnd, s, j, j, sets);
      }
    }
    assert MatchRe(inner, s, i, j, sets)
      <==> exists k :: i <= k <= j && MatchAtom(RStar(Dot), s, i, k, sets) && MatchRe(slash, s, k, j, sets);
    if i < j {
      DotStar(s, i, j - 1, sets);
      assert MatchAtom(RStar(Dot), s, i, j - 1, sets);
      assert s[i..j][|s[i..j]| - 1] == s[j - 1];
    }
  }

  lemma {:induction false} AtomMeaning(a: Atom, s: string, i: nat, j: nat, sets: ClassSets)
    requires i <= j <= |s| && NewlineFree(s) && SlashClass(sets)
    ensures MatchAtom(ToRAtom(a), s, i, j, sets) <==> AtomMatches(a, s[i..j], sets)
    decreases a, 0
  {
    match a
    case Star => SegmentStar(s, i, j, sets);
    case DoubleStar => DotStar(s, i, j, sets);
    case DoubleStarSlash => SegmentsMeaning(s, i, j, sets);
    case Quest =>
    case Class(neg, body) =>
    case Lit(c) =>
    case Brace(alts) => AltsMeaning(alts, s, i, j, sets);
  }

  lemma {:induction false} AltsMeaning(alts: Alternatives, s: string, i: nat, j: nat, sets: ClassSets)
    requires i <= j <= |s| && NewlineFree(s) && SlashClass(sets)
    ensures MatchAlts(ToRAlts(alts), s, i, j, sets) <==> AltsMatch(alts, s[i..j], sets)
    decreases alts, 0
  {
    match alts
    case One(g) => GlobMeaning(g, s, i, j, sets);
    case More(g, rest) =>
      GlobMeaning(g, s, i, j, sets);
      AltsMeaning(rest, s, i, j, sets);
  }

  lemma {:induction false} GlobMeaning(g: Glob, s: string, i: nat, j: nat, sets: ClassSets)
    requires i <= j <= |s| && NewlineFree(s) && SlashClass(sets)
    ensures MatchRe(ToRe(g), s, i, j, sets) <==> Matches(g, s[i..j], sets)
    decreases g, 1
  {
    if g.GCons? {
      hide Matches, MatchRe;
      ConsMeaning(g, s, i, j, sets);
    }
  }

  lemma {:induction false} ConsMeaning(g: Glob, s: string, i: nat, j: nat, sets: ClassSets)
    requires i <= j <= |s| && NewlineFree(s) && SlashClass(sets) && g.GCons?
    ensures MatchRe(RCons(ToRAtom(g.head), ToRe(g.tail)), s, i, j, sets) <==> Matches(g, s[i..j], sets)
    decreases g, 0
  {
    hide *;
    var re := RCons(ToRAtom(g.head), ToRe(g.tail));
    if MatchRe(re, s, i, j, sets) {
      var k := SplitAt(re, s, i, j, sets);
      AtomMeaning(g.head, s, i, k, sets);
      GlobMeaning(g.tail, s, k, j, sets);
      Halves(s, i, k, j);
      GlobJoinAt(g, s[i..j], k - i, sets);
    }
    if Matches(g, s[i..j], sets) {
      var k := GlobSplitAt(g, s[i..j], sets);
      AtomMeaning(g.head, s, i, i + k, sets);
      GlobMeaning(g.tail, s, i + k, j, sets);
      Halves(s, i, i + k, j);
      JoinAt(re, s, i, i + k, j, sets);
    }
  }

  lemma Halves(s: string, i: nat, k: nat, j: nat)
    requires i <= k <= j <= |s|
    ensures s[i..j][..k - i] == s[i..k] && s[i..j][k - i..] == s[k..j]
  {
  }

  lemma GlobSplitAt(g: Glob, p: string, sets: ClassSets) returns (k: nat)
    requires g.GCons? && Matches(g, p, sets)
    ensures k <= |p| && AtomMatches(g.head, p[..k], sets) && Matches(g.tail, p[k..], sets)
  {
    k :| 0 <= k <= |p| && AtomMatches(g.head, p[..k], sets) && Matches(g.tail, p[k..], sets);
  }

  lemma GlobJoinAt(g: Glob, p: string, k: nat, sets: ClassSets)
    requires g.GCons? && k <= |p|
    requires AtomMatches(g.head, p[..k], sets) && Matches(g.tail, p[k..], sets)
    ensures Matches(g, p, sets)
  {
  }

  /** Where a concatenation is split. */
  lemma SplitAt(re: Re, s: string, i: nat, j: nat, sets: ClassSets) returns (k: nat)
    requires i <= j <= |s| && re.RCons? && MatchRe(re, s, i, j, sets)
    ensures i <= k <= j && MatchAtom(re.head, s, i, k, sets) && MatchRe(re.tail, s, k, j, sets)
  {
    k :| i <= k <= j && MatchAtom(re.head, s, i, k, sets) && MatchRe(re.tail, s, k, j, sets);
  }

  lemma JoinAt(re: Re, s: string, i: nat, k: nat, j: nat, sets: ClassSets)
    requires i <= k <= j <= |s| && re.RCons?
    requires MatchAtom(re.head, s, i, k, sets) && MatchRe(re.tail, s, k, j, sets)
    ensures MatchRe(re, s, i, j, sets)
  {
  }

  // ----- the anchors

  lemma {:induction false} AppendMatches(x: Re, y: Re, s: string, i: nat, j: nat, sets: ClassSets)
    requires i <= j <= |s|
    ensures MatchRe(Append(x, y), s, i, j, sets)
       <==> exists k :: i <= k <= j && MatchRe(x, s, i, k, sets) && MatchRe(y, s, k, j, sets)
    decreases x
  {
    match x
    case REnd =>
      if MatchRe(y, s, i, j, sets) {
        assert MatchRe(x, s, i, i, sets);
      }
    case RCons(a, t) =>
      assert Append(x, y) == RCons(a, Append(t, y));
      hide *;
      if MatchRe(Append(x, y), s, i, j, sets) {
        var m := SplitAt(Append(x, y), s, i, j, sets);
        AppendMatches(t, y, s, m, j, sets);
        var k: nat :| m <= k <= j && MatchRe(t, s, m, k, sets) && MatchRe(y, s, k, j, sets);
        JoinAt(x, s, i, m, k, sets);
      }
      if exists k :: i <= k <= j && MatchRe(x, s, i, k, sets) && MatchRe(y, s, k, j, sets) {
        var k: nat :| i <= k <= j && MatchRe(x, s, i, k, sets) && MatchRe(y, s, k, j, sets);
        var m := SplitAt(x, s, i, k, sets);
        AppendMatches(t, y, s, m, j, sets);
        assert m <= k <= j && MatchRe(t, s, m, k, sets) && MatchRe(y, s, k, j, sets);
        JoinAt(Append(x, y), s, i, m, j, sets);
      }
  }

  lemma DollarMatches(s: string, k: nat, j: nat, sets: ClassSets)
    requires k <= j <= |s|
    ensures MatchRe(RCons(Dollar, REnd), s, k, j, sets) <==> k == j == |s|
  {
    if k == j == |s| {
      assert MatchAtom(Dollar, s, k, j, sets) && MatchRe(REnd, s, j, j, sets);
    }
  }

  /** Between the anchors only the whole of `s` can be matched. */
  lemma AnchoredMatchesAll(g: Glob, s: string, sets: ClassSets)
    ensures IsMatch(Anchored(g), s, sets) <==> MatchRe(ToRe(g), s, 0, |s|, sets)
  {
    var tail := RCons(Dollar, REnd);
    var body := Append(ToRe(g), tail);
    var re := RCons(Caret, body);
    if IsMatch(Anchored(g), s, sets) {
      var i, j :| 0 <= i <= j <= |s| && MatchAlts(Anchored(g), s, i, j, sets);
      assert MatchRe(re, s, i, j, sets);
      var m := SplitAt(re, s, i, j, sets);
      AppendMatches(ToRe(g), tail, s, m, j, sets);
      var k: nat :| m <= k <= j && MatchRe(ToRe(g), s, m, k, sets) && MatchRe(tail, s, k, j, sets);
      DollarMatches(s, k, j, sets);
    }
    if MatchRe(ToRe(g), s, 0, |s|, sets) {
      DollarMatches(s, |s|, |s|, sets);
      AppendMatches(ToRe(g), tail, s, 0, |s|, sets);
      JoinAt(re, s, 0, 0, |s|, sets);
      assert MatchAlts(Anchored(g), s, 0, |s|, sets);
    }
  }

  // ----- the theorem

  /** `Glob::new` followed by `is_match`: none when the pattern is refused. */
  ghost function GlobIsMatch(pattern: string, path: string, sets: ClassSets): Option<bool> {
    if !WellFormed(pattern) then None
    else match ReadRegex(Translation(pattern), sets)
      case None => None
      case Some(re) => Some(IsMatch(re, path, sets))
  }

  /** A pattern is refused, or the compiled glob matches a path exactly when the
    * glob's own meaning does.
    */
  lemma TranslationPreservesMeaning(pattern: string, path: string, sets: ClassSets)
    requires NewlineFree(path) && SlashClass(sets)
    ensures GlobIsMatch(pattern, path, sets)
         == if Compiles(pattern, sets) then Some(Matches(Tree(pattern), path, sets)) else None
  {
    if WellFormed(pattern) {
      TranslationReads(pattern, sets);
      hide ReadRegex, Matches, Tree, Compiles, Translation, Anchored;
      AnchoredMatchesAll(Tree(pattern), path, sets);
      GlobMeaning(Tree(pattern), path, 0, |path|, sets);
      assert path[0..|path|] == path;
    }
  }
}
