/** Which patterns compile. A class whose members open another class, or take its
  * `]` with them, does not end where the glob says; nothing that is emitted after
  * it closes it either, and the regex is refused.
  */
module GlobRefused {
  import opened Basics
  import opened TextLines
  import opened GlobSyntax
  import opened GlobConcat
  import opened Regex
  import opened GlobCompile
  import opened GlobCorrect

  /** Text that makes no range with what stands before it, and closes no class
    * opened before it.
    */
  ghost predicate Deaf(k: string) {
    NoDash(k) && forall d: nat :: ClassEnd(k, d).None?
  }

  // ----- emitted text

  /** No part of a class's syntax. */
  predicate Inert(c: char) {
    c != '\\' && c != '[' && c != ']' && c != '-' && c != '&' && c != '~'
  }

  lemma ItemOfChar(c: char, k: string)
    requires NoDash(k) && Inert(c)
    ensures ItemLength([c] + k) == 1
  {
    assert ([c] + k)[1..] == k;
  }

  lemma {:induction false} DeafText(t: string, k: string)
    requires Deaf(k) && forall i :: 0 <= i < |t| ==> Inert(t[i])
    ensures Deaf(t + k)
  {
    if t == [] {
      assert t + k == k;
    } else {
      var rest := t[1..] + k;
      DeafText(t[1..], k);
      assert t + k == [t[0]] + rest && (t + k)[1..] == rest;
      ItemOfChar(t[0], rest);
    }
  }

  lemma DeafEscaped(c: char, k: string)
    requires Deaf(k) && IsMeta(c)
    ensures Deaf(['\\', c] + k)
  {
    assert (['\\', c] + k)[2..] == k;
    assert ItemLength(['\\', c] + k) == 2;
  }

  /** The members and the `]` of a class, inside of which `d` more classes are open. */
  lemma {:induction false} DeafMembers(m: string, k: string, d: nat)
    requires ']' !in m && Deaf(k) && (d > 0 || !NoneOpened(m))
    ensures ClassEnd(m + "]" + k, d).None?
    decreases |m|
  {
    var s := m + "]" + k;
    if m == [] {
      assert s[0] == ']' && s[1..] == k;
    } else if m[0] == '[' {
      NestedOpener(m, k);
      var j := 1 + OpenerLength(s[1..]);
      if j <= |m| {
        DeafMembers(m[j..], k, d + 1);
      }
    } else {
      var n := ItemLength(s);
      ItemBefore(m, k);
      assert s[0] == m[0];
      if n <= |m| {
        assert s[n..] == m[n..] + "]" + k;
        DeafMembers(m[n..], k, d);
      } else if n <= |s| {
        assert s[n..] == k;
      }
    }
  }

  /** What opens the nested class ends among the members, or takes the `]` too. */
  lemma NestedOpener(m: string, k: string)
    requires m != [] && ']' !in m
    ensures var s := m + "]" + k;
            var j := 1 + OpenerLength(s[1..]);
            if j <= |m| then s[j..] == m[j..] + "]" + k else j == |m| + 1 && s[j..] == k
  {
    var s := m + "]" + k;
    var t := m[1..] + "]";
    assert s[1..] == t + k;
    assert t[|m| - 1] == ']' && forall i :: 0 <= i < |m| - 1 ==> t[i] == m[i + 1];
    OpenerStops(t, k, |m| - 1);
    var j := 1 + OpenerLength(s[1..]);
    hide OpenerLength;
    if j <= |m| {
      assert s[j..] == m[j..] + "]" + k;
    } else {
      assert s[j..] == k;
    }
  }

  /** An opener does not go past the first `]`. */
  lemma OpenerStops(t: string, k: string, n: nat)
    requires n < |t| && t[n] == ']'
    ensures OpenerLength(t + k) <= n + 1
  {
    assert (t + k)[n] == ']';
  }

  lemma DeafClass(neg: bool, body: string, k: string)
    requires Shaped(neg, body) && Deaf(k)
    ensures Deaf("[" + Inside(neg, body) + k)
  {
    var s, inside := "[" + Inside(neg, body) + k, Inside(neg, body) + k;
    assert s[1..] == inside;
    OpenerReads(neg, body, k);
    var m := OpenerLength(inside);
    assert s[1 + m..] == inside[m..];
    hide Inside, OpenerLength, Members, Shaped;
    forall d: nat ensures ClassEnd(s, d).None? {
      DeafMembers(Members(body), k, d + 1);
    }
  }

  lemma UnclosedClass(neg: bool, body: string, k: string)
    requires Shaped(neg, body) && !NoneOpened(Members(body)) && Deaf(k)
    ensures ReadClass(Inside(neg, body) + k) == Bad
  {
    OpenerReads(neg, body, k);
    DeafMembers(Members(body), k, 0);
  }

  lemma SlashInside(k: string)
    ensures "[^/]*" + k == "[" + Inside(true, "/") + ("*" + k)
    ensures "[^/]" + k == "[" + Inside(true, "/") + k
  {
  }

  lemma {:induction false} AtomDeaf(a: Atom, k: string)
    requires AtomOk(a, Shaped) && Deaf(k)
    ensures Deaf(EmitAtom(a) + k)
    decreases a, 0
  {
    hide Deaf;
    match a
    case Star =>
      DeafText("*", k);
      SlashInside(k);
      DeafClass(true, "/", "*" + k);
    case DoubleStar => DeafText(".*", k);
    case DoubleStarSlash => DeafText("(?:.*/)?", k);
    case Quest =>
      SlashInside(k);
      DeafClass(true, "/", k);
    case Class(neg, body) =>
      DeafClass(neg, body, k);
      ClassEmits(neg, body, k);
      assert "[" + (Inside(neg, body) + k) == "[" + Inside(neg, body) + k;
    case Lit(c) =>
      if IsMeta(c) {
        DeafEscaped(c, k);
      } else {
        DeafText([c], k);
      }
    case Brace(alts) =>
      DeafText(")", k);
      AltsDeaf(alts, ")" + k);
      DeafText("(?:", EmitAlts(alts) + (")" + k));
      BraceEmits(alts, k);
  }

  lemma {:induction false} GlobDeaf(g: Glob, k: string)
    requires GlobOk(g, Shaped) && Deaf(k)
    ensures Deaf(EmitGlob(g) + k)
    decreases g, 0
  {
    match g
    case GEnd => EmitCons(Star, GEnd, k);
    case GCons(a, t) =>
      EmitCons(a, t, k);
      GlobDeaf(t, k);
      AtomDeaf(a, EmitGlob(t) + k);
  }

  lemma {:induction false} AltsDeaf(alts: Alternatives, k: string)
    requires AltsOk(alts, Shaped) && Deaf(k)
    ensures Deaf(EmitAlts(alts) + k)
    decreases alts, 0
  {
    match alts
    case One(g) => GlobDeaf(g, k);
    case More(g, rest) =>
      EmitMore(g, rest, k);
      AltsDeaf(rest, k);
      DeafText("|", EmitAlts(rest) + k);
      GlobDeaf(g, "|" + (EmitAlts(rest) + k));
  }

  // ----- reading fails

  lemma PieceFails(s: string)
    requires s != [] && s[0] != '|' && s[0] != ')' && ReadAtom(s) == Bad
    ensures ReadConcat(s) == Bad
  {
  }

  lemma LaterFails(s: string, a: RAtom, rest: string)
    requires s != [] && s[0] != '|' && s[0] != ')'
    requires ReadPiece(s) == Read(a, rest) && ReadConcat(rest) == Bad
    ensures ReadConcat(s) == Bad
  {
  }

  lemma GroupFails(s: string)
    requires |s| >= 3 && s[0] == '(' && s[1] == '?' && s[2] == ':' && ReadAlts(s[3..]) == Bad
    ensures ReadAtom(s) == Bad
  {
  }

  lemma AltsFailFirst(s: string)
    requires ReadConcat(s) == Bad
    ensures ReadAlts(s) == Bad
  {
  }

  lemma AltsFailLater(s: string, re: Re, rest: string)
    requires ReadConcat(s) == Read(re, rest) && rest != [] && rest[0] == '|' && ReadAlts(rest[1..]) == Bad
    ensures ReadAlts(s) == Bad
  {
  }

  /** Emitted atoms look like atoms, whatever their classes. */
  lemma AtomStarts(a: Atom, k: string)
    ensures StartsAtom(EmitAtom(a) + k)
  {
    match a
    case Star =>
    case DoubleStar =>
    case DoubleStarSlash =>
    case Quest =>
    case Class(neg, body) => assert EmitAtom(a)[0] == '[';
    case Lit(c) =>
    case Brace(alts) => assert EmitAtom(a)[0] == '(';
  }

  lemma GlobStarts(g: Glob, k: string)
    requires NoPostfix(k)
    ensures NoPostfix(EmitGlob(g) + k)
  {
    match g
    case GEnd => EmitCons(Star, GEnd, k);
    case GCons(a, t) =>
      EmitCons(a, t, k);
      AtomStarts(a, EmitGlob(t) + k);
  }

  lemma {:induction false} AtomFails(a: Atom, k: string)
    requires AtomOk(a, Shaped) && !AtomOk(a, ClassOk) && Deaf(k)
    ensures ReadAtom(EmitAtom(a) + k) == Bad
    decreases a, 0
  {
    match a
    case Class(neg, body) =>
      ClassEmits(neg, body, k);
      UnclosedClass(neg, body, k);
      BracketReads(Inside(neg, body) + k);
    case Brace(alts) =>
      BraceEmits(alts, k);
      DeafText(")", k);
      AltsFail(alts, ")" + k);
      GroupFails(EmitAtom(a) + k);
    case _ =>
  }

  lemma {:induction false} AltsFail(alts: Alternatives, k: string)
    requires AltsOk(alts, Shaped) && !AltsOk(alts, ClassOk) && Deaf(k) && k != [] && k[0] == ')'
    ensures ReadAlts(EmitAlts(alts) + k) == Bad
    decreases alts, 0
  {
    StopRead(k);
    match alts
    case One(g) =>
      hide ReadAlts, ReadConcat, EmitGlob, NoPostfix, Deaf;
      GlobFails(g, k);
      AltsFailFirst(EmitGlob(g) + k);
    case More(g, rest) =>
      var more := "|" + (EmitAlts(rest) + k);
      EmitMore(g, rest, k);
      StopRead(more);
      hide ReadAlts, ReadConcat, EmitGlob, EmitAlts, NoPostfix, Deaf;
      if GlobOk(g, ClassOk) {
        GlobReads(g, more, REnd, more);
        AltsFail(rest, k);
        AltsFailLater(EmitGlob(g) + more, Append(ToRe(g), REnd), more);
      } else {
        AltsDeaf(rest, k);
        DeafText("|", EmitAlts(rest) + k);
        GlobFails(g, more);
        AltsFailFirst(EmitGlob(g) + more);
      }
  }

  lemma {:induction false} GlobFails(g: Glob, k: string)
    requires GlobOk(g, Shaped) && !GlobOk(g, ClassOk) && Deaf(k) && NoPostfix(k)
    ensures ReadConcat(EmitGlob(g) + k) == Bad
    decreases g, 0
  {
    var a, t := g.head, g.tail;
    var tail := EmitGlob(t) + k;
    EmitCons(a, t, k);
    AtomStarts(a, tail);
    GlobStarts(t, k);
    hide ReadConcat, ReadPiece, ReadAtom, EmitAtom, EmitGlob, AtomOk, NoPostfix, Deaf;
    if AtomOk(a, ClassOk) {
      AtomReads(a, tail);
      GlobFails(t, k);
      LaterFails(EmitAtom(a) + tail, ToRAtom(a), tail);
    } else {
      GlobDeaf(t, k);
      AtomFails(a, tail);
      PieceFails(EmitAtom(a) + tail);
    }
  }

  lemma AnchorsFail(g: Glob)
    requires GlobOk(g, Shaped) && !GlobOk(g, ClassOk)
    ensures ReadAlts("^" + EmitGlob(g) + "$") == Bad
  {
    var text := EmitGlob(g) + "$";
    var s := "^" + text;
    assert "^" + EmitGlob(g) + "$" == s && s[1..] == text;
    DeafText("$", "");
    assert "$" + "" == "$";
    GlobFails(g, "$");
    GlobStarts(g, "$");
    PostfixReads(Caret, text);
    LaterFails(s, Caret, text);
    AltsFailFirst(s);
  }

  // ----- which patterns are accepted

  function Valid(sets: ClassSets): ClassTest {
    (neg, body) => sets.valid(body)
  }

  /** The class ends for the regex reader where the glob says, and is valid. */
  function Accepted(sets: ClassSets): ClassTest {
    (neg, body) => ClassOk(neg, body) && sets.valid(body)
  }

  /** Exactly the patterns that `Glob::new` accepts (TranslationReads). */
  predicate Compiles(pattern: string, sets: ClassSets) {
    WellFormed(pattern) && TokensOk(Lex(pattern).value, Accepted(sets))
  }

  lemma AcceptedTokens(tokens: seq<Token>, sets: ClassSets)
    ensures TokensOk(tokens, Accepted(sets)) <==> TokensOk(tokens, ClassOk) && TokensOk(tokens, Valid(sets))
  {
    forall i | 0 <= i < |tokens|
      ensures TokenOk(tokens[i], Accepted(sets)) <==> TokenOk(tokens[i], ClassOk) && TokenOk(tokens[i], Valid(sets)) {
    }
  }

  lemma {:induction false} TreeValid(g: Glob, sets: ClassSets)
    requires sets.valid("/")
    ensures ReValid(ToRe(g), sets) <==> GlobOk(g, Valid(sets))
    decreases g, 0
  {
    match g
    case GEnd =>
    case GCons(a, t) =>
      TreeValid(t, sets);
      AtomTreeValid(a, sets);
  }

  lemma {:induction false} AtomTreeValid(a: Atom, sets: ClassSets)
    requires sets.valid("/")
    ensures AtomValid(ToRAtom(a), sets) <==> AtomOk(a, Valid(sets))
    decreases a, 0
  {
    match a
    case Star => assert AtomValid(RClass(true, "/"), sets);
    case DoubleStar => assert AtomValid(Dot, sets);
    case DoubleStarSlash => SegmentsValid(sets);
    case Brace(alts) => AltsTreeValid(alts, sets);
    case _ =>
  }

  lemma SegmentsValid(sets: ClassSets)
    ensures AtomValid(ToRAtom(DoubleStarSlash), sets)
  {
    var slash := RCons(RLit('/'), REnd);
    var inner := RCons(RStar(Dot), slash);
    ConsValid(RLit('/'), REnd, sets);
    ConsValid(RStar(Dot), slash, sets);
    assert AtomValid(RLit('/'), sets) && AtomValid(Dot, sets);
    hide ReValid;
    assert AltsValid(ROne(inner), sets);
    assert AtomValid(Group(ROne(inner)), sets);
  }

  lemma ConsValid(a: RAtom, t: Re, sets: ClassSets)
    ensures ReValid(RCons(a, t), sets) <==> AtomValid(a, sets) && ReValid(t, sets)
    ensures ReValid(REnd, sets)
  {
  }

  lemma {:induction false} AltsTreeValid(alts: Alternatives, sets: ClassSets)
    requires sets.valid("/")
    ensures AltsValid(ToRAlts(alts), sets) <==> AltsOk(alts, Valid(sets))
    decreases alts, 0
  {
    match alts
    case One(g) => TreeValid(g, sets);
    case More(g, rest) =>
      TreeValid(g, sets);
      AltsTreeValid(rest, sets);
  }

  lemma {:induction false} AppendValid(a: Re, b: Re, sets: ClassSets)
    ensures ReValid(Append(a, b), sets) <==> ReValid(a, sets) && ReValid(b, sets)
  {
    match a
    case REnd =>
    case RCons(_, t) => AppendValid(t, b, sets);
  }

  lemma AnchoredValid(g: Glob, sets: ClassSets)
    requires sets.valid("/")
    ensures AltsValid(Anchored(g), sets) <==> GlobOk(g, Valid(sets))
  {
    TreeValid(g, sets);
    var end := RCons(Dollar, REnd);
    AppendValid(ToRe(g), end, sets);
    ConsValid(Dollar, REnd, sets);
    ConsValid(Caret, Append(ToRe(g), end), sets);
    hide ReValid;
  }

  /** The emitted text is a regex exactly when every class of the pattern is
    * accepted, and then it is the anchored tree of the pattern.
    */
  lemma TranslationReads(pattern: string, sets: ClassSets)
    requires WellFormed(pattern) && sets.valid("/")
    ensures ReadRegex(Translation(pattern), sets) == if Compiles(pattern, sets) then Some(Anchored(Tree(pattern))) else None
  {
    var tokens, g := Lex(pattern).value, Tree(pattern);
    BalancedParses(tokens);
    LexShapes(pattern);
    ParseKeepsOk(tokens, false, ClassOk);
    ParseKeepsOk(tokens, false, Shaped);
    ParseKeepsOk(tokens, false, Valid(sets));
    AcceptedTokens(tokens, sets);
    EmitIsTree(tokens, false, 0);
    assert Emit(tokens, 0) == EmitGlob(g);
    AnchoredValid(g, sets);
    hide EmitGlob, GlobOk, ParseSeq, TokensOk, AltsValid, ReadAlts, Anchored;
    if GlobOk(g, ClassOk) {
      AnchorsRead(g);
    } else {
      AnchorsFail(g);
    }
  }

  // ----- patterns of one class

  /** The class as a glob: `!` negates. */
  function OneClass(neg: bool, body: string): string {
    "[" + (if neg then "!" else "") + body + "]"
  }

  /** The body of a class as a glob writes it. */
  predicate Written(neg: bool, body: string) {
    body != [] && ']' !in body[1..] && (!neg ==> !Negated(body))
  }

  lemma BodyEnds(body: string)
    requires body != [] && ']' !in body[1..]
    ensures ClassBody(body + "]") == Some(|body|)
  {
    assert (body + "]")[1..] == body[1..] + "]";
    IndexOfIs((body + "]")[1..], ']', |body| - 1);
  }

  lemma OneClassParts(neg: bool, body: string)
    requires Written(neg, body)
    ensures var s, start := OneClass(neg, body), if neg then 2 else 1;
            && |s| == start + |body| + 1 && s[0] == '[' && Negated(s[1..]) == neg
            && s[start..] == body + "]" && s[start..start + |body|] == body && s[|s|..] == []
  {
    var s, start := OneClass(neg, body), if neg then 2 else 1;
    assert s[start..] == body + "]" && s[start] == body[0];
  }

  lemma OneClassLexes(neg: bool, body: string)
    requires Written(neg, body)
    ensures Lex(OneClass(neg, body)) == Some([TClass(neg, body)])
  {
    var s, t := OneClass(neg, body), TClass(neg, body);
    assert Lex([]) == Some([]);
    hide *;
    OneClassToken(neg, body);
    LexStep(s, t, |s|, []);
    assert [t] + [] == [t];
  }

  lemma OneClassToken(neg: bool, body: string)
    requires Written(neg, body)
    ensures var s := OneClass(neg, body);
            s != [] && s[|s|..] == [] && NextToken(s) == Some((TClass(neg, body), |s|))
  {
    assert body != [] && ']' !in body[1..];
    hide *;
    OneClassParts(neg, body);
    BodyEnds(body);
    ClassToken(OneClass(neg, body));
  }

  /** Any class on its own: it is a glob, and compiles exactly when no item of it
    * opens a class or takes the `]`, and its contents are valid.
    */
  lemma OneClassCompiles(neg: bool, body: string, sets: ClassSets)
    requires Written(neg, body)
    ensures WellFormed(OneClass(neg, body))
    ensures Compiles(OneClass(neg, body), sets) <==> NoneOpened(Members(body)) && sets.valid(body)
  {
    var s, t := OneClass(neg, body), TClass(neg, body);
    assert s != [] && Shaped(neg, body);
    hide NoneOpened, Members, Lex, Balanced, TokensOk, OneClass, Written, Shaped;
    OneClassLexes(neg, body);
    OneToken(t, Accepted(sets));
  }

  lemma OneToken(t: Token, ok: ClassTest)
    requires t.TClass?
    ensures Balanced([t], 0) && (TokensOk([t], ok) <==> ok(t.neg, t.body))
  {
    assert [t][0] == t && [t][1..] == [];
  }

  /** After a plain member and a dash a bracket is the end of a range. */
  lemma RangeToBracketCompiles(c: char, sets: ClassSets)
    requires c !in {'\\', '[', ']', '-', '!', '^'}
    ensures Compiles(['[', c, '-', '[', ']'], sets) <==> sets.valid([c, '-', '['])
  {
    var body := [c, '-', '['];
    assert OneClass(false, body) == ['[', c, '-', '[', ']'];
    assert body[1..] == ['-', '['];
    assert ItemLength(body) == 3 && body[3..] == [];
    OneClassCompiles(false, body, sets);
  }

  /** After a plain member alone it opens a class. */
  lemma BracketMemberIsRefused(c: char, sets: ClassSets)
    requires c !in {'\\', '[', ']', '-', '!', '^'}
    ensures WellFormed(['[', c, '[', ']']) && !Compiles(['[', c, '[', ']'], sets)
  {
    var body := [c, '['];
    assert OneClass(false, body) == ['[', c, '[', ']'];
    assert body[1..] == ['['];
    assert ItemLength(body) == 1;
    OneClassCompiles(false, body, sets);
  }
}
