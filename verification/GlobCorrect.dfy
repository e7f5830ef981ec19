/** The emitted text, read as a regex, is the tree of the pattern, as long as its
  * classes end for the regex reader where they end for the glob.
  */
module GlobCorrect {
  import opened Basics
  import opened TextLines
  import opened GlobSyntax
  import opened Regex
  import opened GlobCompile

  // ----- the emitted text, by tree

  function EmitGlob(g: Glob): string {
    match g
    case GEnd => ""
    case GCons(a, rest) => EmitAtom(a) + EmitGlob(rest)
  }

  function EmitAtom(a: Atom): string {
    match a
    case Star => "[^/]*"
    case DoubleStar => ".*"
    case DoubleStarSlash => "(?:.*/)?"
    case Quest => "[^/]"
    case Class(neg, body) => (if neg then "[^" else "[") + body + "]"
    case Lit(c) => Escape(c)
    case Brace(alts) => "(?:" + EmitAlts(alts) + ")"
  }

  function EmitAlts(alts: Alternatives): string {
    match alts
    case One(g) => EmitGlob(g)
    case More(g, rest) => EmitGlob(g) + "|" + EmitAlts(rest)
  }

  lemma OpenAssoc(x: string, y: string, z: string)
    ensures "(?:" + (x + ")" + (y + z)) == "(?:" + x + ")" + y + z
  {
  }

  lemma Assoc(x: string, y: string, z: string)
    ensures x + (y + z) == x + y + z
  {
  }

  lemma {:induction false} EmitIsTree(tokens: seq<Token>, inBrace: bool, depth: nat)
    requires (inBrace <==> depth > 0) && Balanced(tokens, depth)
    ensures var r := ParseSeq(tokens, inBrace);
            r.Parsed? && Balanced(r.rest, depth)
            && Emit(tokens, depth) == EmitGlob(r.value) + Emit(r.rest, depth)
    decreases |tokens|, 0
  {
    ParseKeepsBalance(tokens, inBrace, depth);
    hide SimpleAtom, EmitAtom;
    if tokens == [] {
    } else if inBrace && (tokens[0].TClose? || tokens[0].TComma?) {
    } else if tokens[0].TOpen? {
      AltsEmit(tokens[1..], depth + 1);
      var alts := ParseAlts(tokens[1..]);
      EmitIsTree(alts.rest, inBrace, depth);
      var g := ParseSeq(alts.rest, inBrace);
      OpenAssoc(EmitAlts(alts.value), EmitGlob(g.value), Emit(g.rest, depth));
      BraceText(alts.value);
    } else {
      var t := tokens[0];
      SimpleText(t, depth);
      EmitIsTree(tokens[1..], inBrace, depth);
      hide EmitToken;
      var g := ParseSeq(tokens[1..], inBrace);
      Assoc(EmitToken(t, depth), EmitGlob(g.value), Emit(g.rest, depth));
    }
  }

  lemma BraceText(alts: Alternatives)
    ensures EmitAtom(Brace(alts)) == "(?:" + EmitAlts(alts) + ")"
  {
  }

  lemma SimpleText(t: Token, depth: nat)
    requires !t.TOpen? && !t.TClose? && (t.TComma? ==> depth == 0)
    ensures EmitToken(t, depth) == EmitAtom(SimpleAtom(t))
  {
    if t.TClass? {
      ClassText(t.neg, t.body);
    }
  }

  /** What ends an alternative. */
  lemma EmitDelimiter(tokens: seq<Token>, depth: nat)
    requires depth > 0 && Balanced(tokens, depth) && tokens != [] && (tokens[0].TClose? || tokens[0].TComma?)
    ensures Emit(tokens, depth)
         == if tokens[0].TClose? then ")" + Emit(tokens[1..], depth - 1) else "|" + Emit(tokens[1..], depth)
  {
  }

  lemma {:induction false} AltsEmit(tokens: seq<Token>, depth: nat)
    requires depth > 0 && Balanced(tokens, depth)
    ensures var r := ParseAlts(tokens);
            r.Parsed? && Balanced(r.rest, depth - 1)
            && Emit(tokens, depth) == EmitAlts(r.value) + ")" + Emit(r.rest, depth - 1)
    decreases |tokens|, 1
  {
    hide EmitGlob, EmitToken, EmitAtom;
    AltsKeepBalance(tokens, depth);
    EmitIsTree(tokens, true, depth);
    var g := ParseSeq(tokens, true);
    if g.rest[0].TClose? {
      EmitDelimiter(g.rest, depth);
      Assoc(EmitGlob(g.value), ")", Emit(g.rest[1..], depth - 1));
    } else {
      AltsEmit(g.rest[1..], depth);
      var more := ParseAlts(g.rest[1..]);
      EmitDelimiter(g.rest, depth);
      BarAssoc(EmitGlob(g.value), EmitAlts(more.value), Emit(more.rest, depth - 1));
    }
  }

  lemma BarAssoc(x: string, y: string, z: string)
    ensures x + ("|" + (y + ")" + z)) == x + "|" + y + ")" + z
  {
  }

  // ----- classes that end for the regex reader where they end for the glob

  /** No item starts with a `[`, and the last one does not take what comes next. */
  predicate NoneOpened(members: string)
    decreases |members|
  {
    members == [] || (
      && members[0] != '['
      && var n := ItemLength(members);
         n <= |members| && NoneOpened(members[n..]))
  }

  /** A class body without the `]` it may start with. */
  function Members(body: string): string {
    if body != [] && body[0] == ']' then body[1..] else body
  }

  /** What a class token looks like. */
  predicate Shaped(neg: bool, body: string) {
    body != [] && ']' !in body[1..] && (!neg ==> body[0] != '^')
  }

  /** The code passes class contents through unread; this one ends at its own `]`. */
  predicate ClassOk(neg: bool, body: string) {
    Shaped(neg, body) && NoneOpened(Members(body))
  }

  type ClassTest = (bool, string) -> bool

  predicate TokenOk(t: Token, ok: ClassTest) {
    t.TClass? ==> ok(t.neg, t.body)
  }

  predicate TokensOk(tokens: seq<Token>, ok: ClassTest) {
    forall i :: 0 <= i < |tokens| ==> TokenOk(tokens[i], ok)
  }

  /** All classes of a tree pass the test. */
  predicate GlobOk(g: Glob, ok: ClassTest) {
    g.GCons? ==> AtomOk(g.head, ok) && GlobOk(g.tail, ok)
  }

  predicate AtomOk(a: Atom, ok: ClassTest) {
    match a
    case Class(neg, body) => ok(neg, body)
    case Brace(alts) => AltsOk(alts, ok)
    case _ => true
  }

  predicate AltsOk(alts: Alternatives, ok: ClassTest) {
    match alts
    case One(g) => GlobOk(g, ok)
    case More(g, rest) => GlobOk(g, ok) && AltsOk(rest, ok)
  }

  lemma ClassTokenShape(s: string)
    requires s != [] && NextToken(s).Some? && NextToken(s).value.0.TClass?
    ensures var t := NextToken(s).value.0; Shaped(t.neg, t.body)
  {
    var neg := Negated(s[1..]);
    var start := if neg then 2 else 1;
    var n := ClassBody(s[start..]).value;
    var body := s[start..start + n];
    assert body == s[start..][..n];
    assert body[1..] == s[start..][1..n];
  }

  lemma {:induction false} LexShapes(s: string)
    requires Lex(s).Some?
    ensures TokensOk(Lex(s).value, Shaped)
    decreases |s|
  {
    if s != [] {
      var t, n := NextToken(s).value.0, NextToken(s).value.1;
      LexShapes(s[n..]);
      if t.TClass? {
        ClassTokenShape(s);
      }
      assert Lex(s).value == [t] + Lex(s[n..]).value;
    }
  }

  lemma TokensStep(tokens: seq<Token>, ok: ClassTest)
    requires tokens != []
    ensures TokensOk(tokens, ok) <==> TokenOk(tokens[0], ok) && TokensOk(tokens[1..], ok)
  {
    hide TokenOk;
    assert forall i :: 0 <= i < |tokens| - 1 ==> tokens[1..][i] == tokens[i + 1];
  }

  /** The classes of the tree are those of the tokens. */
  lemma {:induction false} ParseKeepsOk(tokens: seq<Token>, inBrace: bool, ok: ClassTest)
    ensures var r := ParseSeq(tokens, inBrace);
            r.Parsed? ==> (TokensOk(tokens, ok) <==> GlobOk(r.value, ok) && TokensOk(r.rest, ok))
    decreases |tokens|, 0
  {
    if tokens != [] {
      TokensStep(tokens, ok);
      hide TokensOk;
      if inBrace && (tokens[0].TClose? || tokens[0].TComma?) {
      } else if tokens[0].TClose? {
      } else if tokens[0].TOpen? {
        AltsKeepOk(tokens[1..], ok);
        var alts := ParseAlts(tokens[1..]);
        if alts.Parsed? {
          ParseKeepsOk(alts.rest, inBrace, ok);
        }
      } else {
        ParseKeepsOk(tokens[1..], inBrace, ok);
      }
    }
  }

  lemma {:induction false} AltsKeepOk(tokens: seq<Token>, ok: ClassTest)
    ensures var r := ParseAlts(tokens);
            r.Parsed? ==> (TokensOk(tokens, ok) <==> AltsOk(r.value, ok) && TokensOk(r.rest, ok))
    decreases |tokens|, 1
  {
    ParseKeepsOk(tokens, true, ok);
    var g := ParseSeq(tokens, true);
    if g.Parsed? && g.rest != [] {
      TokensStep(g.rest, ok);
      hide TokensOk;
      if !g.rest[0].TClose? {
        AltsKeepOk(g.rest[1..], ok);
      }
    }
  }

  // ----- the regex the text is read as

  function ToRe(g: Glob): Re {
    match g
    case GEnd => REnd
    case GCons(a, rest) => RCons(ToRAtom(a), ToRe(rest))
  }

  function ToRAtom(a: Atom): RAtom {
    match a
    case Star => RStar(RClass(true, "/"))
    case DoubleStar => RStar(Dot)
    case DoubleStarSlash => ROpt(Group(ROne(RCons(RStar(Dot), RCons(RLit('/'), REnd)))))
    case Quest => RClass(true, "/")
    case Class(neg, body) => RClass(neg, body)
    case Lit(c) => RLit(c)
    case Brace(alts) => Group(ToRAlts(alts))
  }

  function ToRAlts(alts: Alternatives): RAlts {
    match alts
    case One(g) => ROne(ToRe(g))
    case More(g, rest) => RMore(ToRe(g), ToRAlts(rest))
  }

  /** `k` does not continue a repetition. */
  predicate NoPostfix(k: string) {
    k == [] || !IsPostfix(k[0])
  }

  /** A text that starts an atom. */
  predicate StartsAtom(s: string) {
    s != [] && s[0] != '|' && s[0] != ')' && !IsPostfix(s[0])
  }

  predicate NoDash(k: string) {
    k == [] || k[0] != '-'
  }

  lemma IndexOfBefore(s: string, rest: string, c: char)
    ensures IndexOf(s, c) < |s| ==> IndexOf(s + rest, c) == IndexOf(s, c)
    ensures IndexOf(s, c) == |s| ==> IndexOf(s + rest, c) >= |s|
  {
    var n := IndexOf(s, c);
    assert forall i :: 0 <= i < |s| ==> (s + rest)[i] == s[i];
    if n < |s| {
      IndexOfIs(s + rest, c, n);
    }
  }

  lemma BracketNames()
    ensures !IsNamed(']') && forall c :: NameLength(c) > 0
  {
  }

  /** A name that goes on beyond the members has a `]` in it. */
  lemma EscapeBefore(m: string, k: string)
    requires m != [] && ']' !in m
    ensures var n, s := EscapeLength(m), m + "]" + k;
            if n <= |m| then EscapeLength(s) == n
            else EscapeLength(s) > |s| || (|m| == 1 && EscapeLength(s) == 2)
  {
    hide PlainName, IsNamed, NameLength, IndexOf;
    var s := m + "]" + k;
    assert s[|m|] == ']' && forall i :: 0 <= i < |m| ==> s[i] == m[i];
    assert |m| == 1 ==> !IsNamed(s[1]) by { BracketNames(); }
    if |m| > 1 && IsNamed(m[1]) {
      if |m| > 2 && m[2] == '{' {
        assert s[3..] == m[3..] + ("]" + k);
        IndexOfBefore(m[3..], "]" + k, '}');
        SameName(m, k, 4 + IndexOf(s[3..], '}'));
      } else {
        SameName(m, k, 2 + NameLength(m[1]));
      }
    }
  }

  lemma SameName(m: string, k: string, n: nat)
    requires 2 <= |m| && 2 <= n
    ensures var s := m + "]" + k;
            && (n <= |m| ==> s[2..n] == m[2..n])
            && (|m| < n <= |s| ==> !PlainName(s[2..n]))
  {
    var s := m + "]" + k;
    if |m| < n <= |s| {
      assert s[2..n][|m| - 2] == ']';
    }
  }

  lemma PointBefore(m: string, k: string)
    requires m != [] && ']' !in m
    ensures var n, s := PointLength(m), m + "]" + k;
            if n <= |m| then PointLength(s) == n
            else PointLength(s) > |s| || PointLength(s) == |m| + 1
  {
    hide EscapeLength;
    EscapeBefore(m, k);
    assert (m + "]" + k)[0] == m[0];
  }

  /** Items among the members are the same in front of the `]`; an item that is cut
    * off there takes the `]` and no more, or is none at all.
    */
  lemma ItemBefore(m: string, k: string)
    requires m != [] && ']' !in m
    ensures var n, s := ItemLength(m), m + "]" + k;
            if n <= |m| then ItemLength(s) == n
            else NoDash(k) ==> ItemLength(s) > |s| || ItemLength(s) == |m| + 1
  {
    var s, n := m + "]" + k, PointLength(m);
    assert s[|m|] == ']' && forall i :: 0 <= i < |m| ==> s[i] == m[i];
    PointBefore(m, k);
    hide PointLength;
    assert IsOperator(s) == IsOperator(m);
    if !IsOperator(m) {
      if n > |m| {
        assert s[|m| + 1..] == k;
      } else if n == |m| {
        assert s[n..] == "]" + k;
      } else {
        assert s[n..] == m[n..] + "]" + k;
        RangeBefore(m[n..], k);
        assert m[n + 1..] == m[n..][1..] && s[n + 1..] == s[n..][1..];
      }
      hide RangeGoesOn, IsOperator;
    }
  }

  lemma RangeBefore(t: string, k: string)
    requires t != [] && ']' !in t
    ensures var s := t + "]" + k;
            && RangeGoesOn(s) == RangeGoesOn(t)
            && (RangeGoesOn(t) ==>
                  var n := PointLength(t[1..]);
                  if n <= |t| - 1 then PointLength(s[1..]) == n
                  else PointLength(s[1..]) > |s| - 1 || PointLength(s[1..]) == |t|)
  {
    var s := t + "]" + k;
    assert s[0] == t[0] && s[1] == if |t| == 1 then ']' else t[1];
    if RangeGoesOn(t) {
      assert s[1..] == t[1..] + "]" + k;
      hide PointLength;
      PointBefore(t[1..], k);
    }
  }

  lemma {:induction false} MembersEnd(members: string, k: string)
    requires ']' !in members && NoneOpened(members)
    ensures ClassEnd(members + "]" + k, 0) == Some(|members|)
    decreases |members|
  {
    var s := members + "]" + k;
    hide ItemLength;
    if members == [] {
      assert s[0] == ']';
    } else {
      var n := ItemLength(members);
      ItemBefore(members, k);
      assert s[0] == members[0] && s[n..] == members[n..] + "]" + k && members[0] in members;
      ItemEnds(s, 0);
      hide ClassEnd, NoneOpened;
      assert ']' !in members[n..];
      MembersEnd(members[n..], k);
    }
  }

  lemma ItemEnds(s: string, depth: nat)
    requires s != [] && s[0] != '[' && s[0] != ']'
    ensures var n := ItemLength(s);
            ClassEnd(s, depth) == if n > |s| then None else Further(n, ClassEnd(s[n..], depth))
  {
    hide ItemLength;
  }

  /** A class's text after its `[`. */
  function Inside(neg: bool, body: string): string {
    (if neg then "^" else "") + body + "]"
  }

  /** After the opener come the members. */
  lemma OpenerReads(neg: bool, body: string, k: string)
    requires Shaped(neg, body)
    ensures var s, m := Inside(neg, body) + k, OpenerLength(Inside(neg, body) + k);
            && m == (if neg then 1 else 0) + |body| - |Members(body)|
            && s[m..] == Members(body) + "]" + k
            && ']' !in Members(body)
  {
    var s, start := Inside(neg, body) + k, if neg then 1 else 0;
    assert s[start..] == body + "]" + k;
    assert s[start] == body[0];
    assert body[0] == ']' ==> s[start + 1..] == body[1..] + "]" + k;
  }

  lemma ClassReads(neg: bool, body: string, k: string)
    requires ClassOk(neg, body)
    ensures ReadClass(Inside(neg, body) + k) == Read(RClass(neg, body), k)
  {
    var s, start := Inside(neg, body) + k, if neg then 1 else 0;
    InsideParts(neg, body, k);
    assert NoneOpened(Members(body)) && Shaped(neg, body);
    hide *;
    OpenerReads(neg, body, k);
    MembersEnd(Members(body), k);
    ClassStep(s, |Members(body)|);
  }

  lemma InsideParts(neg: bool, body: string, k: string)
    requires Shaped(neg, body)
    ensures var s, start := Inside(neg, body) + k, if neg then 1 else 0;
            && |s| == start + |body| + 1 + |k| && (s[0] == '^') == neg
            && s[start..start + |body|] == body && s[start + |body| + 1..] == k
  {
    var s, start := Inside(neg, body) + k, if neg then 1 else 0;
    assert s[start] == body[0];
  }

  lemma ClassStep(s: string, n: nat)
    requires s != [] && ClassEnd(s[OpenerLength(s)..], 0) == Some(n)
    ensures var neg, k := s[0] == '^', OpenerLength(s);
            var start := if neg then 1 else 0;
            start <= k + n < |s| && ReadClass(s) == Read(RClass(neg, s[start..k + n]), s[k + n + 1..])
  {
    hide ClassEnd;
  }

  lemma PostfixReads(a: RAtom, k: string)
    requires NoPostfix(k)
    ensures ReadPostfix(a, k) == Read(a, k)
    ensures ReadPostfix(a, "*" + k) == Read(RStar(a), k)
    ensures ReadPostfix(a, "?" + k) == Read(ROpt(a), k)
  {
    assert ("*" + k)[1..] == k && ("?" + k)[1..] == k;
    assert SkipLazy(k) == k;
    assert ReadPostfix(RStar(a), k) == Read(RStar(a), k);
    assert ReadPostfix(ROpt(a), k) == Read(ROpt(a), k);
  }

  lemma SlashClassReads(k: string)
    ensures ReadAtom("[^/]" + k) == Read(RClass(true, "/"), k)
  {
    assert ("[^/]" + k)[1..] == Inside(true, "/") + k;
    assert "/"[1..] == "";
    ClassReads(true, "/", k);
  }

  lemma StarReads(k: string)
    requires NoPostfix(k)
    ensures ReadPiece("[^/]*" + k) == Read(RStar(RClass(true, "/")), k)
  {
    assert "[^/]*" + k == "[^/]" + ("*" + k);
    SlashClassReads("*" + k);
    PostfixReads(RClass(true, "/"), k);
  }

  lemma DotStarReads(k: string)
    requires NoPostfix(k)
    ensures ReadPiece(".*" + k) == Read(RStar(Dot), k)
  {
    assert (".*" + k)[1..] == "*" + k;
    PostfixReads(Dot, k);
  }

  lemma ConcatStep(s: string, a: RAtom, rest: string, re: Re, end: string)
    requires s != [] && s[0] != '|' && s[0] != ')'
    requires ReadPiece(s) == Read(a, rest) && ReadConcat(rest) == Read(re, end)
    ensures ReadConcat(s) == Read(RCons(a, re), end)
  {
  }

  lemma SlashReads(u: string)
    requires u != [] && u[0] == ')'
    ensures ReadConcat("/" + u) == Read(RCons(RLit('/'), REnd), u)
  {
    LitReads('/', u);
    ConcatStep("/" + u, RLit('/'), u, REnd, u);
  }

  /** The inside of the `**` `/` group, up to its closing parenthesis. */
  lemma SegmentsInside(u: string)
    requires u != [] && u[0] == ')'
    ensures ReadAlts(".*/" + u) == Read(ROne(RCons(RStar(Dot), RCons(RLit('/'), REnd))), u)
  {
    var s, t := ".*" + ("/" + u), "/" + u;
    assert ".*/" + u == s;
    DotStarReads(t);
    SlashReads(u);
    hide ReadPiece;
    ConcatStep(s, RStar(Dot), t, RCons(RLit('/'), REnd), u);
  }

  lemma SegmentsRead(k: string)
    requires NoPostfix(k)
    ensures ReadPiece("(?:.*/)?" + k) == Read(ToRAtom(DoubleStarSlash), k)
  {
    var s := "(?:.*/)?" + k;
    assert s[3..] == ".*/" + (")" + ("?" + k));
    SegmentsInside(")" + ("?" + k));
    GroupReads(s, ROne(RCons(RStar(Dot), RCons(RLit('/'), REnd))), "?" + k);
    PostfixReads(Group(ROne(RCons(RStar(Dot), RCons(RLit('/'), REnd)))), k);
  }

  lemma GroupReads(s: string, alts: RAlts, rest: string)
    requires |s| >= 3 && s[0] == '(' && s[1] == '?' && s[2] == ':'
    requires ReadAlts(s[3..]) == Read(alts, ")" + rest)
    ensures ReadAtom(s) == Read(Group(alts), rest)
  {
    assert (")" + rest)[1..] == rest;
  }

  lemma ClassAtomReads(neg: bool, body: string, k: string)
    requires ClassOk(neg, body) && NoPostfix(k)
    ensures ReadPiece(EmitAtom(Class(neg, body)) + k) == Read(RClass(neg, body), k)
  {
    var inside := Inside(neg, body) + k;
    ClassEmits(neg, body, k);
    hide *;
    ClassReads(neg, body, k);
    BracketReads(inside);
    PostfixReads(RClass(neg, body), k);
    PieceStep("[" + inside, RClass(neg, body), k);
  }

  lemma ClassEmits(neg: bool, body: string, k: string)
    ensures EmitAtom(Class(neg, body)) + k == "[" + (Inside(neg, body) + k)
  {
  }

  lemma PieceStep(s: string, a: RAtom, rest: string)
    requires s != [] && ReadAtom(s) == Read(a, rest)
    ensures ReadPiece(s) == ReadPostfix(a, rest)
  {
    hide ReadAtom, ReadPostfix;
  }

  lemma BracketReads(inside: string)
    ensures ReadAtom("[" + inside) == ReadClass(inside)
  {
    hide ReadClass;
    assert ("[" + inside)[1..] == inside;
  }

  lemma LitReads(c: char, k: string)
    requires NoPostfix(k)
    ensures StartsAtom(Escape(c) + k)
    ensures ReadPiece(Escape(c) + k) == Read(RLit(c), k)
  {
    var s := Escape(c) + k;
    if IsMeta(c) {
      assert s[2..] == k;
    } else {
      assert s[1..] == k;
    }
    assert ReadAtom(s) == Read(RLit(c), k);
    PostfixReads(RLit(c), k);
  }

  /** What one atom emits is read back as that atom, and nothing after it. */
  lemma {:induction false} AtomReads(a: Atom, k: string)
    requires AtomOk(a, ClassOk) && NoPostfix(k)
    ensures StartsAtom(EmitAtom(a) + k)
    ensures ReadPiece(EmitAtom(a) + k) == Read(ToRAtom(a), k)
    decreases a, 0
  {
    match a
    case Star => StarReads(k);
    case DoubleStar => DotStarReads(k);
    case DoubleStarSlash => SegmentsRead(k);
    case Quest =>
      SlashClassReads(k);
      PostfixReads(RClass(true, "/"), k);
    case Class(neg, body) => ClassAtomReads(neg, body, k);
    case Lit(c) => LitReads(c, k);
    case Brace(alts) => BraceReads(alts, k);
  }

  lemma {:induction false} BraceReads(alts: Alternatives, k: string)
    requires AltsOk(alts, ClassOk) && NoPostfix(k)
    ensures ReadPiece(EmitAtom(Brace(alts)) + k) == Read(Group(ToRAlts(alts)), k)
    decreases alts, 1
  {
    var s := EmitAtom(Brace(alts)) + k;
    BraceEmits(alts, k);
    AltsRead(alts, ")" + k);
    hide *;
    GroupReads(s, ToRAlts(alts), k);
    PostfixReads(Group(ToRAlts(alts)), k);
    PieceStep(s, Group(ToRAlts(alts)), k);
  }

  lemma BraceEmits(alts: Alternatives, k: string)
    ensures var s := EmitAtom(Brace(alts)) + k;
            && s == "(?:" + (EmitAlts(alts) + (")" + k)) && s[3..] == EmitAlts(alts) + (")" + k)
  {
    hide EmitAlts;
  }

  lemma EmitCons(a: Atom, t: Glob, k: string)
    ensures EmitGlob(GCons(a, t)) + k == EmitAtom(a) + (EmitGlob(t) + k)
    ensures EmitGlob(GEnd) + k == k
  {
  }

  lemma {:induction false} GlobReads(g: Glob, k: string, rk: Re, rest: string)
    requires GlobOk(g, ClassOk) && NoPostfix(k)
    requires ReadConcat(k) == Read(rk, rest)
    ensures NoPostfix(EmitGlob(g) + k)
    ensures ReadConcat(EmitGlob(g) + k) == Read(Append(ToRe(g), rk), rest)
    decreases g, 0
  {
    match g
    case GEnd => EmitCons(Star, GEnd, k);
    case GCons(a, t) =>
      EmitCons(a, t, k);
      var tail := EmitGlob(t) + k;
      hide ReadConcat, ReadPiece, EmitAtom, EmitGlob, AtomOk;
      GlobReads(t, k, rk, rest);
      AtomReads(a, tail);
      ConcatStep(EmitAtom(a) + tail, ToRAtom(a), tail, Append(ToRe(t), rk), rest);
  }

  lemma LastStep(s: string, re: Re, rest: string)
    requires ReadConcat(s) == Read(re, rest) && (rest == [] || rest[0] != '|')
    ensures ReadAlts(s) == Read(ROne(re), rest)
  {
  }

  lemma BarStep(s: string, re: Re, rest: string, more: RAlts, end: string)
    requires ReadConcat(s) == Read(re, rest) && rest != [] && rest[0] == '|'
    requires ReadAlts(rest[1..]) == Read(more, end)
    ensures ReadAlts(s) == Read(RMore(re, more), end)
  {
  }

  lemma StopRead(k: string)
    requires k != [] && (k[0] == ')' || k[0] == '|')
    ensures NoPostfix(k) && ReadConcat(k) == Read(REnd, k)
  {
  }

  lemma EmitMore(g: Glob, rest: Alternatives, k: string)
    ensures EmitAlts(More(g, rest)) + k == EmitGlob(g) + ("|" + (EmitAlts(rest) + k))
    ensures ("|" + (EmitAlts(rest) + k))[1..] == EmitAlts(rest) + k
  {
  }

  lemma {:induction false} AltsRead(alts: Alternatives, k: string)
    requires AltsOk(alts, ClassOk) && k != [] && k[0] == ')'
    ensures ReadAlts(EmitAlts(alts) + k) == Read(ToRAlts(alts), k)
    decreases alts, 0
  {
    hide ReadAlts, ReadConcat, EmitGlob, GlobOk, ToRe, NoPostfix;
    match alts
    case One(g) =>
      StopRead(k);
      GlobReads(g, k, REnd, k);
      AppendEnd(ToRe(g));
      LastStep(EmitGlob(g) + k, ToRe(g), k);
    case More(g, rest) =>
      EmitMore(g, rest, k);
      var more := "|" + (EmitAlts(rest) + k);
      StopRead(more);
      GlobReads(g, more, REnd, more);
      AppendEnd(ToRe(g));
      AltsRead(rest, k);
      BarStep(EmitGlob(g) + more, ToRe(g), more, ToRAlts(rest), k);
  }

  lemma {:induction false} AppendEnd(re: Re)
    ensures Append(re, REnd) == re
  {
    match re
    case REnd =>
    case RCons(_, t) => AppendEnd(t);
  }

  /** The regex of a whole pattern: both anchors are at the top level. */
  function Anchored(g: Glob): RAlts {
    ROne(RCons(Caret, Append(ToRe(g), RCons(Dollar, REnd))))
  }

  lemma AnchorsRead(g: Glob)
    requires GlobOk(g, ClassOk)
    ensures ReadAlts("^" + EmitGlob(g) + "$") == Read(Anchored(g), "")
  {
    DollarReads();
    GlobReads(g, "$", RCons(Dollar, REnd), "");
    var text := EmitGlob(g) + "$";
    assert "^" + EmitGlob(g) + "$" == "^" + text;
    var s := "^" + text;
    assert s[1..] == text;
    PostfixReads(Caret, text);
    ConcatStep(s, Caret, text, Append(ToRe(g), RCons(Dollar, REnd)), "");
  }

  lemma DollarReads()
    ensures ReadConcat("$") == Read(RCons(Dollar, REnd), "")
  {
    assert "$"[1..] == "";
    PostfixReads(Dollar, "");
    assert ReadPiece("$") == Read(Dollar, "");
    assert ReadConcat("") == Read(REnd, "");
  }
}
