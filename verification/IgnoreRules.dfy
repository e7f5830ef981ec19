/** The root `.gitignore`, compiled to globs and asked about a path. */
module IgnoreRules {
  import opened Basics
  import opened TextLines
  import opened TextTrim
  import opened GlobSyntax
  import opened Regex
  import opened GlobCompile
  import opened GlobConcat

  datatype Entry = Entry(anywhere: bool, core: string)

  predicate IsSlash(c: char) { c == '/' }

  /** What one line of the file says; nothing for blanks, comments, negations. */
  function EntryOf(raw: string): Option<Entry> {
    var line := Trim(raw);
    if line == [] || line[0] == '#' || line[0] == '!' then None
    else
      var core := TrimEndBy(TrimStartBy(line, IsSlash), IsSlash);
      if core == [] then None else Some(Entry(line[0] != '/' && '/' !in core, core))
  }

  /** The globs one entry stands for. */
  function PatternsOf(e: Entry): seq<string> {
    if e.anywhere then
      [e.core, "**/" + e.core, e.core + "/**/*", "**/" + e.core + "/**/*"]
    else [e.core, e.core + "/**/*"]
  }

  function Compile(pattern: string, sets: ClassSets): Option<RAlts> {
    if WellFormed(pattern) then ReadRegex(Translation(pattern), sets) else None
  }

  /** The globs that compile; the others are skipped. */
  function CompileAll(patterns: seq<string>, sets: ClassSets): seq<RAlts> {
    if patterns == [] then []
    else
      var init := CompileAll(patterns[..|patterns| - 1], sets);
      match Compile(patterns[|patterns| - 1], sets)
      case None => init
      case Some(re) => init + [re]
  }

  function LinePatterns(lines: seq<string>): seq<string> {
    if lines == [] then []
    else
      LinePatterns(lines[..|lines| - 1])
      + match EntryOf(lines[|lines| - 1])
        case None => []
        case Some(e) => PatternsOf(e)
  }

  ghost predicate IsIgnored(globs: seq<RAlts>, path: string, sets: ClassSets) {
    exists i :: 0 <= i < |globs| && IsMatch(globs[i], path, sets)
  }

  method GlobNew(pattern: string, sets: ClassSets) returns (g: Option<RAlts>)
    ensures g == Compile(pattern, sets)
  {
    var text := GlobToRegex(pattern);
    if text.Err? {
      return None;
    }
    return ReadRegex(text.value, sets);
  }

  lemma {:induction false} CompileAllConcat(a: seq<string>, b: seq<string>, sets: ClassSets)
    ensures CompileAll(a + b, sets) == CompileAll(a, sets) + CompileAll(b, sets)
  {
    hide Compile;
    if b == [] {
      assert a + b == a;
    } else {
      var n := |b| - 1;
      assert (a + b)[..|a| + n] == a + b[..n];
      CompileAllConcat(a, b[..n], sets);
    }
  }

  lemma CompileAllSnoc(patterns: seq<string>, k: nat, sets: ClassSets)
    requires k < |patterns|
    ensures CompileAll(patterns[..k + 1], sets)
         == CompileAll(patterns[..k], sets) + match Compile(patterns[k], sets) case None => [] case Some(re) => [re]
  {
    hide Compile;
    assert patterns[..k + 1][..k] == patterns[..k];
  }

  method CompilePatterns(patterns: seq<string>, sets: ClassSets) returns (globs: seq<RAlts>)
    ensures globs == CompileAll(patterns, sets)
  {
    hide Compile;
    globs := [];
    for k := 0 to |patterns|
      invariant globs == CompileAll(patterns[..k], sets)
    {
      CompileAllSnoc(patterns, k, sets);
      var g := GlobNew(patterns[k], sets);
      if g.Some? {
        globs := globs + [g.value];
      }
    }
    assert patterns[..|patterns|] == patterns;
  }

  lemma LinePatternsSnoc(lines: seq<string>, n: nat)
    requires n < |lines|
    ensures LinePatterns(lines[..n + 1])
         == LinePatterns(lines[..n]) + match EntryOf(lines[n]) case None => [] case Some(e) => PatternsOf(e)
  {
    hide EntryOf, PatternsOf;
    assert lines[..n + 1][..n] == lines[..n];
  }

  method Parse(text: string, sets: ClassSets) returns (globs: seq<RAlts>)
    ensures globs == CompileAll(LinePatterns(Lines(text)), sets)
  {
    hide EntryOf, PatternsOf, Compile, Lines;
    globs := [];
    var lines := Lines(text);
    for n := 0 to |lines|
      invariant globs == CompileAll(LinePatterns(lines[..n]), sets)
    {
      LinePatternsSnoc(lines, n);
      assert LinePatterns(lines[..n]) + [] == LinePatterns(lines[..n]);
      var entry := EntryOf(lines[n]);
      if entry.Some? {
        CompileAllConcat(LinePatterns(lines[..n]), PatternsOf(entry.value), sets);
        var more := CompilePatterns(PatternsOf(entry.value), sets);
        globs := globs + more;
      }
    }
    assert lines[..|lines|] == lines;
  }

  // ----- entries of the common forms

  /** Text, `*` and `?` only. */
  predicate Wild(core: string) {
    && core != []
    && '{' !in core && '}' !in core && '[' !in core
    && forall i :: 0 <= i < |core| - 1 ==> !(core[i] == '*' && core[i + 1] == '*')
  }

  /** Text only. */
  predicate Literal(core: string) {
    core != [] && '*' !in core && '?' !in core && '{' !in core && '}' !in core && '[' !in core
  }

  lemma LiteralIsWild(core: string)
    requires Literal(core)
    ensures Wild(core)
  {
  }

  function WildToken(c: char): Token {
    if c == '*' then TStar else if c == '?' then TQuest else if c == ',' then TComma else TLit(c)
  }

  function WildTokens(core: string): seq<Token> {
    seq(|core|, i requires 0 <= i < |core| => WildToken(core[i]))
  }

  lemma NextWild(s: string)
    requires s != [] && s[0] != '{' && s[0] != '}' && s[0] != '['
    requires |s| > 1 ==> !(s[0] == '*' && s[1] == '*')
    ensures NextToken(s) == Some((WildToken(s[0]), 1))
    ensures Flat([WildToken(s[0])])
  {
  }

  lemma WildTokensCons(core: string)
    requires core != []
    ensures WildTokens(core) == [WildToken(core[0])] + WildTokens(core[1..])
  {
  }

  lemma WildTail(core: string)
    requires Wild(core)
    ensures core[1..] == [] || Wild(core[1..])
    ensures core[0] != '{' && core[0] != '}' && core[0] != '['
    ensures |core| > 1 ==> !(core[0] == '*' && core[1] == '*')
  {
  }

  /** Such a text is lexed character by character. */
  lemma {:induction false} LexWild(core: string)
    requires core == [] || Wild(core)
    ensures Lex(core) == Some(WildTokens(core)) && Flat(WildTokens(core))
  {
    if core == [] {
      assert WildTokens(core) == [];
    } else {
      WildTail(core);
      NextWild(core);
      WildTokensCons(core);
      hide *;
      LexWild(core[1..]);
      var t, more := WildToken(core[0]), WildTokens(core[1..]);
      LexStep(core, t, 1, more);
      FlatCons(t, more);
    }
  }

  lemma FlatCons(t: Token, ts: seq<Token>)
    requires Flat([t]) && Flat(ts)
    ensures Flat([t] + ts)
  {
    assert [t][0] == t;
  }
}
