/** The lines of a `.gitignore`: what each of them says, and what it ignores. */
module IgnoreLines {
  import opened Basics
  import opened TextTrim
  import opened GlobSyntax
  import opened GlobMeaning
  import opened IgnoreRules
  import opened IgnoreMeaning
  import opened PathGlobs

  /** A line apart: white space, slashes, a core, slashes, white space. Nothing but
    * white space is around the slashes, and nothing but slashes around the core.
    */
  predicate Apart(raw: string, w1: string, a: string, core: string, b: string, w2: string) {
    && raw == w1 + (a + core + b) + w2
    && All(w1, IsWhitespace) && All(w2, IsWhitespace) && Bare(a + core + b, IsWhitespace)
    && All(a, IsSlash) && All(b, IsSlash) && Bare(core, IsSlash)
  }

  /** Comments and negations. */
  predicate IsSkipped(line: string) {
    line != [] && (line[0] == '#' || line[0] == '!')
  }

  /** An entry is anchored by a slash before it or within it, and by no other. */
  lemma EntryOfLine(raw: string, w1: string, a: string, core: string, b: string, w2: string)
    requires Apart(raw, w1, a, core, b, w2)
    ensures EntryOf(raw) == if core == [] || IsSkipped(a + core) then None else Some(Entry(a == [] && '/' !in core, core))
  {
    var line := a + core + b;
    hide All;
    TrimBothIs(w1, line, w2, IsWhitespace);
    TrimBothIs(a, core, b, IsSlash);
    FirstOfLine(a, core, b);
    hide TrimStartBy, TrimEndBy, IsWhitespace, Bare;
    assert Trim(raw) == line;
  }

  lemma FirstOfLine(a: string, core: string, b: string)
    requires All(a, IsSlash) && All(b, IsSlash) && Bare(core, IsSlash)
    ensures var line := a + core + b;
            && (core != [] ==> line != [] && (line[0] == '/' <==> a != []))
            && (core != [] ==> IsSkipped(line) == IsSkipped(a + core))
            && (core == [] && line != [] ==> line[0] == '/')
  {
    var line := a + core + b;
    if a != [] {
      assert line[0] == a[0] && IsSlash(a[0]);
    } else if core != [] {
      assert line[0] == core[0];
    } else if b != [] {
      assert line[0] == b[0] && IsSlash(b[0]);
    }
  }

  /** Every line comes apart like this. */
  lemma LineComesApart(raw: string) returns (w1: string, a: string, core: string, b: string, w2: string)
    ensures Apart(raw, w1, a, core, b, w2)
  {
    w1, w2 := TrimBothSplits(raw, IsWhitespace);
    var line := TrimEndBy(TrimStartBy(raw, IsWhitespace), IsWhitespace);
    a, b := TrimBothSplits(line, IsSlash);
    core := TrimEndBy(TrimStartBy(line, IsSlash), IsSlash);
  }

  /** What a line says, read off the line itself. */
  lemma EntryExactlyWhen(raw: string, e: Entry)
    ensures EntryOf(raw) == Some(e)
       <==> exists w1, a, b, w2 :: Apart(raw, w1, a, e.core, b, w2) && e.core != [] && !IsSkipped(a + e.core)
                                   && e.anywhere == (a == [] && '/' !in e.core)
  {
    hide Apart, IsSkipped, EntryOf;
    if EntryOf(raw) == Some(e) {
      var w1, a, core, b, w2 := LineComesApart(raw);
      EntryOfLine(raw, w1, a, core, b, w2);
      assert Apart(raw, w1, a, e.core, b, w2);
    }
    if w1, a, b, w2 :| Apart(raw, w1, a, e.core, b, w2) && e.core != [] && !IsSkipped(a + e.core)
                       && e.anywhere == (a == [] && '/' !in e.core) {
      EntryOfLine(raw, w1, a, e.core, b, w2);
    }
  }

  /** Blank lines, comments, negations and slashes alone, and no others, say nothing. */
  lemma NoEntryExactlyWhen(raw: string)
    ensures EntryOf(raw).None?
       <==> exists w1, line, w2 :: raw == w1 + line + w2 && All(w1, IsWhitespace) && All(w2, IsWhitespace)
                                   && (All(line, IsSlash) || IsSkipped(line))
  {
    hide EntryOf, IsSkipped, All;
    if EntryOf(raw).None? {
      var w1, a, core, b, w2 := LineComesApart(raw);
      EntryOfLine(raw, w1, a, core, b, w2);
      FirstOfLine(a, core, b);
      var line := a + core + b;
      if core == [] {
        AllConcat(a, b, IsSlash);
        assert line == a + b;
      }
      assert raw == w1 + line + w2;
    }
    if w1, line, w2 :| raw == w1 + line + w2 && All(w1, IsWhitespace) && All(w2, IsWhitespace)
                       && (All(line, IsSlash) || IsSkipped(line)) {
      SaysNothing(raw, w1, line, w2);
    }
  }

  lemma SaysNothing(raw: string, w1: string, line: string, w2: string)
    requires raw == w1 + line + w2 && All(w1, IsWhitespace) && All(w2, IsWhitespace)
    requires All(line, IsSlash) || IsSkipped(line)
    ensures EntryOf(raw).None?
  {
    if All(line, IsSlash) {
      SlashesAlone(raw, w1, line, w2);
    } else {
      SkippedLine(raw, w1, line, w2);
    }
  }

  lemma SlashesAlone(raw: string, w1: string, line: string, w2: string)
    requires raw == w1 + line + w2 && All(w1, IsWhitespace) && All(w2, IsWhitespace) && All(line, IsSlash)
    ensures EntryOf(raw).None?
  {
    SlashesApart(line);
    assert Apart(raw, w1, line, "", "", w2);
    hide *;
    EntryOfLine(raw, w1, line, "", "", w2);
  }

  lemma SlashesApart(line: string)
    requires All(line, IsSlash)
    ensures line + "" + "" == line
    ensures Bare(line, IsWhitespace) && All("", IsSlash) && Bare("", IsSlash)
  {
    assert !IsWhitespace('/');
    if line != [] {
      assert IsSlash(line[0]) && IsSlash(line[|line| - 1]);
    }
  }

  lemma SkippedLine(raw: string, w1: string, line: string, w2: string)
    requires raw == w1 + line + w2 && All(w1, IsWhitespace) && IsSkipped(line)
    ensures EntryOf(raw).None?
  {
    assert !IsWhitespace('#') && !IsWhitespace('!');
    hide IsWhitespace, All, TrimStartBy, TrimEndBy;
    var u := line + w2;
    assert raw == w1 + u && u[0] == line[0];
    TrimStartByIs(w1, u, IsWhitespace);
    FirstIsKept(u, IsWhitespace);
    assert Trim(raw)[0] == line[0];
  }

  lemma FirstIsKept(u: string, drop: char -> bool)
    requires u != [] && !drop(u[0])
    ensures TrimEndBy(u, drop) != [] && TrimEndBy(u, drop)[0] == u[0]
  {
    var b := EndDropped(u, drop);
    hide TrimEndBy;
    assert u == TrimEndBy(u, drop) + b;
    assert b != [] ==> drop(b[0]);
  }

  // ----- files of one line

  lemma OneLineFile(raw: string)
    requires EntryOf(raw).Some?
    ensures LinePatterns([raw]) == PatternsOf(EntryOf(raw).value)
  {
    hide EntryOf, PatternsOf;
    assert [raw][..0] == [] && LinePatterns([]) == [];
    assert [] + PatternsOf(EntryOf(raw).value) == PatternsOf(EntryOf(raw).value);
  }

  /** The line `/name`, with or without white space around it and a slash after it,
    * ignores that name in the root and everything under it.
    */
  lemma AnchoredNameLine(raw: string, w1: string, a: string, name: string, b: string, w2: string, path: string, sets: ClassSets)
    requires Apart(raw, w1, a, name, b, w2) && a != []
    requires Literal(name) && NewlineFree(path) && SlashClass(sets)
    ensures IsIgnored(CompileAll(LinePatterns([raw]), sets), path, sets) <==> path == name || name + "/" <= path
  {
    assert name != [] && !IsSkipped(a + name) by { SlashFirst(a, name); }
    hide *;
    EntryOfLine(raw, w1, a, name, b, w2);
    OneLineFile(raw);
    LiteralPathMeaning(name, path, sets);
  }

  lemma SlashFirst(a: string, name: string)
    requires a != [] && All(a, IsSlash)
    ensures !IsSkipped(a + name)
  {
    assert (a + name)[0] == a[0] && IsSlash(a[0]);
  }

  /** The line `name` ignores it at any depth. */
  lemma NameLine(raw: string, w1: string, name: string, b: string, w2: string, path: string, sets: ClassSets)
    requires Apart(raw, w1, [], name, b, w2) && !IsSkipped(name)
    requires Literal(name) && '/' !in name && NewlineFree(path) && SlashClass(sets)
    ensures IsIgnored(CompileAll(LinePatterns([raw]), sets), path, sets) <==> name in Split(path)
  {
    assert name != [] && [] + name == name;
    hide *;
    EntryOfLine(raw, w1, [], name, b, w2);
    OneLineFile(raw);
    LiteralNameMeaning(name, path, sets);
  }
}
