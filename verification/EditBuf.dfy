/** Line endings of a buffer being edited: counting them, and rewriting them. */
module EditBuf {
  import opened TextLines

  datatype Ending = Lf | CrLf

  function EndingText(e: Ending): string {
    match e
    case Lf => "\n"
    case CrLf => "\r\n"
  }

  /** How often `pat` occurs, reading from the left and without overlaps. */
  function Count(s: string, pat: string): nat
    requires pat != []
    decreases |s|
  {
    if s == [] then 0
    else if pat <= s then 1 + Count(s[|pat|..], pat)
    else Count(s[1..], pat)
  }

  function BareLfs(text: string): int { Count(text, "\n") - Count(text, "\r\n") }

  function DominantEnding(text: string): Ending {
    if Count(text, "\r\n") > BareLfs(text) then CrLf else Lf
  }

  predicate IsMixed(text: string) {
    Count(text, "\r\n") > 0 && BareLfs(text) > 0
  }

  predicate EndsWithNewline(text: string) {
    text != [] && text[|text| - 1] == '\n'
  }

  function Joined(lines: seq<string>, e: string, trailing: bool): string {
    if trailing then Join(lines, e) + e else Join(lines, e)
  }

  function NormalizeTo(text: string, ending: Ending): string {
    Joined(Lines(text), EndingText(ending), EndsWithNewline(text))
  }

  // ----- a text, line by line

  /** The same rewriting, one line at a time. */
  function ByLine(s: string, ending: Ending): string
    decreases |s|
  {
    var k := IndexOf(s, '\n');
    if k == |s| then s else StripCr(s[..k]) + (EndingText(ending) + ByLine(s[k + 1..], ending))
  }

  lemma Halves(s: string)
    ensures var k := IndexOf(s, '\n');
            k < |s| ==> '\n' !in s[..k] && s == s[..k] + ("\n" + s[k + 1..])
    ensures IndexOf(s, '\n') == |s| ==> '\n' !in s
  {
    hide IndexOf;
    var k := IndexOf(s, '\n');
    if k < |s| {
      SplitAt(s, k);
    } else {
      assert s[..k] == s;
    }
  }

  lemma SplitAt(s: string, k: nat)
    requires k < |s| && s[k] == '\n'
    ensures s == s[..k] + ("\n" + s[k + 1..])
  {
    assert s[k..] == "\n" + s[k + 1..];
    assert s == s[..k] + s[k..];
  }

  lemma SameEnd(s: string, k: nat)
    requires k < |s| && s[k] == '\n' && s[k + 1..] != []
    ensures EndsWithNewline(s) == EndsWithNewline(s[k + 1..])
  {
  }

  lemma JoinedCons(l: string, rest: seq<string>, e: string, trailing: bool)
    requires rest != []
    ensures Joined([l] + rest, e, trailing) == l + (e + Joined(rest, e, trailing))
  {
    assert ([l] + rest)[1..] == rest;
    var j := Join(rest, e);
    assert Join([l] + rest, e) == l + e + j;
    hide Join;
    assert l + e + j == l + (e + j);
    assert l + (e + j) + e == l + (e + (j + e));
  }

  lemma JoinedOne(l: string, e: string)
    ensures Joined([l], e, true) == l + (e + Joined([], e, false))
  {
    assert e + [] == e;
  }

  lemma {:induction false} NormalizeByLine(s: string, ending: Ending)
    ensures NormalizeTo(s, ending) == ByLine(s, ending)
    decreases |s|
  {
    hide EndingText, StripCr, IndexOf;
    if s == [] {
      NothingToDo(ending);
    } else {
      var k := IndexOf(s, '\n');
      if k == |s| {
        LastLine(s, ending);
      } else {
        NormalizeByLine(s[k + 1..], ending);
        NormalizeStep(s, ending);
      }
    }
  }

  lemma NothingToDo(ending: Ending)
    ensures NormalizeTo([], ending) == ByLine([], ending) == []
  {
  }

  lemma LastLine(s: string, ending: Ending)
    requires s != [] && IndexOf(s, '\n') == |s|
    ensures NormalizeTo(s, ending) == s
  {
    Halves(s);
  }

  lemma NormalizeStep(s: string, ending: Ending)
    requires IndexOf(s, '\n') < |s|
    ensures var k := IndexOf(s, '\n');
            NormalizeTo(s, ending) == StripCr(s[..k]) + (EndingText(ending) + NormalizeTo(s[k + 1..], ending))
  {
    hide *;
    var k := IndexOf(s, '\n');
    var line, rest := StripCr(s[..k]), s[k + 1..];
    NormalizeIs(s, ending);
    NormalizeIs(rest, ending);
    LinesStep(s);
    LinesStep(rest);
    if rest == [] {
      NoLinesNoNewline(rest);
      NewlineEnds(s, k);
      JoinedOne(line, EndingText(ending));
      assert [line] + Lines(rest) == [line];
    } else {
      SameEnd(s, k);
      JoinedCons(line, Lines(rest), EndingText(ending), EndsWithNewline(rest));
    }
  }

  lemma NormalizeIs(s: string, ending: Ending)
    ensures NormalizeTo(s, ending) == Joined(Lines(s), EndingText(ending), EndsWithNewline(s))
  {
  }

  lemma NewlineEnds(s: string, k: nat)
    requires k < |s| && s[k] == '\n' && s[k + 1..] == []
    ensures EndsWithNewline(s)
  {
    assert |s[k + 1..]| == 0;
  }

  lemma LinesStep(s: string)
    ensures var k := IndexOf(s, '\n');
            k < |s| ==> Lines(s) == [StripCr(s[..k])] + Lines(s[k + 1..])
    ensures s != [] ==> Lines(s) != []
  {
    hide IndexOf, StripCr;
    if s != [] {
      LinesOfSome(s);
      hide Lines;
    }
  }

  lemma NoLinesNoNewline(s: string)
    requires s == []
    ensures Lines(s) == [] && !EndsWithNewline(s)
  {
  }

  // ----- counting by line

  predicate EndsIn(line: string, p: string) {
    |p| <= |line| && line[|line| - |p|..] == p
  }

  /** A pattern that ends in a newline occurs at the end of a line or later. */
  lemma {:induction false} CountCons(line: string, rest: string, p: string)
    requires '\n' !in line && '\n' !in p
    ensures Count(line + ("\n" + rest), p + "\n") == (if EndsIn(line, p) then 1 else 0) + Count(rest, p + "\n")
    decreases |line|
  {
    var s, pat := line + ("\n" + rest), p + "\n";
    CountStart(line, rest, p);
    if pat <= s {
      assert s[|pat|..] == rest;
    } else if line == [] {
      assert s[1..] == rest;
    } else {
      assert s[1..] == line[1..] + ("\n" + rest);
      CountCons(line[1..], rest, p);
      SuffixOfTail(line, p);
    }
  }

  /** Where the pattern can start. */
  lemma CountStart(line: string, rest: string, p: string)
    requires '\n' !in line && '\n' !in p
    ensures p + "\n" <= line + ("\n" + rest) <==> line == p
  {
    var s, pat := line + ("\n" + rest), p + "\n";
    forall i | 0 <= i < |line| ensures s[i] == line[i] && s[i] != '\n' {
      assert line[i] in line;
    }
    forall i | 0 <= i < |p| ensures pat[i] == p[i] && pat[i] != '\n' {
      assert p[i] in p;
    }
    assert s[|line|] == '\n' && pat[|p|] == '\n';
    if pat <= s {
      assert forall i :: 0 <= i < |pat| ==> s[i] == pat[i];
      assert |p| == |line|;
      assert forall i :: 0 <= i < |p| ==> line[i] == s[i] == pat[i] == p[i];
    }
  }

  lemma SuffixOfTail(line: string, p: string)
    requires line != [] && line != p
    ensures EndsIn(line, p) == EndsIn(line[1..], p)
  {
    if |p| < |line| {
      assert line[|line| - |p|..] == line[1..][|line| - 1 - |p|..];
    } else if |p| == |line| {
      assert line[0..] == line;
    }
  }

  lemma {:induction false} CountNone(s: string, pat: string)
    requires pat != [] && pat[|pat| - 1] == '\n' && '\n' !in s
    ensures Count(s, pat) == 0
  {
    assert forall i :: 0 <= i < |s| ==> s[i] in s;
    assert |pat| <= |s| ==> s[|pat| - 1] != pat[|pat| - 1];
    if s != [] {
      CountNone(s[1..], pat);
    }
  }
}
