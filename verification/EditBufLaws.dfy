/** What rewriting line endings keeps, and when. */
module EditBufLaws {
  import opened TextLines
  import opened EditBuf

  lemma CrEnds(line: string)
    ensures EndsIn(line, "") && (EndsIn(line, "\r") <==> line != [] && line[|line| - 1] == '\r')
    ensures EndsIn(line, "\r\r") <==> |line| >= 2 && line[|line| - 1] == '\r' && line[|line| - 2] == '\r'
    ensures StripCr(line) == if EndsIn(line, "\r") then line[..|line| - 1] else line
    ensures EndsIn(StripCr(line), "\r") <==> EndsIn(line, "\r\r")
    ensures StripCr(line + "\r") == line
  {
    if line != [] {
      assert line[|line| - 1..] == [line[|line| - 1]];
    }
    if |line| >= 2 {
      assert line[|line| - 2..] == [line[|line| - 2], line[|line| - 1]];
      var t := line[..|line| - 1];
      assert t[|t| - 1..] == [line[|line| - 2]];
    }
    assert (line + "\r")[..|line|] == line;
  }

  lemma PatternTexts()
    ensures "" + "\n" == "\n" && "\r" + "\n" == "\r\n" && "\r\r" + "\n" == "\r\r\n"
  {
  }

  /** The three counts of a line followed by a newline and more. */
  lemma CountsCons(line: string, rest: string)
    requires '\n' !in line
    ensures var s := line + ("\n" + rest);
            && Count(s, "\n") == 1 + Count(rest, "\n")
            && Count(s, "\r\n") == (if EndsIn(line, "\r") then 1 else 0) + Count(rest, "\r\n")
            && Count(s, "\r\r\n") == (if EndsIn(line, "\r\r") then 1 else 0) + Count(rest, "\r\r\n")
  {
    PatternTexts();
    CrEnds(line);
    hide Count, EndsIn;
    CountCons(line, rest, "");
    CountCons(line, rest, "\r");
    CountCons(line, rest, "\r\r");
  }

  lemma CountsNone(s: string)
    requires '\n' !in s
    ensures Count(s, "\n") == Count(s, "\r\n") == Count(s, "\r\r\n") == 0
  {
    hide Count;
    CountNone(s, "\n");
    CountNone(s, "\r\n");
    CountNone(s, "\r\r\n");
  }

  /** A CRLF is one newline; a CRLF after a carriage return is one CRLF. */
  lemma {:induction false} CountsOrdered(s: string)
    ensures Count(s, "\r\r\n") <= Count(s, "\r\n") <= Count(s, "\n")
    decreases |s|
  {
    hide Count, EndsIn, StripCr;
    Halves(s);
    var k := IndexOf(s, '\n');
    if k < |s| {
      CountsCons(s[..k], s[k + 1..]);
      CrEnds(s[..k]);
      CountsOrdered(s[k + 1..]);
      DoubleEndsSingle(s[..k]);
    } else {
      CountsNone(s);
    }
  }

  lemma DoubleEndsSingle(line: string)
    ensures EndsIn(line, "\r\r") ==> EndsIn(line, "\r")
  {
    CrEnds(line);
  }

  /** The line that a rewriting puts before a newline character. */
  function LineFor(line: string, ending: Ending): string {
    StripCr(line) + if ending.CrLf? then "\r" else ""
  }

  lemma ByLineStep(s: string, ending: Ending)
    requires IndexOf(s, '\n') < |s|
    ensures var k := IndexOf(s, '\n');
            && ByLine(s, ending) == LineFor(s[..k], ending) + ("\n" + ByLine(s[k + 1..], ending))
            && '\n' !in LineFor(s[..k], ending)
  {
    var k := IndexOf(s, '\n');
    var l, rest := StripCr(s[..k]), ByLine(s[k + 1..], ending);
    ByLineHead(s, ending);
    hide ByLine, IndexOf, StripCr;
    BeforeNewline(l, rest);
  }

  lemma ByLineHead(s: string, ending: Ending)
    requires IndexOf(s, '\n') < |s|
    ensures var k := IndexOf(s, '\n');
            && ByLine(s, ending) == StripCr(s[..k]) + (EndingText(ending) + ByLine(s[k + 1..], ending))
            && '\n' !in StripCr(s[..k])
  {
    hide EndingText;
  }

  lemma BeforeNewline(l: string, rest: string)
    ensures l + ("\r\n" + rest) == (l + "\r") + ("\n" + rest) && l + ("\n" + rest) == (l + "") + ("\n" + rest)
    ensures '\n' !in l ==> '\n' !in l + "\r" && '\n' !in l + ""
  {
    assert l + "" == l;
  }

  /** Where the carriage returns of a rewritten line stand. */
  lemma LineForEnds(line: string, ending: Ending)
    ensures EndsIn(LineFor(line, ending), "\r") <==> ending.CrLf? || EndsIn(line, "\r\r")
    ensures StripCr(LineFor(line, ending)) == StripCr(line) <==> ending.CrLf? || !EndsIn(line, "\r\r")
    ensures |LineFor(line, ending)| == |line| - (if EndsIn(line, "\r") then 1 else 0) + if ending.CrLf? then 1 else 0
  {
    hide EndsIn, StripCr;
    CrEnds(line);
    CrEnds(StripCr(line));
    if ending.CrLf? {
      CrEnds(StripCr(line) + "\r");
    } else {
      assert StripCr(line) + "" == StripCr(line);
    }
  }

  /** The counts after a rewriting: every newline has its carriage return, or
    * only those that had two.
    */
  lemma {:induction false} CountsAfter(s: string, ending: Ending)
    ensures var r := ByLine(s, ending);
            && Count(r, "\n") == Count(s, "\n")
            && Count(r, "\r\n") == (if ending.CrLf? then Count(s, "\n") else Count(s, "\r\r\n"))
            && |r| == |s| - Count(s, "\r\n") + (if ending.CrLf? then Count(s, "\n") else 0)
    decreases |s|
  {
    hide Count, EndsIn, StripCr, ByLine, LineFor, IndexOf;
    Halves(s);
    var k := IndexOf(s, '\n');
    if k < |s| {
      ByLineStep(s, ending);
      CountsAfter(s[k + 1..], ending);
      CountsCons(s[..k], s[k + 1..]);
      CountsCons(LineFor(s[..k], ending), ByLine(s[k + 1..], ending));
      LineForEnds(s[..k], ending);
    } else {
      CountsNone(s);
      ByLineLast(s, ending);
    }
  }

  lemma ByLineLast(s: string, ending: Ending)
    requires IndexOf(s, '\n') == |s|
    ensures ByLine(s, ending) == s
  {
  }

  // ----- lines and the trailing newline

  /** The rewriting keeps the list of lines, exactly unless it makes bare LFs and
    * a line ended in a carriage return of its own.
    */
  lemma {:induction false} LinesByLine(s: string, ending: Ending)
    ensures Lines(ByLine(s, ending)) == Lines(s) <==> ending.CrLf? || Count(s, "\r\r\n") == 0
    decreases |s|
  {
    hide Count, EndsIn, StripCr, ByLine, LineFor, IndexOf, Lines;
    Halves(s);
    var k := IndexOf(s, '\n');
    if k < |s| {
      var line, rest := s[..k], s[k + 1..];
      ByLineStep(s, ending);
      LinesByLine(rest, ending);
      CountsCons(line, rest);
      LineForEnds(line, ending);
      LinesCons(line, rest);
      LinesCons(LineFor(line, ending), ByLine(rest, ending));
      ConsEqual(StripCr(line), Lines(rest), StripCr(LineFor(line, ending)), Lines(ByLine(rest, ending)));
    } else {
      CountsNone(s);
      ByLineLast(s, ending);
    }
  }

  lemma ConsEqual(a: string, x: seq<string>, b: string, y: seq<string>)
    ensures [b] + y == [a] + x <==> a == b && x == y
  {
    assert ([a] + x)[0] == a && ([b] + y)[0] == b;
    assert ([a] + x)[1..] == x && ([b] + y)[1..] == y;
  }

  lemma NormalizeKeepsLinesExactlyWhen(text: string, ending: Ending)
    ensures Lines(NormalizeTo(text, ending)) == Lines(text) <==> ending.CrLf? || Count(text, "\r\r\n") == 0
  {
    hide Count, Lines;
    NormalizeByLine(text, ending);
    LinesByLine(text, ending);
  }

  lemma {:induction false} TrailingByLine(s: string, ending: Ending)
    ensures EndsWithNewline(ByLine(s, ending)) == EndsWithNewline(s)
    ensures ByLine(s, ending) == [] <==> s == []
    decreases |s|
  {
    hide EndsWithNewline, ByLine, LineFor, IndexOf;
    Halves(s);
    var k := IndexOf(s, '\n');
    if k < |s| {
      ByLineStep(s, ending);
      TrailingByLine(s[k + 1..], ending);
      TrailingCons(s[..k], s[k + 1..]);
      TrailingCons(LineFor(s[..k], ending), ByLine(s[k + 1..], ending));
    } else {
      ByLineLast(s, ending);
    }
  }

  lemma TrailingCons(line: string, rest: string)
    ensures EndsWithNewline(line + ("\n" + rest)) == (rest == [] || EndsWithNewline(rest))
    ensures line + ("\n" + rest) != []
  {
    var s := line + ("\n" + rest);
    assert |s| == |line| + 1 + |rest|;
    assert s[|s| - 1] == if rest == [] then '\n' else rest[|rest| - 1];
  }

  lemma NormalizeKeepsTrailing(text: string, ending: Ending)
    ensures EndsWithNewline(NormalizeTo(text, ending)) == EndsWithNewline(text)
  {
    hide NormalizeTo, EndsWithNewline;
    NormalizeByLine(text, ending);
    TrailingByLine(text, ending);
  }

  // ----- consistency

  /** Rewriting to CRLF never leaves a mixed buffer. Rewriting to LF leaves one
    * exactly when some newlines, but not all, came after two carriage returns.
    */
  lemma MixedAfterExactlyWhen(text: string, ending: Ending)
    ensures IsMixed(NormalizeTo(text, ending))
       <==> ending.Lf? && 0 < Count(text, "\r\r\n") < Count(text, "\n")
  {
    hide Count, NormalizeTo, ByLine;
    NormalizeByLine(text, ending);
    CountsAfter(text, ending);
  }

  /** A rewritten buffer reads as having the target ending exactly when: for CRLF
    * it has a newline at all; for LF at most half of its newlines came after two
    * carriage returns.
    */
  lemma DominantAfterExactlyWhen(text: string, ending: Ending)
    ensures DominantEnding(NormalizeTo(text, ending)) == ending
       <==> if ending.CrLf? then Count(text, "\n") > 0 else 2 * Count(text, "\r\r\n") <= Count(text, "\n")
  {
    hide Count, NormalizeTo, ByLine;
    NormalizeByLine(text, ending);
    CountsAfter(text, ending);
  }

  /** CR CR LF rewritten to LF reads as CRLF. */
  lemma CrCrLfReadsAsCrLf()
    ensures DominantEnding(NormalizeTo("\r\r\n", Lf)) == CrLf
  {
    assert "\r\r\n" == "\r\r" + ("\n" + "");
    hide Count, EndsIn, NormalizeTo;
    CountsCons("\r\r", "");
    CountsNone("");
    CrEnds("\r\r");
    DominantAfterExactlyWhen("\r\r\n", Lf);
  }

  /** Every newline already has this ending. */
  predicate Consistent(text: string, ending: Ending) {
    Count(text, "\r\n") == if ending.CrLf? then Count(text, "\n") else 0
  }

  lemma {:induction false} ConsistentIsFixed(s: string, ending: Ending)
    requires Consistent(s, ending)
    ensures ByLine(s, ending) == s
    decreases |s|
  {
    hide Count, EndsIn, StripCr, ByLine, LineFor, IndexOf;
    Halves(s);
    var k := IndexOf(s, '\n');
    if k < |s| {
      var line, rest := s[..k], s[k + 1..];
      ByLineStep(s, ending);
      CountsCons(line, rest);
      CountsOrdered(rest);
      ConsistentIsFixed(rest, ending);
      SameLine(line, ending);
    } else {
      ByLineLast(s, ending);
    }
  }

  lemma SameLine(line: string, ending: Ending)
    requires EndsIn(line, "\r") == ending.CrLf?
    ensures LineFor(line, ending) == line
  {
    CrEnds(line);
    if ending.CrLf? {
      assert line == line[..|line| - 1] + "\r";
    }
  }

  /** A buffer is left byte for byte as it is exactly when it is consistent. */
  lemma UnchangedExactlyWhen(text: string, ending: Ending)
    ensures NormalizeTo(text, ending) == text <==> Consistent(text, ending)
  {
    NormalizeByLine(text, ending);
    hide Count, NormalizeTo, ByLine;
    if Consistent(text, ending) {
      ConsistentIsFixed(text, ending);
    }
    CountsAfter(text, ending);
    CountsOrdered(text);
  }

  /** Rewriting twice is rewriting once, exactly unless it is to LF and a newline
    * came after two carriage returns.
    */
  lemma IdempotentExactlyWhen(text: string, ending: Ending)
    ensures NormalizeTo(NormalizeTo(text, ending), ending) == NormalizeTo(text, ending)
       <==> ending.CrLf? || Count(text, "\r\r\n") == 0
  {
    hide Count, NormalizeTo, ByLine;
    UnchangedExactlyWhen(NormalizeTo(text, ending), ending);
    NormalizeByLine(text, ending);
    CountsAfter(text, ending);
  }

  /** Two lines, the first ended by CR CR LF: the rewriting to LF turns its text
    * from `a\r` into `a`, and leaves the buffer mixed.
    */
  lemma CrCrLfIsNotKept()
    ensures var text := "a\r" + ("\r" + ("\n" + "b\n"));
            && Lines(NormalizeTo(text, Lf)) != Lines(text) && IsMixed(NormalizeTo(text, Lf))
  {
    var text := "a\r" + ("\r" + ("\n" + "b\n"));
    assert text == "a\r\r" + ("\n" + "b\n") && "b\n" == "b" + ("\n" + "");
    hide Count, EndsIn, NormalizeTo;
    CountsCons("a\r\r", "b\n");
    CountsCons("b", "");
    CountsNone("");
    CrEnds("a\r\r");
    CrEnds("b");
    NormalizeKeepsLinesExactlyWhen(text, Lf);
    MixedAfterExactlyWhen(text, Lf);
  }
}
