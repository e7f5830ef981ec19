/** Strings as sequences of Unicode scalar values, and the line splitting of
  * `str::lines`: a line ends at `\n`, one `\r` just before that `\n` goes with
  * it, and a final piece without `\n` is a line of its own.
  */
module TextLines {

  /** Index of the first `c`, or `|s|` when there is none. */
  function IndexOf(s: string, c: char): (i: nat)
    ensures i <= |s|
    ensures i < |s| ==> s[i] == c
    ensures c !in s[..i]
  {
    if s == [] || s[0] == c then 0 else
      var i := 1 + IndexOf(s[1..], c);
      assert s[..i] == [s[0]] + s[1..][..i - 1];
      i
  }

  lemma IndexOfIs(s: string, c: char, n: nat)
    requires n <= |s| && (n < |s| ==> s[n] == c)
    requires forall k :: 0 <= k < n ==> s[k] != c
    ensures IndexOf(s, c) == n
  {
    var i := IndexOf(s, c);
    assert forall k :: 0 <= k < i ==> s[..i][k] == s[k];
  }

  function StripCr(line: string): string {
    if line != [] && line[|line| - 1] == '\r' then line[..|line| - 1] else line
  }

  function Lines(s: string): (ls: seq<string>)
    decreases |s|
  {
    if s == [] then []
    else
      var k := IndexOf(s, '\n');
      if k == |s| then [s] else [StripCr(s[..k])] + Lines(s[k + 1..])
  }

  function Join(parts: seq<string>, sep: string): string {
    if parts == [] then []
    else if |parts| == 1 then parts[0]
    else parts[0] + sep + Join(parts[1..], sep)
  }

  predicate FitIn(ls: seq<string>, n: nat) {
    |ls| <= n && forall i :: 0 <= i < |ls| ==> |ls[i]| + |ls| - 1 <= n
  }

  lemma {:induction false} LinesFit(s: string)
    ensures FitIn(Lines(s), |s|)
    decreases |s|
  {
    if s == [] {
    } else {
      LinesOfSome(s);
      hide *;
      var k := IndexOf(s, '\n');
      if k < |s| {
        LinesFit(s[k + 1..]);
        StripCrShortens(s[..k]);
        OneMoreLine(StripCr(s[..k]), Lines(s[k + 1..]), k, |s| - k - 1);
      } else {
        OneLine(s);
      }
    }
  }

  lemma OneLine(s: string)
    requires s != []
    ensures FitIn([s], |s|)
  {
  }

  lemma OneMoreLine(line: string, rest: seq<string>, k: nat, n: nat)
    requires |line| <= k && FitIn(rest, n)
    ensures FitIn([line] + rest, k + 1 + n)
  {
  }

  /** Every line, plus one separator for each other line, fits in the text. */
  lemma LineLengths(s: string)
    ensures forall i :: 0 <= i < |Lines(s)| ==> |Lines(s)[i]| + |Lines(s)| - 1 <= |s|
    ensures |Lines(s)| <= |s|
  {
    hide Lines;
    LinesFit(s);
  }

  lemma StripCrShortens(line: string)
    ensures |StripCr(line)| <= |line|
  {
  }

  lemma LinesOfSome(s: string)
    requires s != []
    ensures var k := IndexOf(s, '\n');
            Lines(s) == if k == |s| then [s] else [StripCr(s[..k])] + Lines(s[k + 1..])
  {
    hide IndexOf, StripCr;
  }

  lemma {:induction false} LinesHaveNoNewline(s: string)
    ensures forall i :: 0 <= i < |Lines(s)| ==> '\n' !in Lines(s)[i]
    decreases |s|
  {
    if s != [] {
      var k := IndexOf(s, '\n');
      if k < |s| {
        LinesHaveNoNewline(s[k + 1..]);
      } else {
        assert s == s[..k];
      }
    }
  }

  lemma FirstNewline(line: string, rest: string)
    requires '\n' !in line
    ensures IndexOf(line + ("\n" + rest), '\n') == |line|
  {
    var s := line + ("\n" + rest);
    assert s[|line|] == '\n';
    forall i | 0 <= i < |line| ensures s[i] != '\n' {
      assert s[i] == line[i];
    }
  }

  lemma LinesCons(line: string, rest: string)
    requires '\n' !in line
    ensures Lines(line + ("\n" + rest)) == [StripCr(line)] + Lines(rest)
  {
    var s := line + ("\n" + rest);
    FirstNewline(line, rest);
    assert s[..|line|] == line && s[|line| + 1..] == rest;
  }

  lemma SingleLine(s: string)
    requires '\n' !in s
    ensures |Lines(s)| <= 1
  {
  }

  /** Adding a part at either end never shortens the joined text. */
  lemma {:induction false} JoinGrowsRight(parts: seq<string>, sep: string, k: nat)
    requires k < |parts|
    ensures |Join(parts[..k], sep)| <= |Join(parts[..k + 1], sep)|
  {
    if k == 0 {
    } else {
      JoinGrowsRight(parts[1..], sep, k - 1);
      assert parts[1..][..k - 1] == parts[..k][1..];
      assert parts[1..][..k] == parts[..k + 1][1..];
    }
  }

  lemma JoinGrowsLeft(parts: seq<string>, sep: string, k: nat)
    requires k < |parts|
    ensures |Join(parts[k + 1..], sep)| <= |Join(parts[k..], sep)|
  {
    assert parts[k..][1..] == parts[k + 1..];
  }
}
