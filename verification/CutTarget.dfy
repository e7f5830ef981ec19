/** When the middle cut lands at its target. It is meant to whenever the target
  * is achievable, that is, at least what the marker itself costs; the lemmas give the
  * exact condition and two inputs that miss an achievable target.
  */
module CutTarget {
  import opened TextLines
  import opened Tokens
  import opened TruncateMiddle

  /** By line, the first line must fit on its own. By character, the target must
    * hold the marker and the text must be longer than what is kept of it.
    */
  predicate Lands(text: string, target: nat) {
    if |Lines(text)| < 8 then MARKER_TOKENS <= target && 3 * target + 9 < |text|
    else EstimateTokens(Lines(text)[0]) <= target
  }

  /** With the estimator, the first candidate of the character path fits. */
  lemma FirstCandidateFits(text: string, target: nat)
    requires MARKER_TOKENS <= target
    ensures HalveToFit(text, target, FirstKeep(text, target)) == FirstKeep(text, target)
  {
    hide Marker;
    var keep := FirstKeep(text, target);
    assert |CharCut(text, keep)| == keep + MARKER_CHARS;
  }

  /** The halving loop therefore runs only for a target below the marker's cost,
    * which starts it at an empty keep: it never halves anything.
    */
  lemma NothingIsEverHalved(text: string, target: nat)
    ensures HalveToFit(text, target, FirstKeep(text, target)) == FirstKeep(text, target)
  {
    if MARKER_TOKENS <= target {
      FirstCandidateFits(text, target);
    }
  }

  lemma CharsLand(text: string, target: nat)
    requires |Lines(text)| < 8 && 0 < target < EstimateTokens(text)
    ensures EstimateTokens(MiddleCut(text, target)) <= target <==> Lands(text, target)
  {
    hide Marker, Lines;
    NothingIsEverHalved(text, target);
    assert |CharCut(text, FirstKeep(text, target))| == FirstKeep(text, target) + MARKER_CHARS;
  }

  lemma FirstLineIsKept(lines: seq<string>, k: nat)
    requires 0 < k <= |lines|
    ensures |lines[0]| <= |LineCut(lines, k)|
  {
    hide Marker;
    assert lines[..(k + 1) / 2][0] == lines[0];
  }

  lemma LinesLand(text: string, target: nat)
    requires |Lines(text)| >= 8 && 0 < target < EstimateTokens(text)
    ensures EstimateTokens(MiddleCut(text, target)) <= target <==> Lands(text, target)
  {
    hide Marker, Lines, LineCut, EstimateTokens;
    var lines := Lines(text);
    var k := LargestFit(lines, target, |lines| - 1);
    if k > 0 {
      FirstLineIsKept(lines, k);
      EstimateMonotone(lines[0], LineCut(lines, k));
    }
  }

  /** A text over its target is cut to the target exactly when `Lands` says so. */
  lemma CutLandsExactlyWhen(text: string, target: nat)
    requires 0 < target < EstimateTokens(text)
    ensures EstimateTokens(MiddleCut(text, target)) <= target <==> Lands(text, target)
  {
    hide Lands, MiddleCut, EstimateTokens, Lines;
    if |Lines(text)| < 8 {
      CharsLand(text, target);
    } else {
      LinesLand(text, target);
    }
  }

  /** From 25 tokens up the character path always lands. */
  lemma RoomyCharCutLands(text: string, target: nat)
    requires |Lines(text)| < 8 && 25 <= target < EstimateTokens(text)
    ensures EstimateTokens(MiddleCut(text, target)) <= target
  {
    hide Lines, MiddleCut;
    CutLandsExactlyWhen(text, target);
  }

  // ----- achievable targets that are missed

  function Blob(n: nat): (s: string)
    ensures |s| == n && (n > 0 ==> s[0] == 'x') && '\n' !in s
  {
    seq(n, _ => 'x')
  }

  /** 69 characters on one line, target 20: returned whole, at 21 tokens. */
  lemma ShortBlobOvershoots()
    ensures var text := Blob(69);
            MARKER_TOKENS <= 20 && EstimateTokens(MiddleCut(text, 20)) > 20
  {
    hide MiddleCut, Lines;
    SingleLine(Blob(69));
    CutLandsExactlyWhen(Blob(69), 20);
  }

  lemma {:induction false} BlankLines(n: nat)
    ensures |Lines(seq(n, _ => '\n'))| == n
  {
    if n > 0 {
      BlankLines(n - 1);
      LinesCons([], seq(n - 1, _ => '\n'));
      assert [] + ("\n" + seq(n - 1, _ => '\n')) == seq(n, _ => '\n');
    }
  }

  /** A first line of 200 characters above 7 blank ones, target 20: the line is
    * returned whole, at 59 tokens.
    */
  lemma LongFirstLineOvershoots()
    ensures var text := Blob(200) + ("\n" + seq(7, _ => '\n'));
            EstimateTokens(MiddleCut(text, 20)) > 20
  {
    hide MiddleCut, Lines;
    var rest := seq(7, _ => '\n');
    BlankLines(7);
    LinesCons(Blob(200), rest);
    CutLandsExactlyWhen(Blob(200) + ("\n" + rest), 20);
  }
}
