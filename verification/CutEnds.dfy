/** What the middle cut leaves of a text: its start and its end, around the marker. */
module CutEnds {
  import opened Basics
  import opened TextLines
  import opened Tokens
  import opened TruncateMiddle
  import opened CutTarget

  /** `p` starts the text and `q` ends it. */
  predicate EndsOf(text: string, p: string, q: string) {
    |p| + |q| < |text| && p == text[..|p|] && q == text[|text| - |q|..]
  }

  /** A text that is over its target and has fewer than 8 lines: three characters
    * are kept for each token that the marker leaves, from both ends alike, unless
    * that is nearly all of it.
    */
  lemma CharCutKeepsTheEnds(text: string, target: nat) returns (p: string, q: string)
    requires |Lines(text)| < 8 && 0 < target < EstimateTokens(text)
    ensures var keep := 3 * SaturatingSub(target, EstimateTokens(Marker()));
            if keep + ByteLen(Marker(), MARKER_CHARS) >= |text| then MiddleCut(text, target) == text
            else
              && MiddleCut(text, target) == p + Marker() + q && EndsOf(text, p, q)
              && |p| + |q| == keep && |p| <= |q| <= |p| + 1
  {
    var keep := FirstKeep(text, target);
    p, q := text[..keep / 2], text[|text| - (keep - keep / 2)..];
    KeptCharacters(text, target);
    hide *;
    MarkerSizes(Marker());
    NothingIsEverHalved(text, target);
    CharCase(text, target);
    if keep + MARKER_BYTES < |text| {
      CharCutParts(text, keep);
    }
  }

  lemma KeptCharacters(text: string, target: nat)
    ensures var keep := 3 * SaturatingSub(target, MARKER_TOKENS);
            FirstKeep(text, target) == if keep <= |text| then keep else |text|
  {
  }

  lemma CharCase(text: string, target: nat)
    requires |Lines(text)| < 8 && 0 < target < EstimateTokens(text)
    ensures MiddleCut(text, target)
         == var keep := FirstKeep(text, target);
            if keep + MARKER_BYTES >= |text| then text else CharCut(text, HalveToFit(text, target, keep))
  {
    hide Lines, EstimateTokens, CharCut, HalveToFit, FirstKeep;
  }

  lemma CharCutParts(text: string, keep: nat)
    requires keep < |text|
    ensures var p, q := text[..keep / 2], text[|text| - (keep - keep / 2)..];
            && CharCut(text, keep) == p + Marker() + q && EndsOf(text, p, q)
            && |p| + |q| == keep && |p| <= |q| <= |p| + 1
  {
    hide Marker;
  }

  /** The first `i` lines and the last `j`, around the marker. */
  function EndLines(lines: seq<string>, i: nat, j: nat): string
    requires i <= |lines| && j <= |lines|
  {
    Join(lines[..i], "\n") + Marker() + Join(lines[|lines| - j..], "\n")
  }

  predicate Balanced(lines: seq<string>, i: nat, j: nat) {
    j <= i <= j + 1 && i + j < |lines|
  }

  /** A longer text that is over its target: as many lines from both ends alike as
    * fit, and the first line alone if not even that fits.
    */
  lemma LineCutKeepsTheEnds(text: string, target: nat) returns (i: nat, j: nat)
    requires |Lines(text)| >= 8 && 0 < target < EstimateTokens(text)
    ensures Balanced(Lines(text), i, j)
    ensures if i == 0 then MiddleCut(text, target) == Lines(text)[0]
            else MiddleCut(text, target) == EndLines(Lines(text), i, j) && EstimateTokens(EndLines(Lines(text), i, j)) <= target
    ensures forall i': nat, j': nat :: Balanced(Lines(text), i', j') && i + j < i' + j' ==>
              EstimateTokens(EndLines(Lines(text), i', j')) > target
  {
    hide MiddleCut, LineCut, LargestFit, EndLines, Lines, EstimateTokens;
    var lines := Lines(text);
    var k := LineCase(text, target);
    i, j := (k + 1) / 2, k / 2;
    HalvesBalance(lines, k);
    CutIsEndLines(lines, i, j);
    forall i': nat, j': nat | Balanced(lines, i', j') && i + j < i' + j'
      ensures EstimateTokens(EndLines(lines, i', j')) > target {
      MoreLinesMisfit(lines, target, i', j');
    }
  }

  lemma HalvesBalance(lines: seq<string>, k: nat)
    requires k < |lines|
    ensures Balanced(lines, (k + 1) / 2, k / 2) && (k + 1) / 2 + k / 2 == k && ((k + 1) / 2 == 0 <==> k == 0)
  {
  }

  lemma LineCase(text: string, target: nat) returns (k: nat)
    requires |Lines(text)| >= 8 && 0 < target < EstimateTokens(text)
    ensures k < |Lines(text)| && k == LargestFit(Lines(text), target, |Lines(text)| - 1)
    ensures MiddleCut(text, target) == if k == 0 then Lines(text)[0] else LineCut(Lines(text), k)
    ensures k > 0 ==> EstimateTokens(LineCut(Lines(text), k)) <= target
  {
    hide Lines, EstimateTokens, LineCut;
    k := LargestFit(Lines(text), target, |Lines(text)| - 1);
  }

  lemma MoreLinesMisfit(lines: seq<string>, target: nat, i: nat, j: nat)
    requires Balanced(lines, i, j) && LargestFit(lines, target, |lines| - 1) < i + j
    ensures EstimateTokens(EndLines(lines, i, j)) > target
  {
    hide Marker, EstimateTokens, LargestFit, LineCut, EndLines;
    CutIsEndLines(lines, i, j);
    assert !LineCutFits(lines, i + j, target);
  }

  lemma CutIsEndLines(lines: seq<string>, i: nat, j: nat)
    requires Balanced(lines, i, j)
    ensures LineCut(lines, i + j) == EndLines(lines, i, j)
  {
    hide Marker, Join;
    CutAt(lines, i, j);
  }

  /** Nothing else is touched. */
  lemma FittingTextIsKept(text: string, target: nat)
    ensures EstimateTokens(text) <= target || target == 0 ==> MiddleCut(text, target) == text
  {
  }
}
