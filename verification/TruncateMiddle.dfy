/** Cutting the middle out of a text so that it costs about a given number of
  * tokens: the one step the prompt budgeter shrinks an oversized segment with.
  */
module TruncateMiddle {
  import opened Basics
  import opened TextLines
  import opened Tokens

  function Marker(): (m: string)
    ensures |m| == MARKER_CHARS
  {
    "\n\U{2026} (file truncated" + " in the middle to fit" + " the context window) \U{2026}\n"
  }

  // The sizes `MarkerSizes` proves. The code uses the BYTE length of the marker
  // where it compares against a number of characters.
  const MARKER_BYTES: nat := 66
  const MARKER_CHARS: nat := 62
  const MARKER_TOKENS: nat := 19

  /** Bytes of one character in UTF-8. */
  function Utf8Len(c: char): nat {
    if c as int < 0x80 then 1 else if c as int < 0x800 then 2 else if c as int < 0x10000 then 3 else 4
  }

  /** Bytes of the first `n` characters. */
  function ByteLen(s: string, n: nat): nat
    requires n <= |s|
  {
    if n == 0 then 0 else ByteLen(s, n - 1) + Utf8Len(s[n - 1])
  }

  lemma {:induction false} AsciiBytes(s: string, m: nat, n: nat)
    requires m <= n <= |s|
    requires forall i :: m <= i < n ==> s[i] as int < 0x80
    ensures ByteLen(s, n) == ByteLen(s, m) + n - m
  {
    if m < n {
      AsciiBytes(s, m, n - 1);
    }
  }

  /** A text of the marker's shape: four ASCII-framed stretches. */
  lemma FramedBytes(s: string)
    requires |s| == 62 && s[0] == s[61] == '\n' && s[1] == s[60] == '\U{2026}'
    requires forall i :: 2 <= i < 60 ==> s[i] as int < 0x80
    ensures ByteLen(s, 62) == 66
  {
    AsciiBytes(s, 0, 1);
    AsciiBytes(s, 2, 60);
    AsciiBytes(s, 61, 62);
    assert ByteLen(s, 2) == ByteLen(s, 1) + 3 && ByteLen(s, 61) == ByteLen(s, 60) + 3;
  }

  lemma MarkerIsFramed(m: string)
    requires m == Marker()
    ensures m[0] == m[61] == '\n' && m[1] == m[60] == '\U{2026}'
    ensures forall i :: 2 <= i < 60 ==> m[i] as int < 0x80
  {
  }

  lemma MarkerSizes(m: string)
    requires m == Marker()
    ensures ByteLen(m, |m|) == MARKER_BYTES
    ensures EstimateTokens(m) == MARKER_TOKENS
  {
    MarkerIsFramed(m);
    hide Marker;
    FramedBytes(m);
  }

  // ----- what is kept

  /** The first `(k + 1) / 2` lines and the last `k / 2`, around the marker. */
  function LineCut(lines: seq<string>, k: nat): string
    requires k <= |lines|
  {
    Join(lines[..(k + 1) / 2], "\n") + Marker() + Join(lines[|lines| - k / 2..], "\n")
  }

  predicate LineCutFits(lines: seq<string>, k: nat, target: nat)
    requires k <= |lines|
  {
    EstimateTokens(LineCut(lines, k)) <= target
  }

  /** The first `keep / 2` characters and the last `keep - keep / 2`. */
  function CharCut(text: string, keep: nat): string
    requires keep <= |text|
  {
    text[..keep / 2] + Marker() + text[|text| - (keep - keep / 2)..]
  }

  /** The largest number of lines, `k` at most, whose cut fits; 0 if none. */
  function LargestFit(lines: seq<string>, target: nat, k: nat): (r: nat)
    requires k <= |lines|
    ensures r <= k
    ensures r > 0 ==> LineCutFits(lines, r, target)
    ensures forall j :: r < j <= k ==> !LineCutFits(lines, j, target)
  {
    if k == 0 || LineCutFits(lines, k, target) then k else LargestFit(lines, target, k - 1)
  }

  /** Halve `keep` until the measured cut fits, or nothing is kept. */
  function HalveToFit(text: string, target: nat, keep: nat): (r: nat)
    requires keep <= |text|
    ensures r <= keep
    ensures r > 0 ==> EstimateTokens(CharCut(text, r)) <= target
  {
    if keep == 0 || EstimateTokens(CharCut(text, keep)) <= target then keep
    else HalveToFit(text, target, keep / 2)
  }

  /** Characters the character-level cut starts from. */
  function FirstKeep(text: string, target: nat): (k: nat)
    ensures k <= |text|
  {
    Min(SaturatingSub(target, MARKER_TOKENS) * 3, |text|)
  }

  /** What `truncate_middle` returns. */
  function MiddleCut(text: string, target: nat): string {
    var lines := Lines(text);
    if EstimateTokens(text) <= target || target == 0 then text
    else if |lines| < 8 then
      var keep := FirstKeep(text, target);
      if keep + MARKER_BYTES >= |text| then text
      else CharCut(text, HalveToFit(text, target, keep))
    else
      var k := LargestFit(lines, target, |lines| - 1);
      if k == 0 then lines[0] else LineCut(lines, k)
  }

  // ----- monotonicity of the line cut

  lemma LineCutGrows(lines: seq<string>, k: nat)
    requires k < |lines|
    ensures |LineCut(lines, k)| <= |LineCut(lines, k + 1)|
  {
    if k % 2 == 0 {
      JoinGrowsRight(lines, "\n", k / 2);
    } else {
      JoinGrowsLeft(lines, "\n", |lines| - k / 2 - 1);
    }
  }

  lemma {:induction false} NoLargerFits(lines: seq<string>, target: nat, k: nat, j: nat)
    requires k <= j <= |lines| && !LineCutFits(lines, k, target)
    ensures !LineCutFits(lines, j, target)
    decreases j - k
  {
    if k < j {
      LineCutGrows(lines, k);
      EstimateMonotone(LineCut(lines, k), LineCut(lines, k + 1));
      NoLargerFits(lines, target, k + 1, j);
    }
  }

  /** Growing one line at a time and stopping at the first misfit finds the
    * largest fit of all.
    */
  lemma {:induction false} FirstMisfitIsLargest(lines: seq<string>, target: nat, k: nat, m: nat)
    requires k <= m < |lines|
    requires k == 0 || LineCutFits(lines, k, target)
    requires k < m ==> !LineCutFits(lines, k + 1, target)
    ensures LargestFit(lines, target, m) == k
  {
    if k < m {
      NoLargerFits(lines, target, k + 1, m);
      if k + 1 < m {
        FirstMisfitIsLargest(lines, target, k, m - 1);
      }
    }
  }

  /** The character path: halve what is kept until the measured candidate fits. */
  method TruncateChars(text: string, target: nat) returns (r: string)
    ensures r == if FirstKeep(text, target) + MARKER_BYTES >= |text| then text
                 else CharCut(text, HalveToFit(text, target, FirstKeep(text, target)))
  {
    hide Marker, EstimateTokens;
    var contentTokens := SaturatingSub(target, MARKER_TOKENS);
    var keep: nat := Min(contentTokens * 3, |text|);
    if keep + MARKER_BYTES >= |text| {
      return text;
    }
    r := CharCut(text, keep);
    while keep != 0 && EstimateTokens(r) > target
      invariant keep <= |text| && r == CharCut(text, keep)
      invariant HalveToFit(text, target, keep) == HalveToFit(text, target, FirstKeep(text, target))
      decreases keep
    {
      keep := keep / 2;
      var half := keep / 2;
      r := text[..half] + Marker() + text[|text| - (keep - half)..];
    }
  }

  lemma CutAt(lines: seq<string>, head: nat, tail: nat)
    requires tail <= head <= tail + 1 && head + tail <= |lines|
    ensures LineCut(lines, head + tail)
         == Join(lines[..head], "\n") + Marker() + Join(lines[|lines| - tail..], "\n")
  {
  }

  /** The line path: grow head and tail by turns until the next line would not fit. */
  method TruncateLines(lines: seq<string>, target: nat) returns (r: string)
    requires |lines| > 0
    ensures r == var k := LargestFit(lines, target, |lines| - 1);
                 if k == 0 then lines[0] else LineCut(lines, k)
  {
    hide Marker, EstimateTokens, LineCut, LargestFit;
    var head, tail := 0, 0;
    while true
      invariant tail <= head <= tail + 1
      invariant head + tail < |lines|
      invariant head + tail > 0 ==> LineCutFits(lines, head + tail, target)
      decreases |lines| - head - tail
    {
      var nh, nt := head, tail;
      if head <= tail {
        nh := head + 1;
      } else {
        nt := tail + 1;
      }
      if nh + nt >= |lines| {
        break;
      }
      CutAt(lines, nh, nt);
      var candidate := Join(lines[..nh], "\n") + Marker() + Join(lines[|lines| - nt..], "\n");
      if EstimateTokens(candidate) > target {
        break;
      }
      head, tail := nh, nt;
    }
    FirstMisfitIsLargest(lines, target, head + tail, |lines| - 1);
    if head == 0 && tail == 0 {
      return Join(lines[..Min(|lines|, 1)], "\n");
    }
    CutAt(lines, head, tail);
    return Join(lines[..head], "\n") + Marker() + Join(lines[|lines| - tail..], "\n");
  }

  method Truncate(text: string, target: nat) returns (r: string)
    ensures r == MiddleCut(text, target)
  {
    if EstimateTokens(text) <= target || target == 0 {
      return text;
    }
    var lines := Lines(text);
    if |lines| < 8 {
      r := TruncateChars(text, target);
    } else {
      r := TruncateLines(lines, target);
    }
  }
}
