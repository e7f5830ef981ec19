/** Truncating an observation: the loops, and what every cut conserves. */
module TruncateObservation {
  import opened Decimal
  import opened TextLines
  import opened TextTrim
  import opened Observation

  // ----- the operations

  lemma TextsConcat(lines: seq<string>, a: seq<Piece>, b: seq<Piece>)
    requires InRange(a + b, |lines|)
    ensures InRange(a, |lines|) && InRange(b, |lines|)
    ensures Texts(lines, a + b) == Texts(lines, a) + Texts(lines, b)
  {
    forall i | 0 <= i < |a| ensures a[i].Kept? ==> a[i].line < |lines| {
      assert (a + b)[i] == a[i];
    }
    forall i | 0 <= i < |b| ensures b[i].Kept? ==> b[i].line < |lines| {
      assert (a + b)[|a| + i] == b[i];
    }
    hide PieceText;
  }

  lemma TextsOfRange(lines: seq<string>, a: nat, b: nat)
    requires a <= b <= |lines|
    ensures InRange(KeptRange(a, b), |lines|) && Texts(lines, KeptRange(a, b)) == lines[a..b]
  {
  }

  lemma TextsOfNote(lines: seq<string>, p: Piece)
    requires !p.Kept?
    ensures InRange([p], |lines|) && Texts(lines, [p]) == [PieceText(lines, p)]
  {
    hide PieceText;
  }

  method HeadTailRun(lines: seq<string>, maxLines: nat) returns (r: string)
    requires maxLines <= |lines|
    ensures r == Render(lines, HeadTail(|lines|, maxLines))
  {
    hide PieceText, Texts, InRange, KeptRange;
    var head: nat, tail: nat := (maxLines + 1) / 2, maxLines - (maxLines + 1) / 2;
    var omitted := |lines| - head - tail;
    var note := "\U{2026} [" + Digits(omitted) + " line(s) truncated] \U{2026}";
    HeadTailTexts(lines, maxLines, head, tail, note) by { hide *; NoteText(lines, omitted); }
    var out := lines[..head];
    out := out + [note];
    out := out + lines[|lines| - tail..];
    r := Join(out, "\n");
  }

  lemma NoteText(lines: seq<string>, n: nat)
    ensures PieceText(lines, Omitted(n)) == "\U{2026} [" + Digits(n) + " line(s) truncated] \U{2026}"
  {
  }

  lemma HeadTailTexts(lines: seq<string>, maxLines: nat, head: nat, tail: nat, note: string)
    requires maxLines <= |lines| && head == (maxLines + 1) / 2 && tail == maxLines - head
    requires note == PieceText(lines, Omitted(|lines| - head - tail))
    ensures Texts(lines, HeadTail(|lines|, maxLines)) == lines[..head] + [note] + lines[|lines| - tail..]
  {
    var a, p, b := KeptRange(0, head), Omitted(|lines| - head - tail), KeptRange(|lines| - tail, |lines|);
    assert HeadTail(|lines|, maxLines) == a + [p] + b;
    hide PieceText, Texts, InRange, KeptRange;
    TextsConcat(lines, a + [p], b);
    TextsConcat(lines, a, [p]);
    TextsOfRange(lines, 0, head);
    TextsOfRange(lines, |lines| - tail, |lines|);
    TextsOfNote(lines, p);
    assert lines[0..head] == lines[..head] && lines[|lines| - tail..|lines|] == lines[|lines| - tail..];
  }

  /** The indices of the error lines. */
  method ErrorIndices(lines: seq<string>) returns (r: seq<nat>)
    ensures r == Selected(ErrorFlags(lines), 0, 0)
    ensures |r| == ErrorsIn(ErrorFlags(lines), 0)
  {
    hide LooksLikeError;
    var flags := ErrorFlags(lines);
    r := [];
    for i := 0 to |lines|
      invariant r + Selected(flags, 0, i) == Selected(flags, 0, 0)
    {
      if LooksLikeError(lines[i]) {
        r := r + [i];
      }
    }
    SelectedCount(flags, 0, 0);
  }

  /** Lines the error-focused cut keeps. */
  function KeepSet(flags: seq<bool>, head: nat): set<nat> {
    set i: nat | 0 <= i < |flags| && (i < head || flags[i])
  }

  function Elements(s: seq<nat>): set<nat> { set x | x in s }

  lemma KeepSetSize(flags: seq<bool>, head: nat)
    ensures |KeepSet(flags, head)| == |Selected(flags, head, 0)|
  {
    SelectedMeaning(flags, head, 0);
    hide Selected;
    assert KeepSet(flags, head) == Elements(Selected(flags, head, 0));
    AscendingSize(Selected(flags, head, 0));
  }

  lemma ElementsStep(s: seq<nat>)
    requires s != [] && Ascending(s)
    ensures Elements(s) == Elements(s[..|s| - 1]) + {s[|s| - 1]} && s[|s| - 1] !in Elements(s[..|s| - 1])
    ensures Ascending(s[..|s| - 1])
  {
    var init, last := s[..|s| - 1], s[|s| - 1];
    assert s == init + [last];
  }

  lemma {:induction false} AscendingSize(s: seq<nat>)
    requires Ascending(s)
    ensures |Elements(s)| == |s|
  {
    if s != [] {
      ElementsStep(s);
      AscendingSize(s[..|s| - 1]);
      hide Elements;
    }
  }

  lemma {:induction false} SubsetSize(a: set<nat>, b: set<nat>)
    requires a <= b
    ensures |a| <= |b|
  {
    if x :| x in a {
      SubsetSize(a - {x}, b - {x});
    }
  }

  lemma FullSubset(a: set<nat>, b: set<nat>)
    requires a <= b && |b| <= |a|
    ensures a == b
  {
    if a != b {
      var x :| x in b && x !in a;
      assert |a + {x}| == |a| + 1;
      SubsetSize(a + {x}, b);
    }
  }

  /** The lines collected so far: the head, then error lines up to `k`. */
  ghost predicate Collecting(flags: seq<bool>, head: nat, errorIdx: seq<nat>, k: nat, keep: set<nat>) {
    && keep <= KeepSet(flags, head)
    && (forall i :: 0 <= i < head && i < |flags| ==> i in keep)
    && forall j :: 0 <= j < k && j < |errorIdx| ==> errorIdx[j] in keep
  }

  lemma CollectMore(flags: seq<bool>, head: nat, errorIdx: seq<nat>, k: nat, keep: set<nat>)
    requires errorIdx == Selected(flags, 0, 0) && k < |errorIdx| && Collecting(flags, head, errorIdx, k, keep)
    ensures Collecting(flags, head, errorIdx, k + 1, keep + {errorIdx[k]})
  {
    SelectedMeaning(flags, 0, 0);
    hide Selected;
    assert errorIdx[k] in errorIdx;
  }

  lemma CollectedAll(flags: seq<bool>, head: nat, errorIdx: seq<nat>, keep: set<nat>)
    requires errorIdx == Selected(flags, 0, 0) && Collecting(flags, head, errorIdx, |errorIdx|, keep)
    ensures keep == KeepSet(flags, head)
  {
    SelectedMeaning(flags, 0, 0);
    hide Selected;
    forall i | i in KeepSet(flags, head) ensures i in keep {
      if i >= head {
        assert i in errorIdx;
      }
    }
  }

  /** Stopping early loses nothing: there is room for every error line. */
  lemma CollectedEarly(flags: seq<bool>, head: nat, errorIdx: seq<nat>, k: nat, keep: set<nat>, maxLines: nat)
    requires Collecting(flags, head, errorIdx, k, keep) && |keep| >= maxLines
    requires head + ErrorsIn(flags, 0) <= maxLines
    ensures keep == KeepSet(flags, head)
  {
    SelectedCount(flags, head, 0);
    KeepSetSize(flags, head);
    hide KeepSet, Selected;
    FullSubset(keep, KeepSet(flags, head));
  }

  method Collect(flags: seq<bool>, errorIdx: seq<nat>, maxLines: nat) returns (keep: set<nat>)
    requires errorIdx == Selected(flags, 0, 0) && |errorIdx| == ErrorsIn(flags, 0)
    requires 0 < |errorIdx| <= maxLines < |flags|
    ensures keep == KeepSet(flags, HeadLines(ErrorsIn(flags, 0), maxLines))
  {
    hide Selected, ErrorsIn, KeepSet;
    var head := HeadLines(|errorIdx|, maxLines);
    keep := {};
    for i := 0 to head
      invariant forall x: nat :: x in keep <==> x < i
    {
      keep := keep + {i};
    }
    CollectStart(flags, head, errorIdx, keep);
    hide *;
    HeadFits(|errorIdx|, maxLines);
    for k := 0 to |errorIdx|
      invariant Collecting(flags, head, errorIdx, k, keep)
    {
      CollectMore(flags, head, errorIdx, k, keep);
      keep := keep + {errorIdx[k]};
      if |keep| >= maxLines {
        CollectedEarly(flags, head, errorIdx, k + 1, keep, maxLines);
        return;
      }
    }
    CollectedAll(flags, head, errorIdx, keep);
  }

  lemma HeadFits(errorCount: nat, maxLines: nat)
    requires errorCount <= maxLines
    ensures HeadLines(errorCount, maxLines) + errorCount <= maxLines
  {
  }

  lemma CollectStart(flags: seq<bool>, head: nat, errorIdx: seq<nat>, keep: set<nat>)
    requires head <= |flags| && forall x: nat :: x in keep <==> x < head
    ensures Collecting(flags, head, errorIdx, 0, keep)
  {
  }

  lemma SelectedStep(flags: seq<bool>, head: nat, i: nat)
    requires i < |flags|
    ensures Selected(flags, head, i) == if i in KeepSet(flags, head) then [i] + Selected(flags, head, i + 1)
                                        else Selected(flags, head, i + 1)
    ensures Selected(flags, head, |flags|) == []
  {
  }

  /** Texts still to come once the lines before `i` are out. */
  function Ahead(lines: seq<string>, head: nat, i: nat, prev: int): seq<string>
    requires i <= |lines|
  {
    var kept := Selected(ErrorFlags(lines), head, i);
    SelectedMeaning(ErrorFlags(lines), head, i);
    WithGapsInRange(kept, prev, |lines|);
    Texts(lines, WithGaps(kept, prev, |lines|))
  }

  function GapTexts(lines: seq<string>, prev: int, line: nat): seq<string> {
    if 0 <= prev && prev + 1 < line then
      ["\U{2026} [" + Digits(line - prev - 1) + " line(s) skipped] \U{2026}"]
    else []
  }

  lemma TextsOfGap(lines: seq<string>, prev: int, line: nat)
    ensures InRange(GapBefore(prev, line), |lines|)
    ensures Texts(lines, GapBefore(prev, line)) == GapTexts(lines, prev, line)
  {
  }

  lemma TextsOfKept(lines: seq<string>, prev: int, line: nat, rest: seq<Piece>)
    requires line < |lines| && InRange(rest, |lines|)
    ensures InRange(GapBefore(prev, line) + [Kept(line)] + rest, |lines|)
    ensures Texts(lines, GapBefore(prev, line) + [Kept(line)] + rest)
         == GapTexts(lines, prev, line) + [lines[line]] + Texts(lines, rest)
  {
    TextsOfGap(lines, prev, line);
    assert InRange([Kept(line)], |lines|) && Texts(lines, [Kept(line)]) == [lines[line]];
    hide PieceText, Texts, InRange, GapBefore, GapTexts;
    InRangeConcat(GapBefore(prev, line), [Kept(line)], |lines|);
    InRangeConcat(GapBefore(prev, line) + [Kept(line)], rest, |lines|);
    TextsConcat(lines, GapBefore(prev, line) + [Kept(line)], rest);
    TextsConcat(lines, GapBefore(prev, line), [Kept(line)]);
  }

  lemma AheadStep(lines: seq<string>, head: nat, i: nat, prev: int)
    requires i < |lines|
    ensures Ahead(lines, head, i, prev)
         == if i in KeepSet(ErrorFlags(lines), head) then GapTexts(lines, prev, i) + [lines[i]] + Ahead(lines, head, i + 1, i)
            else Ahead(lines, head, i + 1, prev)
  {
    var flags := ErrorFlags(lines);
    SelectedStep(flags, head, i);
    SelectedMeaning(flags, head, i + 1);
    var rest := Selected(flags, head, i + 1);
    WithGapsInRange(rest, i, |lines|);
    if i in KeepSet(flags, head) {
      var kept := [i] + rest;
      assert kept[0] == i && kept[1..] == rest;
      hide Selected, Texts, InRange, GapBefore, GapTexts, KeepSet, ErrorFlags;
      TextsOfKept(lines, prev, i, WithGaps(rest, i, |lines|));
    }
  }

  lemma AheadEnd(lines: seq<string>, head: nat, prev: int)
    ensures Ahead(lines, head, |lines|, prev) == GapTexts(lines, prev, |lines|)
  {
    TextsOfGap(lines, prev, |lines|);
    assert Selected(ErrorFlags(lines), head, |lines|) == [];
  }

  method AssembleErrorFocused(lines: seq<string>, errorIdx: seq<nat>, maxLines: nat) returns (r: string)
    requires errorIdx == Selected(ErrorFlags(lines), 0, 0) && |errorIdx| == ErrorsIn(ErrorFlags(lines), 0)
    requires 0 < |errorIdx| <= maxLines < |lines|
    ensures r == Join(Ahead(lines, HeadLines(|errorIdx|, maxLines), 0, -1), "\n")
  {
    hide *;
    var flags := ErrorFlags(lines);
    FlagsLength(lines);
    var keep := Collect(flags, errorIdx, maxLines);
    var head := HeadLines(|errorIdx|, maxLines);
    var out: seq<string> := [];
    var prev := -1;
    for i := 0 to |lines|
      invariant -1 <= prev < i
      invariant out + Ahead(lines, head, i, prev) == Ahead(lines, head, 0, -1)
    {
      AheadStep(lines, head, i, prev);
      if i in keep {
        var gap := GapTexts(lines, prev, i);
        assert out + (gap + [lines[i]] + Ahead(lines, head, i + 1, i)) == out + gap + [lines[i]] + Ahead(lines, head, i + 1, i);
        out := out + gap;
        out := out + [lines[i]];
        prev := i;
      }
    }
    AheadEnd(lines, head, prev);
    out := out + GapTexts(lines, prev, |lines|);
    r := Join(out, "\n");
  }

  lemma FlagsLength(lines: seq<string>)
    ensures |ErrorFlags(lines)| == |lines|
  {
  }

  lemma CutInRange(lines: seq<string>, maxLines: nat, prioritizeErrors: bool)
    requires maxLines <= |lines|
    ensures InRange(Cut(lines, maxLines, prioritizeErrors), |lines|)
  {
    var flags := ErrorFlags(lines);
    var head := HeadLines(ErrorsIn(flags, 0), maxLines);
    SelectedMeaning(flags, head, 0);
    WithGapsInRange(Selected(flags, head, 0), -1, |lines|);
  }

  method Truncate(text: string, maxLines: nat, prioritizeErrors: bool) returns (r: string)
    ensures var lines := Lines(text);
            if |lines| <= maxLines || maxLines == 0 then r == text
            else InRange(Cut(lines, maxLines, prioritizeErrors), |lines|)
                 && r == Render(lines, Cut(lines, maxLines, prioritizeErrors))
  {
    hide Lines, Render, Ahead, HeadTail, Selected, InRange, ErrorFlags, WithGaps, ErrorsIn;
    var lines := Lines(text);
    if |lines| <= maxLines || maxLines == 0 {
      return text;
    }
    CutInRange(lines, maxLines, prioritizeErrors);
    if prioritizeErrors {
      var errorIdx := ErrorIndices(lines);
      if errorIdx != [] && |errorIdx| <= maxLines {
        r := AssembleErrorFocused(lines, errorIdx, maxLines);
        FocusedRender(lines, maxLines);
        return;
      }
    }
    r := HeadTailRun(lines, maxLines);
  }

  lemma FocusedRender(lines: seq<string>, maxLines: nat)
    requires maxLines <= |lines| && InRange(ErrorFocused(ErrorFlags(lines), maxLines), |lines|)
    ensures Join(Ahead(lines, HeadLines(ErrorsIn(ErrorFlags(lines), 0), maxLines), 0, -1), "\n")
         == Render(lines, ErrorFocused(ErrorFlags(lines), maxLines))
  {
    hide Selected, WithGaps, Texts, ErrorFlags;
    FlagsLength(lines);
  }

  // ----- what every cut conserves

  /** The notes and the lines shown add up, but for what comes before the first
    * line shown, and at most `maxLines` source lines are shown, in order.
    */
  lemma CutConserves(lines: seq<string>, maxLines: nat, prioritizeErrors: bool)
    requires 0 < maxLines < |lines|
    ensures var r := Cut(lines, maxLines, prioritizeErrors);
            && 0 < |Shown(r)| <= maxLines && Ascending(Shown(r))
            && Shown(r)[0] + |Shown(r)| + Announced(r) == |lines|
            && (!FocusesOnErrors(ErrorFlags(lines), maxLines, prioritizeErrors) ==>
                  |Shown(r)| == maxLines && Announced(r) == |lines| - maxLines)
  {
    var flags := ErrorFlags(lines);
    if FocusesOnErrors(flags, maxLines, prioritizeErrors) {
      FocusConserves(flags, maxLines);
    } else {
      hide HeadTail, Shown, Announced, Ascending, ErrorFlags;
      HeadTailKeeps(|lines|, maxLines);
    }
  }

  lemma FocusConserves(flags: seq<bool>, maxLines: nat)
    requires 0 < ErrorsIn(flags, 0) <= maxLines
    ensures var r, kept := ErrorFocused(flags, maxLines), Selected(flags, HeadLines(ErrorsIn(flags, 0), maxLines), 0);
            && Shown(r) == kept && Ascending(kept) && 0 < |kept| <= maxLines
            && kept[0] + |kept| + Announced(r) == |flags|
  {
    hide Selected, ErrorsIn, WithGaps, Shown, Announced, Ascending;
    var n := ErrorsIn(flags, 0);
    var head := HeadLines(n, maxLines);
    SelectedMeaning(flags, head, 0);
    SelectedCount(flags, head, 0);
    ShownWithGaps(Selected(flags, head, 0), -1, |flags|);
  }

  /** When the errors fit, every one of them survives. */
  lemma EveryErrorSurvives(lines: seq<string>, maxLines: nat, i: nat)
    requires 0 < maxLines < |lines| && i < |lines| && LooksLikeError(lines[i])
    requires ErrorsIn(ErrorFlags(lines), 0) <= maxLines
    ensures i in Shown(Cut(lines, maxLines, true))
  {
    var flags := ErrorFlags(lines);
    assert flags[i];
    hide Shown, ErrorsIn, Selected, WithGaps, ErrorFlags, LooksLikeError;
    AnErrorCounts(flags, 0, i);
    FocusConserves(flags, maxLines);
    SelectedMeaning(flags, HeadLines(ErrorsIn(flags, 0), maxLines), 0);
  }

  lemma {:induction false} AnErrorCounts(flags: seq<bool>, k: nat, i: nat)
    requires k <= i < |flags| && flags[i]
    ensures ErrorsIn(flags, k) > 0
    decreases |flags| - k
  {
    if k < i {
      AnErrorCounts(flags, k + 1, i);
    }
  }

  // ----- the flag on every cut

  /** Every line that is not shown is owned up to. */
  predicate FlagsTheCut(lines: seq<string>, maxLines: nat, prioritizeErrors: bool)
    requires maxLines <= |lines|
  {
    var r := Cut(lines, maxLines, prioritizeErrors);
    |Shown(r)| + Announced(r) == |lines|
  }

  /** A cut is meant always to be flagged. It is, exactly unless the error lines
    * take up all the room and the first line is not one of them: then what was
    * cut before the first error goes unsaid.
    */
  lemma FlagsExactlyWhen(lines: seq<string>, maxLines: nat, prioritizeErrors: bool)
    requires 0 < maxLines < |lines|
    ensures FlagsTheCut(lines, maxLines, prioritizeErrors)
       <==> !prioritizeErrors || ErrorsIn(ErrorFlags(lines), 0) != maxLines || LooksLikeError(lines[0])
  {
    var flags := ErrorFlags(lines);
    assert flags[0] == LooksLikeError(lines[0]);
    hide Shown, Announced, ErrorsIn, WithGaps, ErrorFlags, LooksLikeError, HeadTail, Selected;
    if FocusesOnErrors(flags, maxLines, prioritizeErrors) {
      FocusConserves(flags, maxLines);
      FirstShown(flags, maxLines);
    } else {
      HeadTailKeeps(|lines|, maxLines);
    }
  }

  lemma FirstShown(flags: seq<bool>, maxLines: nat)
    requires 0 < ErrorsIn(flags, 0) <= maxLines
    ensures var kept := Selected(flags, HeadLines(ErrorsIn(flags, 0), maxLines), 0);
            flags != [] && kept != [] && (kept[0] == 0 <==> ErrorsIn(flags, 0) != maxLines || flags[0])
  {
    var head := HeadLines(ErrorsIn(flags, 0), maxLines);
    SelectedMeaning(flags, head, 0);
    SelectedCount(flags, head, 0);
    hide ErrorsIn;
    assert Selected(flags, head, 0) == (if 0 < head || flags[0] then [0] else []) + Selected(flags, head, 1);
    SelectedMeaning(flags, head, 1);
  }

  /** Two lines cut to one: the first is dropped and nothing says so. */
  lemma AnUnflaggedCut()
    ensures !FlagsTheCut(["ok", "error"], 1, true)
  {
    var lines := ["ok", "error"];
    assert LooksLikeError("error") && !LooksLikeError("ok") by {
      OkIsNoError();
    }
    hide LooksLikeError;
    var flags := ErrorFlags(lines);
    assert flags == [false, true];
    assert ErrorsIn(flags, 2) == 0 && ErrorsIn(flags, 1) == 1;
    FlagsExactlyWhen(lines, 1, true);
  }

  lemma {:induction false} ShortContains(s: string, q: string)
    requires |s| < |q|
    ensures !Contains(s, q)
  {
    if s != [] {
      ShortContains(s[1..], q);
    }
  }

  lemma {:induction false} SingleContains(s: string, c: char)
    ensures Contains(s, [c]) <==> c in s
  {
    if s != [] {
      SingleContains(s[1..], c);
      assert [c] <= s <==> s[0] == c by {
        assert s[..1] == [s[0]];
      }
    }
  }

  lemma OkIsNoError()
    ensures LooksLikeError("error") && !LooksLikeError("ok")
  {
    var ok := LowerAll("ok");
    assert LowerAll("error") == "error" && ok == "ok";
    ShortContains(ok, "error");
    ShortContains(ok, "fail");
    ShortContains(ok, "panic");
    ShortContains(ok, "exception");
    ShortContains(ok, "traceback");
    ShortContains(ok, "assert");
    ShortContains(ok, "fatal");
    SingleContains(ok, '\U{2717}');
  }
}
