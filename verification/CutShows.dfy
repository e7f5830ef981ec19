/** Which lines of an observation a cut shows, and where its notes stand. */
module CutShows {
  import opened Basics
  import opened Observation
  import opened TextTrim
  import opened TruncateObservation

  /** How many lines look like errors. */
  ghost function ErrorLines(lines: seq<string>): nat {
    |set i: nat | i < |lines| && LooksLikeError(lines[i])|
  }

  /** After line `prev` the next line follows, or a note on how many lines come in between. */
  ghost predicate Continues(r: seq<Piece>, prev: nat, total: nat, errorsFirst: bool) {
    if r == [] then prev + 1 == total
    else if r[0].Kept? then
      r[0].line == prev + 1 < total && Continues(r[1..], prev + 1, total, errorsFirst)
    else
      && r[0].count > 0 && r[0].Skipped? == errorsFirst
      && if |r| == 1 then prev + 1 + r[0].count == total
         else r[1].Kept? && r[1].line == prev + 1 + r[0].count < total && Continues(r[2..], r[1].line, total, errorsFirst)
  }

  /** The lines shown are the only ones without a note, but for those before the first. */
  ghost predicate NotesEveryGap(r: seq<Piece>, total: nat, errorsFirst: bool) {
    r != [] && r[0].Kept? && Continues(r[1..], r[0].line, total, errorsFirst)
  }

  lemma ErrorsCounted(lines: seq<string>)
    ensures ErrorsIn(ErrorFlags(lines), 0) == ErrorLines(lines)
  {
    var flags := ErrorFlags(lines);
    SelectedCount(flags, 0, 0);
    KeepSetSize(flags, 0);
    hide ErrorsIn, Selected, LooksLikeError;
    assert KeepSet(flags, 0) == set i: nat | i < |lines| && LooksLikeError(lines[i]);
  }

  /** Errors come first when there are some and all of them fit: then they are shown,
    * with at most two first lines for which there is room. Otherwise the first half
    * of the room, rounded up, shows the start, and the rest the end.
    */
  lemma ShownExactly(lines: seq<string>, maxLines: nat, prioritizeErrors: bool)
    requires 0 < maxLines < |lines|
    ensures var r, n := Cut(lines, maxLines, prioritizeErrors), ErrorLines(lines);
            var errorsFirst := prioritizeErrors && 0 < n <= maxLines;
            && NotesEveryGap(r, |lines|, errorsFirst) && Ascending(Shown(r))
            && forall i: nat ::
                 i in Shown(r) <==>
                   && i < |lines|
                   && if errorsFirst then i < Min(2, maxLines - n) || LooksLikeError(lines[i])
                      else i < (maxLines + 1) / 2 || i >= |lines| - maxLines / 2
  {
    var flags := ErrorFlags(lines);
    ErrorsCounted(lines);
    hide LooksLikeError, ErrorsIn, ErrorLines, HeadTail, ErrorFocused, Shown, Ascending, NotesEveryGap;
    if FocusesOnErrors(flags, maxLines, prioritizeErrors) {
      FocusShows(flags, maxLines);
    } else {
      HeadTailShows(|lines|, maxLines);
    }
  }

  lemma FocusShows(flags: seq<bool>, maxLines: nat)
    requires 0 < ErrorsIn(flags, 0) <= maxLines
    ensures var r := ErrorFocused(flags, maxLines);
            && NotesEveryGap(r, |flags|, true) && Ascending(Shown(r))
            && forall i: nat ::
                 i in Shown(r) <==> i < |flags| && (i < Min(2, maxLines - ErrorsIn(flags, 0)) || flags[i])
  {
    var head := HeadLines(ErrorsIn(flags, 0), maxLines);
    assert head == Min(2, maxLines - ErrorsIn(flags, 0));
    var kept := Selected(flags, head, 0);
    hide *;
    FocusConserves(flags, maxLines);
    SelectedMeaning(flags, head, 0);
    FocusStarts(flags, maxLines, kept);
    FocusContinues(kept, |flags|);
  }

  lemma FocusStarts(flags: seq<bool>, maxLines: nat, kept: seq<nat>)
    requires kept == Selected(flags, HeadLines(ErrorsIn(flags, 0), maxLines), 0) && kept != []
    ensures ErrorFocused(flags, maxLines) == [Kept(kept[0])] + WithGaps(kept[1..], kept[0], |flags|)
  {
    hide Selected, HeadLines, ErrorsIn, WithGaps;
    FirstKept(kept, |flags|);
  }

  lemma FirstKept(kept: seq<nat>, total: nat)
    requires kept != []
    ensures WithGaps(kept, -1, total) == [Kept(kept[0])] + WithGaps(kept[1..], kept[0], total)
  {
    assert GapBefore(-1, kept[0]) == [] && [] + [Kept(kept[0])] == [Kept(kept[0])];
  }

  lemma FocusContinues(kept: seq<nat>, total: nat)
    requires kept != [] && Ascending(kept) && forall k :: 0 <= k < |kept| ==> kept[k] < total
    ensures NotesEveryGap([Kept(kept[0])] + WithGaps(kept[1..], kept[0], total), total, true)
  {
    AscendingFrom(kept);
    hide Ascending;
    GapsContinue(kept[1..], kept[0], total);
    hide WithGaps, Continues;
    assert ([Kept(kept[0])] + WithGaps(kept[1..], kept[0], total))[1..] == WithGaps(kept[1..], kept[0], total);
  }

  lemma AscendingFrom(s: seq<nat>)
    requires s != [] && Ascending(s)
    ensures Ascending(s[1..]) && forall k :: 0 <= k < |s| - 1 ==> s[0] < s[1..][k]
  {
  }

  lemma {:induction false} GapsContinue(kept: seq<nat>, prev: nat, total: nat)
    requires prev < total && Ascending(kept) && forall k :: 0 <= k < |kept| ==> prev < kept[k] < total
    ensures Continues(WithGaps(kept, prev, total), prev, total, true)
    decreases |kept|
  {
    if kept == [] {
    } else {
      AscendingFrom(kept);
      GapsContinue(kept[1..], kept[0], total);
      hide WithGaps, Ascending;
      var rest := WithGaps(kept[1..], kept[0], total);
      WithGapsCons(kept, prev, total);
      if prev + 1 < kept[0] {
        assert ([Skipped(kept[0] - prev - 1)] + [Kept(kept[0])] + rest)[2..] == rest;
      } else {
        assert ([Kept(kept[0])] + rest)[1..] == rest;
      }
    }
  }

  lemma WithGapsCons(kept: seq<nat>, prev: nat, total: nat)
    requires kept != [] && prev < kept[0]
    ensures WithGaps(kept, prev, total)
         == if prev + 1 < kept[0] then [Skipped(kept[0] - prev - 1)] + [Kept(kept[0])] + WithGaps(kept[1..], kept[0], total)
            else [Kept(kept[0])] + WithGaps(kept[1..], kept[0], total)
  {
    assert [] + [Kept(kept[0])] == [Kept(kept[0])];
  }

  // ----- head and tail

  lemma HeadTailShows(total: nat, maxLines: nat)
    requires 0 < maxLines < total
    ensures var r := HeadTail(total, maxLines);
            && NotesEveryGap(r, total, false) && Ascending(Shown(r))
            && forall i: nat :: i in Shown(r) <==> i < total && (i < (maxLines + 1) / 2 || i >= total - maxLines / 2)
  {
    var head: nat, tail: nat := (maxLines + 1) / 2, maxLines / 2;
    HeadTailKeeps(total, maxLines);
    HeadTailParts(total, maxLines, head, tail);
    hide HeadTail, Shown, Announced;
    TwoRunsHold(Shown(HeadTail(total, maxLines)), head, tail, total);
    HeadTailContinues(total, head, tail);
  }

  lemma TwoRunsHold(s: seq<nat>, head: nat, tail: nat, total: nat)
    requires head + tail <= total && |s| == head + tail
    requires forall i :: 0 <= i < |s| ==> s[i] == if i < head then i else total - head - tail + i
    ensures forall i: nat :: i in s <==> i < total && (i < head || i >= total - tail)
  {
    forall i: nat | i < total && (i < head || i >= total - tail) ensures i in s {
      assert s[if i < head then i else i - (total - head - tail)] == i;
    }
  }

  lemma HeadTailContinues(total: nat, head: nat, tail: nat)
    requires 0 < head && head + tail < total
    ensures NotesEveryGap(KeptRange(0, head) + [Omitted(total - head - tail)] + KeptRange(total - tail, total), total, false)
  {
    var note, last := [Omitted(total - head - tail)], KeptRange(total - tail, total);
    NoteContinues(total, head, tail);
    RangeContinues(1, head, note + last, total);
    hide Continues;
    assert (KeptRange(0, head) + note + last)[1..] == KeptRange(1, head) + (note + last);
  }

  lemma NoteContinues(total: nat, head: nat, tail: nat)
    requires 0 < head && head + tail < total
    ensures Continues([Omitted(total - head - tail)] + KeptRange(total - tail, total), head - 1, total, false)
  {
    var note, last := [Omitted(total - head - tail)], KeptRange(total - tail, total);
    if tail > 0 {
      RangeContinues(total - tail + 1, total, [], total);
      assert (note + last)[2..] == KeptRange(total - tail + 1, total) + [];
    }
  }

  lemma {:induction false} RangeContinues(a: nat, b: nat, rest: seq<Piece>, total: nat)
    requires 0 < a <= b <= total && Continues(rest, b - 1, total, false)
    ensures Continues(KeptRange(a, b) + rest, a - 1, total, false)
    decreases b - a
  {
    if a == b {
      assert KeptRange(a, b) + rest == rest;
    } else {
      RangeContinues(a + 1, b, rest, total);
      assert (KeptRange(a, b) + rest)[1..] == KeptRange(a + 1, b) + rest;
    }
  }

  // ----- which lines look like errors

  const ERROR_WORDS := ["error", "fail", "panic", "exception", "traceback", "assert", "fatal", "\U{2717}"]

  /** One of the words stands somewhere in the line, whatever the case. */
  lemma ErrorLineExactly(line: string)
    ensures LooksLikeError(line) <==> exists k, i :: 0 <= k < |ERROR_WORDS| && OccursAt(LowerAll(line), ERROR_WORDS[k], i)
  {
    var l := LowerAll(line);
    hide LowerAll, Contains, OccursAt;
    forall k | 0 <= k < |ERROR_WORDS| ensures Contains(l, ERROR_WORDS[k]) <==> exists i :: OccursAt(l, ERROR_WORDS[k], i) {
      ContainsMeans(l, ERROR_WORDS[k]);
    }
    WordByWord(line);
  }

  lemma WordByWord(line: string)
    ensures LooksLikeError(line) <==> exists k :: 0 <= k < |ERROR_WORDS| && Contains(LowerAll(line), ERROR_WORDS[k])
  {
    var l := LowerAll(line);
    hide LowerAll, Contains;
    assert Contains(l, ERROR_WORDS[0]) || Contains(l, ERROR_WORDS[1]) || Contains(l, ERROR_WORDS[2]) || Contains(l, ERROR_WORDS[3])
        || Contains(l, ERROR_WORDS[4]) || Contains(l, ERROR_WORDS[5]) || Contains(l, ERROR_WORDS[6]) || Contains(l, ERROR_WORDS[7])
        <==> LooksLikeError(line);
  }
}
