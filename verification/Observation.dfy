/** Squeezing a tool's output to a number of lines. */
module Observation {
  import opened Basics
  import opened Decimal
  import opened TextLines
  import opened TextTrim

  /** A line of the output: one of the source, or a note on what was cut. */
  datatype Piece = Kept(line: nat) | Skipped(count: nat) | Omitted(count: nat)

  function PieceText(lines: seq<string>, p: Piece): string
    requires p.Kept? ==> p.line < |lines|
  {
    match p
    case Kept(i) => lines[i]
    case Skipped(n) => "\U{2026} [" + Digits(n) + " line(s) skipped] \U{2026}"
    case Omitted(n) => "\U{2026} [" + Digits(n) + " line(s) truncated] \U{2026}"
  }

  predicate InRange(pieces: seq<Piece>, total: nat) {
    forall i :: 0 <= i < |pieces| && pieces[i].Kept? ==> pieces[i].line < total
  }

  function Texts(lines: seq<string>, pieces: seq<Piece>): seq<string>
    requires InRange(pieces, |lines|)
  {
    seq(|pieces|, i requires 0 <= i < |pieces| => PieceText(lines, pieces[i]))
  }

  function Render(lines: seq<string>, pieces: seq<Piece>): string
    requires InRange(pieces, |lines|)
  {
    Join(Texts(lines, pieces), "\n")
  }

  predicate LooksLikeError(line: string) {
    var l := LowerAll(line);
    || Contains(l, "error") || Contains(l, "fail") || Contains(l, "panic") || Contains(l, "exception")
    || Contains(l, "traceback") || Contains(l, "assert") || Contains(l, "fatal") || Contains(l, "\U{2717}")
  }

  // ----- the parts of a cut

  /** The source lines a list of pieces shows, in order. */
  function Shown(pieces: seq<Piece>): seq<nat> {
    if pieces == [] then [] else LineOf(pieces[0]) + Shown(pieces[1..])
  }

  function LineOf(p: Piece): seq<nat> {
    if p.Kept? then [p.line] else []
  }

  function CountOf(p: Piece): nat {
    if p.Kept? then 0 else p.count
  }

  /** The lines its notes own up to. */
  function Announced(pieces: seq<Piece>): nat {
    if pieces == [] then 0 else CountOf(pieces[0]) + Announced(pieces[1..])
  }

  function KeptRange(a: nat, b: nat): seq<Piece>
    requires a <= b
  {
    seq(b - a, i requires 0 <= i < b - a => Kept(a + i))
  }

  // ----- head and tail

  /** Half the lines, rounded up, then the note, then the rest from the end. */
  function HeadTail(total: nat, maxLines: nat): (r: seq<Piece>)
    requires maxLines <= total
    ensures InRange(r, total)
  {
    var head := (maxLines + 1) / 2;
    var tail := maxLines - head;
    KeptRange(0, head) + [Omitted(total - head - tail)] + KeptRange(total - tail, total)
  }

  // ----- errors first

  /** The first `head` lines and every error line, in order. */
  function Selected(errors: seq<bool>, head: nat, i: nat): seq<nat>
    requires i <= |errors|
    decreases |errors| - i
  {
    if i == |errors| then []
    else (if i < head || errors[i] then [i] else []) + Selected(errors, head, i + 1)
  }

  function ErrorsIn(errors: seq<bool>, i: nat): nat
    requires i <= |errors|
    decreases |errors| - i
  {
    if i == |errors| then 0 else (if errors[i] then 1 else 0) + ErrorsIn(errors, i + 1)
  }

  /** Up to two lines of context, when the errors leave room for them. */
  function HeadLines(errorCount: nat, maxLines: nat): nat {
    Min(if maxLines >= errorCount then maxLines - errorCount else 0, 2)
  }

  /** The note on the lines between the last one shown, if any, and the next. */
  function GapBefore(prev: int, line: nat): seq<Piece> {
    if 0 <= prev && prev + 1 < line then [Skipped(line - prev - 1)] else []
  }

  /** Kept lines with a note for each gap after the first of them. */
  function WithGaps(kept: seq<nat>, prev: int, total: nat): seq<Piece> {
    if kept == [] then
      GapBefore(prev, total)
    else
      GapBefore(prev, kept[0]) + [Kept(kept[0])] + WithGaps(kept[1..], kept[0], total)
  }

  function ErrorFlags(lines: seq<string>): seq<bool> {
    seq(|lines|, i requires 0 <= i < |lines| => LooksLikeError(lines[i]))
  }

  function ErrorFocused(errors: seq<bool>, maxLines: nat): seq<Piece> {
    WithGaps(Selected(errors, HeadLines(ErrorsIn(errors, 0), maxLines), 0), -1, |errors|)
  }

  /** Which of the two cuts is made. */
  predicate FocusesOnErrors(errors: seq<bool>, maxLines: nat, prioritizeErrors: bool) {
    prioritizeErrors && 0 < ErrorsIn(errors, 0) <= maxLines
  }

  function Cut(lines: seq<string>, maxLines: nat, prioritizeErrors: bool): seq<Piece>
    requires maxLines <= |lines|
  {
    if FocusesOnErrors(ErrorFlags(lines), maxLines, prioritizeErrors) then ErrorFocused(ErrorFlags(lines), maxLines)
    else HeadTail(|lines|, maxLines)
  }

  // ----- what a cut keeps

  predicate Ascending(xs: seq<nat>) {
    forall i, j :: 0 <= i < j < |xs| ==> xs[i] < xs[j]
  }

  lemma {:induction false} ShownConcat(a: seq<Piece>, b: seq<Piece>)
    ensures Shown(a + b) == Shown(a) + Shown(b)
  {
    hide LineOf;
    if a == [] {
      assert a + b == b;
    } else {
      assert (a + b)[1..] == a[1..] + b;
      ShownConcat(a[1..], b);
      assert LineOf(a[0]) + (Shown(a[1..]) + Shown(b)) == LineOf(a[0]) + Shown(a[1..]) + Shown(b);
    }
  }

  lemma {:induction false} AnnouncedConcat(a: seq<Piece>, b: seq<Piece>)
    ensures Announced(a + b) == Announced(a) + Announced(b)
  {
    hide CountOf;
    if a == [] {
      assert a + b == b;
    } else {
      assert (a + b)[1..] == a[1..] + b;
      AnnouncedConcat(a[1..], b);
    }
  }

  function Numbers(a: nat, b: nat): seq<nat>
    requires a <= b
  {
    seq(b - a, i requires 0 <= i < b - a => a + i)
  }

  lemma TwoRuns(head: nat, tail: nat, total: nat)
    requires head + tail <= total
    ensures var r := Numbers(0, head) + Numbers(total - tail, total);
            && |r| == head + tail && Ascending(r)
            && forall i :: 0 <= i < head + tail ==> r[i] == if i < head then i else total - head - tail + i
  {
  }

  lemma {:induction false} ShownRange(a: nat, b: nat)
    requires a <= b
    ensures Shown(KeptRange(a, b)) == Numbers(a, b)
    ensures Announced(KeptRange(a, b)) == 0
    decreases b - a
  {
    if a < b {
      assert KeptRange(a, b)[1..] == KeptRange(a + 1, b);
      assert Numbers(a, b) == [a] + Numbers(a + 1, b);
      ShownRange(a + 1, b);
    }
  }

  lemma ShownNote(n: nat)
    ensures Shown([Omitted(n)]) == [] && Announced([Omitted(n)]) == n
    ensures Shown([Skipped(n)]) == [] && Announced([Skipped(n)]) == n
  {
    assert [Omitted(n)][1..] == [] && [Skipped(n)][1..] == [];
  }

  /** The head and tail form keeps exactly `maxLines` lines, in order, and its
    * note counts the others.
    */
  lemma HeadTailKeeps(total: nat, maxLines: nat)
    requires maxLines <= total
    ensures var r := HeadTail(total, maxLines);
            && |Shown(r)| == maxLines && Ascending(Shown(r)) && Announced(r) == total - maxLines
            && forall i :: 0 <= i < maxLines ==>
                 Shown(r)[i] == if i < (maxLines + 1) / 2 then i else total - maxLines + i
  {
    hide *;
    var head: nat, tail: nat := (maxLines + 1) / 2, maxLines / 2;
    HeadTailParts(total, maxLines, head, tail);
    ShownRange(0, head);
    ShownRange(total - tail, total);
    ThreeParts(KeptRange(0, head), total - maxLines, KeptRange(total - tail, total));
    TwoRuns(head, tail, total);
  }

  lemma HeadTailParts(total: nat, maxLines: nat, head: nat, tail: nat)
    requires maxLines <= total && head == (maxLines + 1) / 2 && tail == maxLines / 2
    ensures head + tail == maxLines
    ensures HeadTail(total, maxLines) == KeptRange(0, head) + [Omitted(total - maxLines)] + KeptRange(total - tail, total)
  {
    hide KeptRange;
  }

  lemma ThreeParts(a: seq<Piece>, n: nat, b: seq<Piece>)
    ensures Shown(a + [Omitted(n)] + b) == Shown(a) + Shown(b)
    ensures Announced(a + [Omitted(n)] + b) == Announced(a) + n + Announced(b)
  {
    ShownNote(n);
    hide Announced, Shown;
    ShownConcat(a + [Omitted(n)], b);
    ShownConcat(a, [Omitted(n)]);
    AnnouncedConcat(a + [Omitted(n)], b);
    AnnouncedConcat(a, [Omitted(n)]);
  }

  lemma Prepend(i: nat, rest: seq<nat>, total: nat)
    requires i < total && Ascending(rest) && forall k :: 0 <= k < |rest| ==> i < rest[k] < total
    ensures Ascending([i] + rest) && forall k :: 0 <= k <= |rest| ==> i <= ([i] + rest)[k] < total
  {
  }

  lemma {:induction false} SelectedOrder(errors: seq<bool>, head: nat, i: nat)
    requires i <= |errors|
    ensures var r := Selected(errors, head, i);
            Ascending(r) && forall k :: 0 <= k < |r| ==> i <= r[k] < |errors|
    decreases |errors| - i
  {
    hide Ascending;
    if i < |errors| {
      SelectedOrder(errors, head, i + 1);
      var rest := Selected(errors, head, i + 1);
      Prepend(i, rest, |errors|);
      assert [] + rest == rest;
    } else {
      NoLines([]);
    }
  }

  lemma NoLines(s: seq<nat>)
    requires s == []
    ensures Ascending(s)
  {
  }

  lemma {:induction false} SelectedMembers(errors: seq<bool>, head: nat, i: nat, j: nat)
    requires i <= |errors|
    ensures j in Selected(errors, head, i) <==> i <= j < |errors| && (j < head || errors[j])
    decreases |errors| - i
  {
    if i < |errors| {
      SelectedMembers(errors, head, i + 1, j);
    }
  }

  lemma SelectedMeaning(errors: seq<bool>, head: nat, i: nat)
    requires i <= |errors|
    ensures var r := Selected(errors, head, i);
            && Ascending(r) && (forall k :: 0 <= k < |r| ==> i <= r[k] < |errors|)
            && (forall j :: j in r <==> i <= j < |errors| && (j < head || errors[j]))
  {
    hide Selected, Ascending;
    SelectedOrder(errors, head, i);
    forall j: nat ensures j in Selected(errors, head, i) <==> i <= j < |errors| && (j < head || errors[j]) {
      SelectedMembers(errors, head, i, j);
    }
  }

  lemma {:induction false} SelectedCount(errors: seq<bool>, head: nat, i: nat)
    requires i <= |errors|
    ensures ErrorsIn(errors, i) <= |Selected(errors, head, i)| <= (if i <= head then head - i else 0) + ErrorsIn(errors, i)
    decreases |errors| - i
  {
    if i < |errors| {
      SelectedCount(errors, head, i + 1);
    }
  }

  lemma InRangeConcat(a: seq<Piece>, b: seq<Piece>, total: nat)
    requires InRange(a, total) && InRange(b, total)
    ensures InRange(a + b, total)
  {
  }

  lemma {:induction false} WithGapsInRange(kept: seq<nat>, prev: int, total: nat)
    requires forall k :: 0 <= k < |kept| ==> kept[k] < total
    ensures InRange(WithGaps(kept, prev, total), total)
    decreases |kept|
  {
    if kept != [] {
      WithGapsInRange(kept[1..], kept[0], total);
      var lead, line := GapBefore(prev, kept[0]), [Kept(kept[0])];
      assert InRange(lead, total) && InRange(line, total);
      hide InRange, GapBefore;
      InRangeConcat(lead, line, total);
      InRangeConcat(lead + line, WithGaps(kept[1..], kept[0], total), total);
    }
  }

  lemma LastGap(prev: int, total: nat)
    requires 0 <= prev < total
    ensures Shown(GapBefore(prev, total)) == [] && Announced(GapBefore(prev, total)) == total - prev - 1
  {
    NothingShown();
    if prev + 1 < total {
      ShownNote(total - prev - 1);
    }
  }

  lemma {:induction false} ShownWithGaps(kept: seq<nat>, prev: int, total: nat)
    requires Ascending(kept) && prev >= -1 && (forall k :: 0 <= k < |kept| ==> prev < kept[k] < total)
    requires kept != [] || 0 <= prev < total
    ensures var r := WithGaps(kept, prev, total);
            && Shown(r) == kept
            && Announced(r) + |kept| == total - (if prev >= 0 then prev + 1 else kept[0])
    decreases |kept|
  {
    hide Shown, Announced, GapBefore;
    if kept == [] {
      LastGap(prev, total);
    } else {
      ShownWithGaps(kept[1..], kept[0], total);
      GapThenLine(prev, kept[0], WithGaps(kept[1..], kept[0], total));
    }
  }

  lemma GapThenLine(prev: int, line: nat, rest: seq<Piece>)
    requires -1 <= prev < line
    ensures var r := GapBefore(prev, line) + [Kept(line)] + rest;
            && Shown(r) == [line] + Shown(rest)
            && Announced(r) == (if prev >= 0 then line - prev - 1 else 0) + Announced(rest)
  {
    var lead := GapBefore(prev, line);
    assert [Kept(line)][1..] == [] && Shown([Kept(line)]) == [line] && Announced([Kept(line)]) == 0;
    if lead != [] {
      ShownNote(line - prev - 1);
    }
    hide Announced, Shown;
    ShownConcat(lead + [Kept(line)], rest);
    ShownConcat(lead, [Kept(line)]);
    AnnouncedConcat(lead + [Kept(line)], rest);
    AnnouncedConcat(lead, [Kept(line)]);
    assert lead == [] ==> Shown(lead) == [] && Announced(lead) == 0 by {
      NothingShown();
    }
  }

  lemma NothingShown()
    ensures Shown([]) == [] && Announced([]) == 0
  {
  }

  // ----- what is put out for the parts

  /** A kept line is put out as it is, and the number in a note reads back as the
    * number of lines it stands for.
    */
  lemma PieceReads(lines: seq<string>, p: Piece) returns (number: string)
    requires p.Kept? ==> p.line < |lines|
    ensures p.Kept? ==> PieceText(lines, p) == lines[p.line]
    ensures !p.Kept? ==>
              && AllDigits(number) && Value(number) == CountOf(p)
              && PieceText(lines, p)
                 == "\U{2026} [" + number + (if p.Skipped? then " line(s) skipped] \U{2026}" else " line(s) truncated] \U{2026}")
  {
    number := Digits(CountOf(p));
    DigitsValue(CountOf(p));
  }
}
