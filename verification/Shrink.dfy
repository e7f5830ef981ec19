/** The last resort of the prompt budgeter: when the sacred segments alone are
  * over budget, cut the middle out of the largest one, again and again.
  */
module Shrink {
  import opened Basics
  import opened TextLines
  import opened Tokens
  import opened TruncateMiddle
  import opened Segments

  // The size below which a segment is left alone.
  const FLOOR: nat := 32

  /** What one pass asks of a segment of cost `before`, `over` tokens too many. */
  function ShrinkTarget(before: nat, over: nat): nat {
    Max(Max(SaturatingSub(before, over + 64), before / 2), 1)
  }

  /** A pass asks a segment to give up the overage and 64 tokens more, but for no
    * more than half of what it has.
    */
  lemma PassAsks(before: nat, over: nat)
    ensures var target := ShrinkTarget(before, over);
            && target > 0
            && (2 * (over + 64) <= before + 1 ==> target + over + 64 == before)
            && (2 * (over + 64) > before + 1 && before >= 2 ==> 2 * target <= before <= 2 * target + 1)
            && (before < 2 ==> target == 1)
  {
  }

  // ----- one cut

  /** The target is always below the text's own count, and a text that costs more
    * than the floor has room for the marker: the unchanged-text exits of the
    * cut are never taken.
    */
  lemma LoopTargetRoom(text: string, over: nat)
    requires EstimateTokens(text) + MESSAGE_OVERHEAD_TOKENS > FLOOR
    ensures var target := ShrinkTarget(EstimateTokens(text) + MESSAGE_OVERHEAD_TOKENS, over);
            && 0 < target < EstimateTokens(text)
            && FirstKeep(text, target) + MARKER_BYTES < |text|
  {
    EstimateBounds(text);
  }

  lemma CharPathShrinks(text: string, target: nat, keep: nat)
    requires keep <= |text|
    ensures EstimateTokens(CharCut(text, HalveToFit(text, target, keep))) <= Max(target, MARKER_TOKENS)
  {
    var k := HalveToFit(text, target, keep);
    if k == 0 {
      hide Marker;
      assert |CharCut(text, 0)| == MARKER_CHARS;
    }
  }

  lemma LinePathShrinks(text: string, target: nat)
    requires |Lines(text)| >= 8
    ensures var lines := Lines(text);
            var k := LargestFit(lines, target, |lines| - 1);
            if k == 0 then '\n' !in lines[0] && |lines[0]| + 7 <= |text|
            else EstimateTokens(LineCut(lines, k)) <= target
  {
    LineLengths(text);
    LinesHaveNoNewline(text);
  }

  /** How a pass makes progress: the overage is absorbed, or the segment is at
    * the floor, or its excess over 16 is halved, or it became a single line and
    * got strictly cheaper.
    */
  lemma PassShrinks(text: string, over: nat)
    requires EstimateTokens(text) + MESSAGE_OVERHEAD_TOKENS > FLOOR && over > 0
    ensures var before := EstimateTokens(text) + MESSAGE_OVERHEAD_TOKENS;
            var r := MiddleCut(text, ShrinkTarget(before, over));
            var after := EstimateTokens(r) + MESSAGE_OVERHEAD_TOKENS;
            && after < before
            && (|| after + over <= before
                || after <= FLOOR
                || after - 16 <= (before - 16) / 2
                || (|Lines(text)| >= 8 && |Lines(r)| < 8))
  {
    hide FirstKeep, Marker;
    var before := EstimateTokens(text) + MESSAGE_OVERHEAD_TOKENS;
    var target := ShrinkTarget(before, over);
    LoopTargetRoom(text, over);
    if |Lines(text)| < 8 {
      CharPathShrinks(text, target, FirstKeep(text, target));
    } else {
      LinePassShrinks(text, target);
    }
  }

  lemma LinePassShrinks(text: string, target: nat)
    requires |Lines(text)| >= 8 && FirstKeep(text, target) + MARKER_BYTES < |text| && 0 < target < EstimateTokens(text)
    ensures var r := MiddleCut(text, target);
            EstimateTokens(r) <= target || (EstimateTokens(r) < EstimateTokens(text) && |Lines(r)| < 8)
  {
    hide FirstKeep, Marker, Lines, EstimateTokens;
    LinePathShrinks(text, target);
    var r := MiddleCut(text, target);
    if EstimateTokens(r) > target {
      SingleLine(r);
      EstimateDropsBySeven(r, text);
    }
  }

  // ----- which segment

  predicate Clippable(s: Segment) {
    s.zone.FocusFile? || s.zone.RecentObservation?
  }

  predicate Sacred(s: Segment) {
    s.zone.IsSacred()
  }

  /** The last of the costliest segments that `ok` admits, above the floor. */
  function Largest(segments: seq<Segment>, ok: Segment -> bool): (r: Option<nat>)
    ensures r.Some? ==> r.value < |segments| && ok(segments[r.value]) && Cost(segments[r.value]) > FLOOR
    ensures r.Some? ==> forall j :: 0 <= j < |segments| && ok(segments[j]) ==>
              Cost(segments[j]) <= Cost(segments[r.value])
              && (j > r.value ==> Cost(segments[j]) < Cost(segments[r.value]))
    ensures r.None? ==> forall j :: 0 <= j < |segments| && ok(segments[j]) ==> Cost(segments[j]) <= FLOOR
  {
    if segments == [] then None
    else
      var n := |segments| - 1;
      var before := Largest(segments[..n], ok);
      if ok(segments[n]) && Cost(segments[n]) > FLOOR
         && (before.None? || Cost(segments[n]) >= Cost(segments[before.value]))
      then Some(n) else before
  }

  /** Focus files and observations first, then any sacred segment. */
  function Pick(segments: seq<Segment>): (r: Option<nat>)
    ensures r.Some? ==> r.value < |segments| && Cost(segments[r.value]) > FLOOR && Sacred(segments[r.value])
  {
    var bulky := Largest(segments, Clippable);
    if bulky.Some? then bulky else Largest(segments, Sacred)
  }

  /** What one pass makes of the picked segment, `over` tokens too many. */
  function Cut(s: Segment, over: nat): Segment {
    s.(text := MiddleCut(s.text, ShrinkTarget(Cost(s), over)))
  }

  lemma CutShrinks(s: Segment, over: nat)
    requires Cost(s) > FLOOR && over > 0
    ensures var c := Cut(s, over);
            && Cost(c) < Cost(s)
            && (|| Cost(c) + over <= Cost(s)
                || Cost(c) <= FLOOR
                || Cost(c) - 16 <= (Cost(s) - 16) / 2
                || (|Lines(s.text)| >= 8 && |Lines(c.text)| < 8))
  {
    hide MiddleCut, ShrinkTarget, Lines, EstimateTokens;
    PassShrinks(s.text, over);
  }

  /** One pass at segment `i`. */
  function ShrinkAt(segments: seq<Segment>, i: nat, fit: nat): seq<Segment>
    requires i < |segments| && TotalCost(segments) > fit
  {
    segments[i := Cut(segments[i], TotalCost(segments) - fit)]
  }

  lemma {:induction false} TotalCostUpdate(segments: seq<Segment>, i: nat, s: Segment)
    requires i < |segments|
    ensures TotalCost(segments[i := s]) == TotalCost(segments) - Cost(segments[i]) + Cost(s)
  {
    if i > 0 {
      TotalCostUpdate(segments[1..], i - 1, s);
      assert segments[i := s][1..] == segments[1..][i - 1 := s];
    }
  }

  lemma ShrinkAtProgress(segments: seq<Segment>, i: nat, fit: nat)
    requires i < |segments| && TotalCost(segments) > fit && Cost(segments[i]) > FLOOR
    ensures var next := ShrinkAt(segments, i, fit);
            && Cost(next[i]) < Cost(segments[i])
            && TotalCost(next) == TotalCost(segments) - Cost(segments[i]) + Cost(next[i])
  {
    var c := Cut(segments[i], TotalCost(segments) - fit);
    CutShrinks(segments[i], TotalCost(segments) - fit);
    hide Cut, Cost;
    TotalCostUpdate(segments, i, c);
  }

  // ----- the whole loop

  /** All passes until the segments fit or nothing above the floor is left. */
  function ShrinkAll(segments: seq<Segment>, fit: nat): seq<Segment>
    decreases TotalCost(segments)
  {
    var pick := Pick(segments);
    if TotalCost(segments) <= fit || pick.None? then segments
    else
      ShrinkAtProgress(segments, pick.value, fit);
      ShrinkAll(ShrinkAt(segments, pick.value, fit), fit)
  }

  /** How many passes that takes. */
  function Passes(segments: seq<Segment>, fit: nat): nat
    decreases TotalCost(segments)
  {
    var pick := Pick(segments);
    if TotalCost(segments) <= fit || pick.None? then 0
    else
      ShrinkAtProgress(segments, pick.value, fit);
      1 + Passes(ShrinkAt(segments, pick.value, fit), fit)
  }

  /** The loop never gives up early: it stops only when the segments fit, or no
    * sacred segment costs more than the floor.
    */
  lemma {:induction false} ShrinkAllConverges(segments: seq<Segment>, fit: nat)
    ensures var r := ShrinkAll(segments, fit);
            TotalCost(r) <= fit || forall i :: 0 <= i < |r| && r[i].zone.IsSacred() ==> Cost(r[i]) <= FLOOR
    decreases TotalCost(segments)
  {
    var pick := Pick(segments);
    if TotalCost(segments) <= fit {
    } else if pick.None? {
      assert forall j :: 0 <= j < |segments| && Sacred(segments[j]) ==> Cost(segments[j]) <= FLOOR;
    } else {
      ShrinkAtProgress(segments, pick.value, fit);
      ShrinkAllConverges(ShrinkAt(segments, pick.value, fit), fit);
    }
  }

  /** Only texts differ, no segment costs more, and one at the floor or not sacred
    * is the same.
    */
  ghost predicate OnlyShrunk(before: seq<Segment>, after: seq<Segment>) {
    && |after| == |before|
    && forall i :: 0 <= i < |after| ==>
         && after[i] == before[i].(text := after[i].text)
         && Cost(after[i]) <= Cost(before[i])
         && (Cost(before[i]) <= FLOOR || !before[i].zone.IsSacred() ==> after[i] == before[i])
  }

  /** Only texts change, no segment gets dearer, and a segment at the floor or
    * outside the sacred zones is left exactly as it was.
    */
  lemma {:induction false} ShrinkAllFrame(segments: seq<Segment>, fit: nat)
    ensures OnlyShrunk(segments, ShrinkAll(segments, fit))
    decreases TotalCost(segments)
  {
    var pick := Pick(segments);
    if TotalCost(segments) <= fit || pick.None? {
    } else {
      ShrinkAtFrame(segments, pick.value, fit);
      ShrinkAtProgress(segments, pick.value, fit);
      ShrinkAllFrame(ShrinkAt(segments, pick.value, fit), fit);
      ShrunkTwice(segments, ShrinkAt(segments, pick.value, fit), ShrinkAll(segments, fit));
    }
  }

  lemma ShrinkAtFrame(segments: seq<Segment>, i: nat, fit: nat)
    requires i < |segments| && TotalCost(segments) > fit && Cost(segments[i]) > FLOOR && Sacred(segments[i])
    ensures OnlyShrunk(segments, ShrinkAt(segments, i, fit))
  {
    ShrinkAtProgress(segments, i, fit);
    hide Cost, TotalCost, MiddleCut, ShrinkTarget;
  }

  lemma ShrunkTwice(a: seq<Segment>, b: seq<Segment>, c: seq<Segment>)
    requires OnlyShrunk(a, b) && OnlyShrunk(b, c)
    ensures OnlyShrunk(a, c)
  {
    hide Cost;
  }

  predicate BulkAtFloor(segments: seq<Segment>) {
    forall j :: 0 <= j < |segments| && (segments[j].zone == FocusFile || segments[j].zone == RecentObservation) ==>
      Cost(segments[j]) <= FLOOR
  }

  lemma BulkFirst(segments: seq<Segment>, i: nat)
    requires Pick(segments) == Some(i) && (segments[i].zone == System || segments[i].zone == TaskAnchor)
    ensures BulkAtFloor(segments)
  {
    hide Cost;
    assert forall j :: 0 <= j < |segments| && Clippable(segments[j]) ==> Cost(segments[j]) <= FLOOR;
  }

  lemma BulkStays(before: seq<Segment>, after: seq<Segment>)
    requires OnlyShrunk(before, after) && BulkAtFloor(before)
    ensures BulkAtFloor(after)
  {
    hide Cost;
  }

  /** The system and task zones are only touched once every focus file and
    * observation is at the floor.
    */
  lemma {:induction false} ShrinkAllSparesSystemAndTask(segments: seq<Segment>, fit: nat, i: nat)
    requires i < |segments| && (segments[i].zone == System || segments[i].zone == TaskAnchor)
    ensures var r := ShrinkAll(segments, fit);
            && |r| == |segments|
            && (r[i] != segments[i] ==>
                  forall j :: 0 <= j < |r| && (r[j].zone == FocusFile || r[j].zone == RecentObservation) ==> Cost(r[j]) <= FLOOR)
    decreases TotalCost(segments)
  {
    var pick := Pick(segments);
    if TotalCost(segments) > fit && pick.Some? {
      ShrinkAllFrame(segments, fit);
      ShrinkAtProgress(segments, pick.value, fit);
      var r, next := ShrinkAll(segments, fit), ShrinkAt(segments, pick.value, fit);
      hide Cost, Cut, TotalCost, Pick;
      if pick.value == i {
        BulkFirst(segments, i);
        BulkStays(segments, r);
      } else {
        ShrinkAllSparesSystemAndTask(next, fit, i);
      }
    }
  }

  // ----- how many passes

  /** How often a number can be halved before it is 16 or less. */
  function Halvings(x: nat): nat {
    if x <= 16 then 0 else 1 + Halvings(x / 2)
  }

  lemma {:induction false} HalvingsMonotone(x: nat, y: nat)
    requires x <= y
    ensures Halvings(x) <= Halvings(y)
  {
    if x > 16 {
      HalvingsMonotone(x / 2, y / 2);
    }
  }

  /** Passes a text of this cost can still be picked for: two a halving, one
    * more for a text that first has to lose its lines.
    */
  function PotentialOf(cost: nat, manyLines: bool): nat {
    if cost <= FLOOR then 0 else 2 * Halvings(cost - 16) + if manyLines then 1 else 0
  }

  function Potential(s: Segment): nat {
    PotentialOf(Cost(s), |Lines(s.text)| >= 8)
  }

  lemma PotentialDrops(before: nat, after: nat, manyBefore: bool, manyAfter: bool)
    requires FLOOR < before && after < before
    requires after <= FLOOR || after - 16 <= (before - 16) / 2 || (manyBefore && !manyAfter)
    ensures PotentialOf(after, manyAfter) < PotentialOf(before, manyBefore)
  {
    if after > FLOOR {
      if after - 16 <= (before - 16) / 2 {
        HalvingsMonotone(after - 16, (before - 16) / 2);
      } else {
        HalvingsMonotone(after - 16, before - 16);
      }
    }
  }

  function TotalPotential(segments: seq<Segment>): nat {
    if segments == [] then 0 else Potential(segments[0]) + TotalPotential(segments[1..])
  }

  lemma {:induction false} TotalPotentialUpdate(segments: seq<Segment>, i: nat, s: Segment)
    requires i < |segments|
    ensures TotalPotential(segments[i := s]) == TotalPotential(segments) - Potential(segments[i]) + Potential(s)
  {
    if i > 0 {
      TotalPotentialUpdate(segments[1..], i - 1, s);
      assert segments[i := s][1..] == segments[1..][i - 1 := s];
    }
  }

  lemma CutLowersPotential(s: Segment, over: nat)
    requires Cost(s) > FLOOR && over > 0
    ensures Cost(Cut(s, over)) + over <= Cost(s) || Potential(Cut(s, over)) < Potential(s)
  {
    CutShrinks(s, over);
    hide Cut, Cost, Lines, PotentialOf;
    var c := Cut(s, over);
    if Cost(c) + over > Cost(s) {
      PotentialDrops(Cost(s), Cost(c), |Lines(s.text)| >= 8, |Lines(c.text)| >= 8);
    }
  }

  lemma PassLowersPotential(segments: seq<Segment>, i: nat, fit: nat)
    requires i < |segments| && TotalCost(segments) > fit && Cost(segments[i]) > FLOOR
    ensures var next := ShrinkAt(segments, i, fit);
            TotalCost(next) <= fit || TotalPotential(next) < TotalPotential(segments)
  {
    hide Cut, Cost, Potential, TotalCost, TotalPotential;
    var over: nat := TotalCost(segments) - fit;
    var s := segments[i];
    assert ShrinkAt(segments, i, fit) == segments[i := Cut(s, over)];
    hide ShrinkAt;
    CutLowersPotential(s, over);
    TotalCostUpdate(segments, i, Cut(s, over));
    TotalPotentialUpdate(segments, i, Cut(s, over));
  }

  /** The number of passes is logarithmic in the cost of each segment. */
  lemma {:induction false} PassesBounded(segments: seq<Segment>, fit: nat)
    ensures Passes(segments, fit) <= TotalPotential(segments) + 1
    decreases TotalCost(segments)
  {
    var pick := Pick(segments);
    if TotalCost(segments) <= fit || pick.None? {
    } else {
      var next := ShrinkAt(segments, pick.value, fit);
      ShrinkAtProgress(segments, pick.value, fit);
      PassLowersPotential(segments, pick.value, fit);
      PassesBounded(next, fit);
    }
  }
}
