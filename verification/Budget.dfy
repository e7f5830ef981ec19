/** Assembling segments into a prompt under a hard token budget. */
module Budget {
  import opened Basics
  import opened OrderedSort
  import opened StableSort
  import opened TruncateMiddle
  import opened Segments
  import opened Eviction
  import opened Shrink

  datatype BuiltContext = BuiltContext(
    messages: seq<Segment>, tokensUsed: nat, budget: nat, fixedOverhead: nat, dropped: seq<Zone>)

  /** How many of the evictable segments go. */
  function Evicted(segments: seq<Segment>, fit: nat): (k: nat)
    ensures k <= |Candidates(segments)|
  {
    EvictCount(TotalCost(segments), Candidates(segments), 0, fit)
  }

  /** What eviction leaves, laid out. */
  function Kept(segments: seq<Segment>, fit: nat): seq<Segment> {
    Survivors(segments, Evicted(segments, fit))
  }

  /** The messages of the finished prompt. */
  function Assembled(segments: seq<Segment>, fit: nat): seq<Segment> {
    ShrinkAll(Kept(segments, fit), fit)
  }

  /** The shrink loop, with the number of its passes. Its "could not shrink
    * further" exit is dead.
    */
  method ShrinkToFit(segments: seq<Segment>, fit: nat) returns (r: seq<Segment>, ghost passes: nat)
    ensures r == ShrinkAll(segments, fit)
    ensures passes == Passes(segments, fit)
  {
    r, passes := segments, 0;
    var running := TotalCost(r);
    while running > fit
      invariant running == TotalCost(r)
      invariant ShrinkAll(r, fit) == ShrinkAll(segments, fit)
      invariant passes + Passes(r, fit) == Passes(segments, fit)
      decreases running
    {
      var pick := Pick(r);
      if pick.None? {
        break;
      }
      var idx := pick.value;
      ShrinkAtProgress(r, idx, fit);
      ghost var next := ShrinkAt(r, idx, fit);
      assert Passes(r, fit) == 1 + Passes(next, fit);
      var over: nat := running - fit;
      var before := Cost(r[idx]);
      var target := Max(Max(SaturatingSub(before, over + 64), before / 2), 1);
      var text := Truncate(r[idx].text, target);
      r := r[idx := r[idx].(text := text)];
      assert r == next;
      hide TruncateMiddle.MiddleCut, Segments.Cost, Shrink.Cut, Shrink.ShrinkAt;
      var after := Cost(r[idx]);
      if after >= before {
        assert false;
        break;
      }
      running := running - before + after;
      passes := passes + 1;
    }
  }

  datatype ContextBuilder = ContextBuilder(budget: nat, fixedOverhead: nat)
  {
    /** What the messages may fill. */
    function Fit(): nat {
      SaturatingSub(budget, fixedOverhead)
    }

    /** The whole assembly. There are three outcomes, and a caller can tell in
      * advance when the first is sure: the prompt is within the budget; the
      * overhead alone is over it; or only sacred messages at the floor are left.
      */
    method Build(segments: seq<Segment>) returns (b: BuiltContext, ghost passes: nat)
      ensures b.messages == Assembled(segments, Fit())
      ensures b.tokensUsed == TotalCost(b.messages) + fixedOverhead
      ensures b.budget == budget && b.fixedOverhead == fixedOverhead
      ensures b.dropped == DroppedZones(|InZone(segments, HistorySummary)|, Evicted(segments, Fit()))
      ensures || b.tokensUsed <= b.budget
              || b.fixedOverhead > b.budget
              || forall s :: s in b.messages ==> s.zone.IsSacred() && Cost(s) <= FLOOR
      ensures fixedOverhead <= budget && SacredFloor(segments) <= Fit() ==> b.tokensUsed <= b.budget
      ensures passes <= TotalPotential(Kept(segments, Fit())) + 1
      ensures TotalCost(segments) + fixedOverhead <= budget ==> b.messages == Layout(segments) && b.dropped == []
      ensures forall k :: 0 <= k < Evicted(segments, Fit()) ==> TotalCost(Survivors(segments, k)) + fixedOverhead > budget
      ensures b.messages != Kept(segments, Fit()) ==> TotalCost(Kept(segments, Fit())) + fixedOverhead > budget
    {
      var sorted := SortBy(segments, LayoutKey);
      KeptOfSorted(segments, Fit());
      assert Assembled(segments, Fit()) == ShrinkAll(Kept(segments, Fit()), Fit());
      OverBudgetMeans(this, Assembled(segments, Fit()));
      hide *;
      AssembledFits(segments, Fit());
      SacredFloorFits(segments, Fit());
      PassesBounded(Kept(segments, Fit()), Fit());
      NothingInVain(this, segments);
      var kept, dropped := Evict(sorted, Fit());
      var messages;
      messages, passes := ShrinkToFit(kept, Fit());
      b := BuiltContext(messages, TotalCost(messages) + fixedOverhead, budget, fixedOverhead, dropped);
    }
  }

  lemma {:induction false} InsertTotalCost(x: Segment, ys: seq<Segment>)
    ensures TotalCost(Insert(x, ys, KeyOrder(LayoutKey))) == Cost(x) + TotalCost(ys)
  {
    if ys == [] || LayoutKey(x) <= LayoutKey(ys[0]) {
      assert ([x] + ys)[1..] == ys;
    } else {
      InsertTotalCost(x, ys[1..]);
      assert Insert(x, ys, KeyOrder(LayoutKey))[1..] == Insert(x, ys[1..], KeyOrder(LayoutKey));
    }
  }

  lemma {:induction false} SortKeepsTotalCost(segments: seq<Segment>)
    ensures TotalCost(SortBy(segments, LayoutKey)) == TotalCost(segments)
  {
    if segments != [] {
      SortKeepsTotalCost(segments[1..]);
      InsertTotalCost(segments[0], SortBy(segments[1..], LayoutKey));
    }
  }

  lemma SameZonesSameSurvivors(s: seq<Segment>, t: seq<Segment>)
    requires forall z: Zone :: InZone(s, z) == InZone(t, z)
    ensures Candidates(s) == Candidates(t)
    ensures forall k :: 0 <= k <= |Candidates(s)| ==> Survivors(s, k) == Survivors(t, k)
  {
  }

  lemma KeptOfSorted(segments: seq<Segment>, fit: nat)
    ensures var sorted := SortBy(segments, LayoutKey);
            && SortedBy(sorted, LayoutKey)
            && InZone(sorted, HistorySummary) == InZone(segments, HistorySummary)
            && var k := EvictCount(TotalCost(sorted), Candidates(sorted), 0, fit);
            k == Evicted(segments, fit) && Survivors(sorted, k) == Kept(segments, fit)
  {
    SortByIsStable(segments, LayoutKey);
    SortKeepsTotalCost(segments);
    var sorted := SortBy(segments, LayoutKey);
    forall z: Zone ensures InZone(sorted, z) == InZone(segments, z) {
    }
    SameZonesSameSurvivors(sorted, segments);
  }

  // ----- eviction, on the segments as given

  /** Nothing is lost or counted twice: what stays and what goes add up. */
  lemma EvictionConserves(segments: seq<Segment>, k: nat)
    requires k <= |Candidates(segments)|
    ensures TotalCost(Survivors(segments, k)) + TotalCost(Candidates(segments)[..k]) == TotalCost(segments)
  {
    LayoutCost(segments);
    var a, b := BeforeBackground(segments), AfterBackground(segments);
    var r, h := InZone(segments, Retrieved), InZone(segments, HistorySummary);
    var i := Min(k, |h|);
    assert Survivors(segments, k) == a + r[k - i..] + h[i..] + b;
    assert Layout(segments) == a + r + h + b;
    assert Candidates(segments) == h + r;
    hide *;
    PrefixOfTwo(h, r, k, i);
    StretchesConserve(a, r, h, b, i, k - i);
  }

  lemma LayoutCost(segments: seq<Segment>)
    ensures TotalCost(Layout(segments)) == TotalCost(segments)
  {
    SortKeepsTotalCost(segments);
    LayoutIsStableSort(segments);
  }

  lemma PrefixOfTwo(h: seq<Segment>, r: seq<Segment>, k: nat, i: nat)
    requires k <= |h| + |r| && i == if k <= |h| then k else |h|
    ensures (h + r)[..k] == h[..i] + r[..k - i]
  {
  }

  lemma StretchesConserve(
      a: seq<Segment>, r: seq<Segment>, h: seq<Segment>, b: seq<Segment>, i: nat, j: nat)
    requires i <= |h| && j <= |r|
    ensures TotalCost(a + r[j..] + h[i..] + b) + TotalCost(h[..i] + r[..j]) == TotalCost(a + r + h + b)
  {
    hide TotalCost;
    CostOfFour(a, r, h, b);
    CostOfFour(a, r[j..], h[i..], b);
    TotalCostConcat(r[..j], r[j..]);
    TotalCostConcat(h[..i], h[i..]);
    TotalCostConcat(h[..i], r[..j]);
    assert r == r[..j] + r[j..] && h == h[..i] + h[i..];
  }

  lemma CostOfFour(a: seq<Segment>, r: seq<Segment>, h: seq<Segment>, b: seq<Segment>)
    ensures TotalCost(a + r + h + b) == TotalCost(a) + TotalCost(r) + TotalCost(h) + TotalCost(b)
  {
    TotalCostConcat(a + r + h, b);
    TotalCostConcat(a + r, h);
    TotalCostConcat(a, r);
  }

  /** Eviction is greedy by priority and takes no more than it must: it stops at
    * the first prefix of the candidates whose absence makes the rest fit, and
    * takes retrieved snippets only when every history summary is gone.
    */
  lemma EvictionIsLeast(segments: seq<Segment>, fit: nat)
    ensures var k := Evicted(segments, fit);
            && (TotalCost(Kept(segments, fit)) <= fit || k == |Candidates(segments)|)
            && (forall j :: 0 <= j < k ==> TotalCost(Survivors(segments, j)) > fit)
  {
    var k := Evicted(segments, fit);
    EvictCountIsLeast(TotalCost(segments), Candidates(segments), fit);
    EvictionConserves(segments, k);
    forall j | 0 <= j < k ensures TotalCost(Survivors(segments, j)) > fit {
      EvictionConserves(segments, j);
    }
  }

  /** No sacred segment is ever dropped; a zone that can lose segments loses the
    * earliest ones, and `dropped` names exactly the zones that lost any.
    */
  lemma EvictionByZone(segments: seq<Segment>, k: nat)
    requires k <= |Candidates(segments)|
    ensures forall z: Zone :: z.IsSacred() ==> InZone(Survivors(segments, k), z) == InZone(segments, z)
    ensures var h := Min(k, |InZone(segments, HistorySummary)|);
            && InZone(Survivors(segments, k), HistorySummary) == InZone(segments, HistorySummary)[h..]
            && InZone(Survivors(segments, k), Retrieved) == InZone(segments, Retrieved)[k - h..]
    ensures forall z: Zone :: z in DroppedZones(|InZone(segments, HistorySummary)|, k)
                         <==> InZone(Survivors(segments, k), z) != InZone(segments, z)
  {
    forall z: Zone ensures InZone(Survivors(segments, k), z) == ZoneLeft(segments, k, z) {
      SurvivorsOfZone(segments, k, z);
    }
    hide Survivors, InZone;
    assert forall z: Zone :: z.IsSacred() <==> z != HistorySummary && z != Retrieved;
  }

  function ZoneLeft(segments: seq<Segment>, k: nat, z: Zone): seq<Segment>
    requires k <= |Candidates(segments)|
  {
    var h := Min(k, |InZone(segments, HistorySummary)|);
    match z
    case HistorySummary => InZone(segments, z)[h..]
    case Retrieved => InZone(segments, z)[k - h..]
    case _ => InZone(segments, z)
  }

  lemma SurvivorsOfZone(segments: seq<Segment>, k: nat, z: Zone)
    requires k <= |Candidates(segments)|
    ensures InZone(Survivors(segments, k), z) == ZoneLeft(segments, k, z)
  {
    var h := Min(k, |InZone(segments, HistorySummary)|);
    WithKeyOfStretches(InZone(segments, System), InZone(segments, TaskAnchor),
                       InZone(segments, Retrieved)[k - h..], InZone(segments, HistorySummary)[h..],
                       InZone(segments, FocusFile), InZone(segments, RecentObservation), z.LayoutRank());
  }

  // ----- the finished prompt

  lemma AllSacredWhenExhausted(segments: seq<Segment>)
    ensures forall s :: s in Survivors(segments, |Candidates(segments)|) ==> s.zone.IsSacred()
  {
    InZoneMember(segments, System);
    InZoneMember(segments, TaskAnchor);
    InZoneMember(segments, FocusFile);
    InZoneMember(segments, RecentObservation);
  }

  /** The prompt fits, or nothing but sacred segments at the floor is left: there
    * is no third outcome, whatever the segments and the budget.
    */
  lemma AssembledFits(segments: seq<Segment>, fit: nat)
    ensures var m := Assembled(segments, fit);
            TotalCost(m) <= fit || forall s :: s in m ==> s.zone.IsSacred() && Cost(s) <= FLOOR
  {
    var kept := Kept(segments, fit);
    var m := Assembled(segments, fit);
    EvictionIsLeast(segments, fit);
    if TotalCost(kept) > fit {
      AllSacredWhenExhausted(segments);
      ShrinkAllConverges(kept, fit);
      ShrinkAllFrame(kept, fit);
      assert forall i :: 0 <= i < |m| ==> kept[i] in kept && m[i].zone == kept[i].zone;
    }
  }

  /** What the segments cost once each is at the floor or below. */
  function FloorCost(segments: seq<Segment>): nat {
    if segments == [] then 0 else Min(Cost(segments[0]), FLOOR) + FloorCost(segments[1..])
  }

  /** The same for those that are never dropped. */
  function SacredFloor(segments: seq<Segment>): nat {
    if segments == [] then 0
    else (if segments[0].zone.IsSacred() then Min(Cost(segments[0]), FLOOR) else 0) + SacredFloor(segments[1..])
  }

  lemma {:induction false} FloorCostConcat(a: seq<Segment>, b: seq<Segment>)
    ensures FloorCost(a + b) == FloorCost(a) + FloorCost(b)
  {
    hide Cost;
    if a == [] {
      assert a + b == b;
    } else {
      assert (a + b)[1..] == a[1..] + b;
      FloorCostConcat(a[1..], b);
    }
  }

  lemma {:induction false} SacredFloorByZone(segments: seq<Segment>)
    ensures SacredFloor(segments)
         == FloorCost(InZone(segments, System)) + FloorCost(InZone(segments, TaskAnchor))
            + FloorCost(InZone(segments, FocusFile)) + FloorCost(InZone(segments, RecentObservation))
  {
    hide Cost;
    if segments != [] {
      SacredFloorByZone(segments[1..]);
      InZoneFloor(segments, System);
      InZoneFloor(segments, TaskAnchor);
      InZoneFloor(segments, FocusFile);
      InZoneFloor(segments, RecentObservation);
      hide FloorCost, InZone;
    }
  }

  lemma InZoneFloor(segments: seq<Segment>, z: Zone)
    requires segments != []
    ensures FloorCost(InZone(segments, z))
         == (if segments[0].zone == z then Min(Cost(segments[0]), FLOOR) else 0) + FloorCost(InZone(segments[1..], z))
  {
    hide Cost;
    assert segments[0].zone == z <==> LayoutKey(segments[0]) == z.LayoutRank();
  }

  lemma SurvivorsFloor(segments: seq<Segment>)
    ensures FloorCost(Survivors(segments, |Candidates(segments)|)) == SacredFloor(segments)
  {
    var a, b := BeforeBackground(segments), AfterBackground(segments);
    assert Survivors(segments, |Candidates(segments)|) == a + b;
    SacredFloorByZone(segments);
    hide FloorCost, SacredFloor, Survivors, InZone;
    FloorCostConcat(a, b);
    FloorCostConcat(InZone(segments, System), InZone(segments, TaskAnchor));
    FloorCostConcat(InZone(segments, FocusFile), InZone(segments, RecentObservation));
  }

  lemma {:induction false} ShrunkToTheFloor(before: seq<Segment>, after: seq<Segment>)
    requires |after| == |before|
    requires forall i :: 0 <= i < |after| ==> Cost(after[i]) <= Min(Cost(before[i]), FLOOR)
    ensures TotalCost(after) <= FloorCost(before)
  {
    hide Cost;
    if after != [] {
      assert forall i :: 0 <= i < |after| - 1 ==> after[1..][i] == after[i + 1] && before[1..][i] == before[i + 1];
      ShrunkToTheFloor(before[1..], after[1..]);
    }
  }

  /** When the window holds every sacred segment at the floor, or below it if it is
    * smaller, the prompt fits.
    */
  lemma SacredFloorFits(segments: seq<Segment>, fit: nat)
    ensures SacredFloor(segments) <= fit ==> TotalCost(Assembled(segments, fit)) <= fit
  {
    hide TotalCost, Cost, ShrinkAll, Survivors, Candidates, SacredFloor, FloorCost, Evicted;
    var kept, m := Kept(segments, fit), Assembled(segments, fit);
    AssembledFits(segments, fit);
    EvictionIsLeast(segments, fit);
    if TotalCost(m) > fit {
      KeptOverFit(segments, fit);
      SurvivorsFloor(segments);
      ShrinkAllFrame(kept, fit);
      assert forall i :: 0 <= i < |m| ==> m[i] in m;
      ShrunkToTheFloor(kept, m);
    }
  }

  lemma {:induction false} SacredFloorBelow(segments: seq<Segment>)
    ensures SacredFloor(segments) <= SacredCount(segments) * FLOOR
  {
    hide Cost;
    if segments != [] {
      SacredFloorBelow(segments[1..]);
    }
  }

  /** So it does when there is room for them all at the floor. */
  lemma FloorFits(segments: seq<Segment>, fit: nat)
    ensures SacredCount(segments) * FLOOR <= fit ==> TotalCost(Assembled(segments, fit)) <= fit
  {
    hide *;
    SacredFloorBelow(segments);
    SacredFloorFits(segments, fit);
  }

  /** What fits after eviction is not shrunk. */
  lemma KeptOverFit(segments: seq<Segment>, fit: nat)
    requires TotalCost(Assembled(segments, fit)) > fit
    ensures TotalCost(Kept(segments, fit)) > fit
  {
    hide TotalCost, Kept, Pick, ShrinkAt;
  }

  /** `tokens_used` exceeds the budget exactly when the fixed overhead alone does
    * or the messages could not be made to fit beside it.
    */
  lemma OverBudgetMeans(builder: ContextBuilder, messages: seq<Segment>)
    ensures TotalCost(messages) + builder.fixedOverhead <= builder.budget
       <==> builder.fixedOverhead <= builder.budget && TotalCost(messages) <= builder.Fit()
  {
  }

  /** Segments that fit as given are only laid out. */
  lemma FittingPromptUntouched(segments: seq<Segment>, fit: nat)
    requires TotalCost(segments) <= fit
    ensures Assembled(segments, fit) == Layout(segments)
  {
    EvictionConserves(segments, 0);
  }

  /** A recent observation, when there is one, closes the prompt. */
  lemma ObservationIsLast(segments: seq<Segment>, fit: nat)
    requires InZone(segments, RecentObservation) != []
    ensures var m := Assembled(segments, fit);
            m != [] && m[|m| - 1].zone == RecentObservation
  {
    var kept := Kept(segments, fit);
    var last := InZone(segments, RecentObservation);
    InZoneMember(segments, RecentObservation);
    assert last[|last| - 1] in last;
    assert kept[|kept| - 1] == last[|last| - 1];
    ShrinkAllFrame(kept, fit);
  }

  /** What does not have to go stays: without overhead and messages over the budget
    * nothing is evicted, no more is evicted than makes the rest fit, and texts are cut
    * only when what survives is still over the budget.
    */
  lemma NothingInVain(b: ContextBuilder, segments: seq<Segment>)
    ensures var fit := b.Fit();
            && (TotalCost(segments) + b.fixedOverhead <= b.budget ==>
                  && Assembled(segments, fit) == Layout(segments)
                  && DroppedZones(|InZone(segments, HistorySummary)|, Evicted(segments, fit)) == [])
            && (forall k :: 0 <= k < Evicted(segments, fit) ==> TotalCost(Survivors(segments, k)) + b.fixedOverhead > b.budget)
            && (Assembled(segments, fit) != Kept(segments, fit) ==> TotalCost(Kept(segments, fit)) + b.fixedOverhead > b.budget)
  {
    var fit := b.Fit();
    EvictionIsLeast(segments, fit);
    NoneDropped(|InZone(segments, HistorySummary)|);
    hide TotalCost, Survivors, Layout, InZone, DroppedZones, Evicted;
    if TotalCost(segments) + b.fixedOverhead <= b.budget {
      FittingPromptUntouched(segments, fit);
    }
    FittingIsNotCut(segments, fit);
  }

  lemma NoneDropped(historyCount: nat)
    ensures DroppedZones(historyCount, 0) == []
  {
  }

  lemma FittingIsNotCut(segments: seq<Segment>, fit: nat)
    ensures TotalCost(Kept(segments, fit)) <= fit ==> Assembled(segments, fit) == Kept(segments, fit)
  {
    hide Kept, TotalCost;
  }

  // ----- the order of the finished prompt

  lemma DropTwice<T>(a: seq<T>, r: seq<T>, h: seq<T>, b: seq<T>, i: nat, j: nat) returns (at: seq<nat>)
    requires i <= |h| && j <= |r|
    ensures PickedAt(a + r[j..] + h[i..] + b, a + r + h + b, at)
  {
    var xs, ys := a + r[j..] + h[i..] + b, a + r + h + b;
    var m := |a| + |r| - j;
    at := seq(|xs|, k requires 0 <= k < |xs| => if k < |a| then k else if k < m then k + j else k + j + i);
    forall k | 0 <= k < |xs| ensures at[k] < |ys| && ys[at[k]] == xs[k] {
      if k < |a| {
        assert xs[k] == a[k];
      } else if k < m {
        assert xs[k] == r[k - |a| + j];
      } else if k < m + |h| - i {
        assert xs[k] == h[k - m + i];
      }
    }
  }

  /** Eviction picks out of the layout and reorders nothing. */
  lemma KeptIsPicked(segments: seq<Segment>, fit: nat) returns (at: seq<nat>)
    ensures PickedAt(Kept(segments, fit), Layout(segments), at)
  {
    var k := Evicted(segments, fit);
    var i := Min(k, |InZone(segments, HistorySummary)|);
    assert Kept(segments, fit) == Survivors(segments, k);
    hide Kept, InZone, Evicted;
    at := DropTwice(BeforeBackground(segments), InZone(segments, Retrieved), InZone(segments, HistorySummary),
                    AfterBackground(segments), i, k - i);
  }

  lemma PickedIsSorted(xs: seq<Segment>, ys: seq<Segment>, at: seq<nat>)
    requires PickedAt(xs, ys, at) && SortedBy(ys, LayoutKey)
    ensures SortedBy(xs, LayoutKey)
  {
    hide LayoutKey;
    forall i, j | 0 <= i < j < |xs| ensures LayoutKey(xs[i]) <= LayoutKey(xs[j]) {
      assert at[i] < at[j];
    }
  }

  lemma ShrunkStaysSorted(before: seq<Segment>, after: seq<Segment>)
    requires OnlyShrunk(before, after) && SortedBy(before, LayoutKey)
    ensures SortedBy(after, LayoutKey)
  {
    hide Cost;
    assert forall i :: 0 <= i < |after| ==> after[i].zone == before[i].zone;
    forall i, j | 0 <= i < j < |after| ensures LayoutKey(after[i]) <= LayoutKey(after[j]) {
      assert LayoutKey(before[i]) <= LayoutKey(before[j]);
    }
  }

  /** The finished prompt is in layout order, and each message is the segment of the
    * layout at the same pick, with its text at most shortened.
    */
  lemma AssembledInOrder(segments: seq<Segment>, fit: nat) returns (at: seq<nat>)
    ensures PickedAt(Kept(segments, fit), Layout(segments), at)
    ensures OnlyShrunk(Kept(segments, fit), Assembled(segments, fit))
    ensures SortedBy(Assembled(segments, fit), LayoutKey)
  {
    at := KeptIsPicked(segments, fit);
    assert Assembled(segments, fit) == ShrinkAll(Kept(segments, fit), fit);
    hide *;
    LayoutSorted(segments);
    PickedIsSorted(Kept(segments, fit), Layout(segments), at);
    ShrinkAllFrame(Kept(segments, fit), fit);
    ShrunkStaysSorted(Kept(segments, fit), Assembled(segments, fit));
  }

  // ----- the budget itself

  /** The usable part of the window. */
  function Effective(maxContextTokens: nat, fraction: real): nat {
    var x := maxContextTokens as real * fraction;
    if x < 0.0 then 0 else x.Floor
  }

  function PromptBudget(maxContextTokens: nat, fraction: real, responseReserve: nat): nat {
    var effective := Effective(maxContextTokens, fraction);
    SaturatingSub(effective, Min(responseReserve, effective / 2))
  }

  /** The usable part is the fraction of the window, rounded down. */
  lemma EffectiveExactly(maxContextTokens: nat, fraction: real)
    ensures var effective := Effective(maxContextTokens, fraction);
            if fraction < 0.0 then effective == 0
            else effective as real <= maxContextTokens as real * fraction < effective as real + 1.0
  {
    if fraction < 0.0 {
      assert maxContextTokens as real * fraction <= 0.0;
    } else {
      assert maxContextTokens as real * fraction >= 0.0;
    }
  }

  /** The reserve never takes more than half the window: it is honoured in full
    * exactly when it asks for no more than that, and gets the half otherwise.
    */
  lemma ReserveNeverTakesTheWindow(maxContextTokens: nat, fraction: real, responseReserve: nat)
    ensures var effective := Effective(maxContextTokens, fraction);
            var budget := PromptBudget(maxContextTokens, fraction, responseReserve);
            && effective <= 2 * budget
            && (effective > 0 ==> budget > 0)
            && (budget + responseReserve == effective <==> responseReserve <= effective / 2)
            && effective <= budget + responseReserve
            && (responseReserve > effective / 2 ==> 2 * budget <= effective + 1)
  {
  }
}
