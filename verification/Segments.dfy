/** Prompt segments and zones: what a prompt is assembled from. */
module Segments {
  import opened Basics
  import opened StableSort
  import opened Tokens

  // Descending priority: a later zone is evicted earlier.
  datatype Zone = System | TaskAnchor | FocusFile | RecentObservation | Retrieved | HistorySummary
  {
    function Priority(): nat {
      match this
      case System => 0
      case TaskAnchor => 1
      case FocusFile => 2
      case RecentObservation => 3
      case Retrieved => 4
      case HistorySummary => 5
    }

    predicate IsSacred() {
      System? || TaskAnchor? || FocusFile? || RecentObservation?
    }

    function LayoutRank(): nat {
      match this
      case System => 0
      case TaskAnchor => 1
      case Retrieved => 2
      case HistorySummary => 3
      case FocusFile => 4
      case RecentObservation => 5
    }
  }

  datatype Role = SystemRole | User | Assistant | Tool

  datatype ToolCallRecord = ToolCallRecord(id: string, name: string, arguments: string)

  datatype Segment = Segment(
    zone: Zone, role: Role, text: string, toolCalls: seq<ToolCallRecord>, toolCallId: Option<string>)

  /** A segment as the request carries it: its text and the template markup. */
  function Cost(s: Segment): nat {
    EstimateTokens(s.text) + MESSAGE_OVERHEAD_TOKENS
  }

  function TotalCost(segments: seq<Segment>): nat {
    if segments == [] then 0 else Cost(segments[0]) + TotalCost(segments[1..])
  }

  function LayoutKey(s: Segment): int { s.zone.LayoutRank() }

  /** The segments of one zone, in order. */
  function InZone(segments: seq<Segment>, z: Zone): seq<Segment> {
    WithKey(segments, LayoutKey, z.LayoutRank())
  }

  function BeforeBackground(segments: seq<Segment>): seq<Segment> {
    InZone(segments, System) + InZone(segments, TaskAnchor)
  }

  function AfterBackground(segments: seq<Segment>): seq<Segment> {
    InZone(segments, FocusFile) + InZone(segments, RecentObservation)
  }

  /** The prompt layout: zone by zone, input order within a zone. */
  function Layout(segments: seq<Segment>): seq<Segment> {
    BeforeBackground(segments) + InZone(segments, Retrieved) + InZone(segments, HistorySummary)
    + AfterBackground(segments)
  }

  /** How many segments are never dropped. */
  function SacredCount(segments: seq<Segment>): nat {
    if segments == [] then 0
    else (if segments[0].zone.IsSacred() then 1 else 0) + SacredCount(segments[1..])
  }

  lemma InZoneMember(segments: seq<Segment>, z: Zone)
    ensures forall s :: s in InZone(segments, z) <==> s in segments && s.zone == z
  {
  }

  lemma {:induction false} TotalCostConcat(a: seq<Segment>, b: seq<Segment>)
    ensures TotalCost(a + b) == TotalCost(a) + TotalCost(b)
  {
    if a == [] {
      assert a + b == b;
    } else {
      assert (a + b)[1..] == a[1..] + b;
      TotalCostConcat(a[1..], b);
    }
  }

  /** Segments whose ranks lie between `low` and `high`, in order of rank. */
  ghost predicate Ranked(s: seq<Segment>, low: int, high: int) {
    SortedBy(s, LayoutKey) && forall i :: 0 <= i < |s| ==> low <= LayoutKey(s[i]) <= high
  }

  lemma RankedConcat(a: seq<Segment>, b: seq<Segment>, low: int, mid: int, high: int)
    requires Ranked(a, low, mid) && Ranked(b, mid, high) && low <= mid <= high
    ensures Ranked(a + b, low, high)
  {
    hide LayoutKey;
  }

  lemma ZoneRanked(segments: seq<Segment>, z: Zone)
    ensures Ranked(InZone(segments, z), z.LayoutRank(), z.LayoutRank())
  {
    hide WithKey;
    InZoneMember(segments, z);
    var s := InZone(segments, z);
    assert forall i :: 0 <= i < |s| ==> s[i] in s && LayoutKey(s[i]) == z.LayoutRank();
  }

  lemma RankedWiden(s: seq<Segment>, low: int, high: int, low': int, high': int)
    requires Ranked(s, low, high) && low' <= low && high <= high'
    ensures Ranked(s, low', high')
  {
    hide LayoutKey;
  }

  lemma TwoZonesRanked(segments: seq<Segment>, y: Zone, z: Zone)
    requires y.LayoutRank() <= z.LayoutRank()
    ensures Ranked(InZone(segments, y) + InZone(segments, z), y.LayoutRank(), z.LayoutRank())
  {
    ZoneRanked(segments, y);
    ZoneRanked(segments, z);
    hide Ranked, InZone;
    RankedWiden(InZone(segments, y), y.LayoutRank(), y.LayoutRank(), y.LayoutRank(), z.LayoutRank());
    RankedConcat(InZone(segments, y), InZone(segments, z), y.LayoutRank(), z.LayoutRank(), z.LayoutRank());
  }

  lemma LayoutSorted(segments: seq<Segment>)
    ensures SortedBy(Layout(segments), LayoutKey)
  {
    var r, h := InZone(segments, Retrieved), InZone(segments, HistorySummary);
    TwoZonesRanked(segments, System, TaskAnchor);
    ZoneRanked(segments, Retrieved);
    ZoneRanked(segments, HistorySummary);
    TwoZonesRanked(segments, FocusFile, RecentObservation);
    var a, b := BeforeBackground(segments), AfterBackground(segments);
    assert Layout(segments) == a + r + h + b;
    hide InZone, Layout, BeforeBackground, AfterBackground, Ranked;
    RankedWiden(a, 0, 1, 0, 2);
    RankedConcat(a, r, 0, 2, 2);
    RankedWiden(a + r, 0, 2, 0, 3);
    RankedConcat(a + r, h, 0, 3, 3);
    RankedWiden(a + r + h, 0, 3, 0, 4);
    RankedConcat(a + r + h, b, 0, 4, 5);
    RankedMeans(a + r + h + b);
  }

  lemma RankedMeans(s: seq<Segment>)
    requires Ranked(s, 0, 5)
    ensures SortedBy(s, LayoutKey)
  {
  }

  lemma WithKeyOfSix(a: seq<Segment>, a': seq<Segment>, r: seq<Segment>, h: seq<Segment>,
                     b: seq<Segment>, b': seq<Segment>, k: int)
    ensures WithKey(a + a' + r + h + (b + b'), LayoutKey, k)
         == WithKey(a, LayoutKey, k) + WithKey(a', LayoutKey, k) + WithKey(r, LayoutKey, k)
            + WithKey(h, LayoutKey, k) + WithKey(b, LayoutKey, k) + WithKey(b', LayoutKey, k)
  {
    WithKeyConcat(a + a' + r + h, b + b', LayoutKey, k);
    WithKeyConcat(a + a' + r, h, LayoutKey, k);
    WithKeyConcat(a + a', r, LayoutKey, k);
    WithKeyConcat(a, a', LayoutKey, k);
    WithKeyConcat(b, b', LayoutKey, k);
  }

  lemma WithKeyOfZone(s: seq<Segment>, z: Zone, k: int)
    requires forall x :: x in s ==> x.zone == z
    ensures WithKey(s, LayoutKey, k) == if k == z.LayoutRank() then s else []
  {
    if k == z.LayoutRank() {
      WithKeyAll(s, LayoutKey, k);
    } else {
      WithKeyNone(s, LayoutKey, k);
    }
  }

  /** Six zone-pure stretches: each key selects one of them. */
  lemma WithKeyOfStretches(a: seq<Segment>, a': seq<Segment>, r: seq<Segment>, h: seq<Segment>,
                           b: seq<Segment>, b': seq<Segment>, k: int)
    requires forall x :: x in a ==> x.zone == System
    requires forall x :: x in a' ==> x.zone == TaskAnchor
    requires forall x :: x in r ==> x.zone == Retrieved
    requires forall x :: x in h ==> x.zone == HistorySummary
    requires forall x :: x in b ==> x.zone == FocusFile
    requires forall x :: x in b' ==> x.zone == RecentObservation
    ensures WithKey(a + a' + r + h + (b + b'), LayoutKey, k)
         == if k == 0 then a else if k == 1 then a' else if k == 2 then r
            else if k == 3 then h else if k == 4 then b else if k == 5 then b' else []
  {
    hide WithKey, LayoutKey;
    WithKeyOfZone(a, System, k);
    WithKeyOfZone(a', TaskAnchor, k);
    WithKeyOfZone(r, Retrieved, k);
    WithKeyOfZone(h, HistorySummary, k);
    WithKeyOfZone(b, FocusFile, k);
    WithKeyOfZone(b', RecentObservation, k);
    WithKeyOfSix(a, a', r, h, b, b', k);
    OneOfSix(a, a', r, h, b, b', k);
  }

  lemma OneOfSix(a: seq<Segment>, a': seq<Segment>, r: seq<Segment>, h: seq<Segment>,
                 b: seq<Segment>, b': seq<Segment>, k: int)
    ensures (if k == 0 then a else []) + (if k == 1 then a' else []) + (if k == 2 then r else [])
            + (if k == 3 then h else []) + (if k == 4 then b else []) + (if k == 5 then b' else [])
         == if k == 0 then a else if k == 1 then a' else if k == 2 then r
            else if k == 3 then h else if k == 4 then b else if k == 5 then b' else []
  {
  }

  lemma WithKeyOfLayout(segments: seq<Segment>, k: int)
    ensures WithKey(Layout(segments), LayoutKey, k) == WithKey(segments, LayoutKey, k)
  {
    WithKeyOfStretches(InZone(segments, System), InZone(segments, TaskAnchor),
                       InZone(segments, Retrieved), InZone(segments, HistorySummary),
                       InZone(segments, FocusFile), InZone(segments, RecentObservation), k);
    if !(0 <= k <= 5) {
      WithKeyNone(segments, LayoutKey, k);
    }
  }

  /** The stable sort by layout rank is the zone-by-zone layout. */
  lemma LayoutIsStableSort(segments: seq<Segment>)
    ensures SortBy(segments, LayoutKey) == Layout(segments)
    ensures multiset(Layout(segments)) == multiset(segments)
    ensures forall z: Zone :: InZone(Layout(segments), z) == InZone(segments, z)
  {
    SortByIsStable(segments, LayoutKey);
    LayoutSorted(segments);
    forall k ensures WithKey(Layout(segments), LayoutKey, k) == WithKey(segments, LayoutKey, k) {
      WithKeyOfLayout(segments, k);
    }
    StableSortUnique(SortBy(segments, LayoutKey), Layout(segments), LayoutKey);
  }

  /** Sorting again changes nothing. */
  lemma SortedIsLayout(segments: seq<Segment>)
    requires SortedBy(segments, LayoutKey)
    ensures segments == Layout(segments)
  {
    LayoutSorted(segments);
    forall k ensures WithKey(Layout(segments), LayoutKey, k) == WithKey(segments, LayoutKey, k) {
      WithKeyOfLayout(segments, k);
    }
    StableSortUnique(segments, Layout(segments), LayoutKey);
  }
}
