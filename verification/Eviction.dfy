/** Eviction: drop whole non-sacred segments, lowest priority first and then in
  * prompt order, until the rest fits or nothing evictable is left.
  */
module Eviction {
  import opened Basics
  import opened StableSort
  import opened Segments

  // ----- the order segments are considered in

  /** The integers `a .. b`. */
  function Range(a: nat, b: nat): (r: seq<int>)
    requires a <= b
    ensures |r| == b - a
  {
    seq(b - a, i requires 0 <= i < b - a => a + i)
  }

  /** Least important zone first. */
  function EvictKey(segments: seq<Segment>): int -> int {
    i => if 0 <= i < |segments| then -(segments[i].zone.Priority() as int) else 1
  }

  function EvictOrder(segments: seq<Segment>): seq<int> {
    SortBy(Range(0, |segments|), EvictKey(segments))
  }

  // ----- what is evicted

  /** The evictable segments in the order they go. */
  function Candidates(segments: seq<Segment>): seq<Segment> {
    InZone(segments, HistorySummary) + InZone(segments, Retrieved)
  }

  /** How many candidates are gone in the end, `k` of them being gone already. */
  function EvictCount(running: int, candidates: seq<Segment>, k: nat, fit: nat): (e: nat)
    requires k <= |candidates|
    ensures k <= e <= |candidates|
    decreases |candidates| - k
  {
    if running <= fit || k == |candidates| then k
    else EvictCount(running - Cost(candidates[k]), candidates, k + 1, fit)
  }

  /** What is left when the first `k` candidates are gone. */
  function Survivors(segments: seq<Segment>, k: nat): seq<Segment>
    requires k <= |Candidates(segments)|
  {
    var h := Min(k, |InZone(segments, HistorySummary)|);
    BeforeBackground(segments)
    + InZone(segments, Retrieved)[k - h..]
    + InZone(segments, HistorySummary)[h..]
    + AfterBackground(segments)
  }

  /** The zones hit when the first `k` candidates are gone. */
  function DroppedZones(historyCount: nat, k: nat): seq<Zone> {
    (if k > 0 && historyCount > 0 then [HistorySummary] else [])
    + (if k > historyCount then [Retrieved] else [])
  }

  lemma TotalCostSnoc(segments: seq<Segment>, k: nat)
    requires k < |segments|
    ensures TotalCost(segments[..k + 1]) == TotalCost(segments[..k]) + Cost(segments[k])
  {
    assert segments[..k + 1] == segments[..k] + [segments[k]];
    TotalCostConcat(segments[..k], [segments[k]]);
  }

  lemma EvictCountStep(running: int, candidates: seq<Segment>, k: nat, fit: nat)
    requires k < |candidates|
    ensures EvictCount(running, candidates, k, fit)
         == if running <= fit then k else EvictCount(running - Cost(candidates[k]), candidates, k + 1, fit)
  {
  }

  /** What is left to pay for after the first `k` candidates. */
  function CostLeft(total: int, candidates: seq<Segment>, k: nat): int
    requires k <= |candidates|
  {
    total - TotalCost(candidates[..k])
  }

  lemma {:induction false} EvictCountFrom(total: int, candidates: seq<Segment>, k: nat, fit: nat)
    requires k <= |candidates|
    ensures var e := EvictCount(CostLeft(total, candidates, k), candidates, k, fit);
            && (e == |candidates| || CostLeft(total, candidates, e) <= fit)
            && (forall j :: k <= j < e ==> CostLeft(total, candidates, j) > fit)
    decreases |candidates| - k
  {
    if k < |candidates| {
      TotalCostSnoc(candidates, k);
      EvictCountStep(CostLeft(total, candidates, k), candidates, k, fit);
      assert CostLeft(total, candidates, k + 1) == CostLeft(total, candidates, k) - Cost(candidates[k]);
      hide CostLeft, Cost, EvictCount;
      EvictCountFrom(total, candidates, k + 1, fit);
    }
  }

  /** The evicted prefix is the SHORTEST that makes the rest fit, or all of it. */
  lemma EvictCountIsLeast(total: int, candidates: seq<Segment>, fit: nat)
    ensures var e := EvictCount(total, candidates, 0, fit);
            && (e == |candidates| || total - TotalCost(candidates[..e]) <= fit)
            && (forall j :: 0 <= j < e ==> total - TotalCost(candidates[..j]) > fit)
  {
    assert CostLeft(total, candidates, 0) == total;
    EvictCountFrom(total, candidates, 0, fit);
    hide TotalCost, EvictCount;
    var e := EvictCount(total, candidates, 0, fit);
    forall j | 0 <= j < e ensures total - TotalCost(candidates[..j]) > fit {
      assert CostLeft(total, candidates, j) > fit;
    }
  }

  // ----- the order, block by block

  lemma {:induction false} RangeSplit(a: nat, b: nat, c: nat)
    requires a <= b <= c
    ensures Range(a, c) == Range(a, b) + Range(b, c)
  {
  }

  /** Zone by zone: sacred, retrieved, history, sacred. */
  predicate Blocks(a: seq<Segment>, r: seq<Segment>, h: seq<Segment>, b: seq<Segment>) {
    && (forall i :: 0 <= i < |a| ==> a[i].zone.IsSacred())
    && (forall i :: 0 <= i < |r| ==> r[i].zone == Retrieved)
    && (forall i :: 0 <= i < |h| ==> h[i].zone == HistorySummary)
    && (forall i :: 0 <= i < |b| ==> b[i].zone.IsSacred())
  }

  /** Sacred, retrieved, history, sacred, at positions `i`, `j` and `k`. */
  predicate ZonesAt(segments: seq<Segment>, i: nat, j: nat, k: nat)
    requires i <= j <= k <= |segments|
  {
    && (forall n :: 0 <= n < i ==> segments[n].zone.IsSacred())
    && (forall n :: i <= n < j ==> segments[n].zone == Retrieved)
    && (forall n :: j <= n < k ==> segments[n].zone == HistorySummary)
    && (forall n :: k <= n < |segments| ==> segments[n].zone.IsSacred())
  }

  lemma BlockZones(
      a: seq<Segment>, r: seq<Segment>, h: seq<Segment>, b: seq<Segment>, segments: seq<Segment>)
    requires Blocks(a, r, h, b) && segments == a + r + h + b
    ensures ZonesAt(segments, |a|, |a| + |r|, |a| + |r| + |h|)
  {
  }

  /** In a laid-out prompt the candidates are considered history first, then
    * retrieved, each in prompt order; the sacred segments come after them.
    */
  lemma EvictOrderOfLayout(segments: seq<Segment>, i: nat, j: nat, k: nat, rest: seq<int>)
    requires i <= j <= k <= |segments|
    requires ZonesAt(segments, i, j, k)
    requires rest == SortBy(Range(0, i) + Range(k, |segments|), EvictKey(segments))
    ensures EvictOrder(segments) == Range(j, k) + Range(i, j) + rest
    ensures forall n :: n in rest ==> 0 <= n < |segments| && segments[n].zone.IsSacred()
  {
    RestIsSacred(segments, Range(0, i), Range(k, |segments|), rest);
    RangeSplit(0, i, j);
    RangeSplit(0, j, k);
    RangeSplit(0, k, |segments|);
    OrderOfBlocks(Range(0, i), Range(i, j), Range(j, k), Range(k, |segments|), rest, EvictKey(segments));
  }

  lemma OrderLength(segments: seq<Segment>)
    ensures |EvictOrder(segments)| == |segments|
  {
    SortByIsStable(Range(0, |segments|), EvictKey(segments));
    assert |multiset(EvictOrder(segments))| == |multiset(Range(0, |segments|))|;
  }

  lemma OrderAt(segments: seq<Segment>, i: nat, j: nat, k: nat, pos: nat)
    requires i <= j <= k <= |segments| && ZonesAt(segments, i, j, k)
    requires pos < |EvictOrder(segments)|
    ensures pos < k - i ==> EvictOrder(segments)[pos] == (Range(j, k) + Range(i, j))[pos]
    ensures pos >= k - i ==>
      0 <= EvictOrder(segments)[pos] < |segments| && segments[EvictOrder(segments)[pos]].zone.IsSacred()
  {
    var rest := SortBy(Range(0, i) + Range(k, |segments|), EvictKey(segments));
    EvictOrderOfLayout(segments, i, j, k, rest);
    if pos >= k - i {
      assert EvictOrder(segments)[pos] == rest[pos - (k - i)];
      assert rest[pos - (k - i)] in rest;
    }
  }

  lemma RestIsSacred(segments: seq<Segment>, ra: seq<int>, rb: seq<int>, rest: seq<int>)
    requires rest == SortBy(ra + rb, EvictKey(segments))
    requires forall i :: 0 <= i < |ra| ==> 0 <= ra[i] < |segments| && segments[ra[i]].zone.IsSacred()
    requires forall i :: 0 <= i < |rb| ==> 0 <= rb[i] < |segments| && segments[rb[i]].zone.IsSacred()
    ensures forall i :: i in rest ==> 0 <= i < |segments| && segments[i].zone.IsSacred()
  {
    SortByIsStable(ra + rb, EvictKey(segments));
    forall i | i in rest ensures 0 <= i < |segments| && segments[i].zone.IsSacred() {
      assert i in multiset(ra + rb);
      assert i in ra || i in rb;
    }
  }

  lemma OrderOfBlocks(
      ra: seq<int>, rr: seq<int>, rh: seq<int>, rb: seq<int>, rest: seq<int>, key: int -> int)
    requires forall i :: 0 <= i < |rh| ==> key(rh[i]) == -5
    requires forall i :: 0 <= i < |rr| ==> key(rr[i]) == -4
    requires forall i :: 0 <= i < |ra| ==> key(ra[i]) >= -3
    requires forall i :: 0 <= i < |rb| ==> key(rb[i]) >= -3
    requires rest == SortBy(ra + rb, key)
    ensures SortBy(ra + rr + rh + rb, key) == rh + rr + rest
  {
    SortByIsStable(ra + rb, key);
    forall i | 0 <= i < |rest| ensures key(rest[i]) >= -3 {
      assert rest[i] in multiset(ra + rb);
      assert rest[i] in ra || rest[i] in rb;
    }
    OrderSorted(rh, rr, rest, key);
    SortByIsStable(ra + rr + rh + rb, key);
    forall k ensures WithKey(rh + rr + rest, key, k) == WithKey(SortBy(ra + rr + rh + rb, key), key, k) {
      WithKeyConcat(ra, rb, key, k);
      WithKeyOfBlocks(ra, rr, rh, rb, rest, key, k);
    }
    StableSortUnique(SortBy(ra + rr + rh + rb, key), rh + rr + rest, key);
  }

  lemma OrderSorted(rh: seq<int>, rr: seq<int>, rest: seq<int>, key: int -> int)
    requires forall i :: 0 <= i < |rh| ==> key(rh[i]) == -5
    requires forall i :: 0 <= i < |rr| ==> key(rr[i]) == -4
    requires forall i :: 0 <= i < |rest| ==> key(rest[i]) >= -3
    requires SortedBy(rest, key)
    ensures SortedBy(rh + rr + rest, key)
  {
  }

  lemma WithKeyOfFour(a: seq<int>, b: seq<int>, c: seq<int>, d: seq<int>, key: int -> int, k: int)
    ensures WithKey(a + b + c + d, key, k)
         == WithKey(a, key, k) + WithKey(b, key, k) + WithKey(c, key, k) + WithKey(d, key, k)
  {
    WithKeyConcat(a + b + c, d, key, k);
    WithKeyConcat(a + b, c, key, k);
    WithKeyConcat(a, b, key, k);
  }

  /** All of `s` has one key. */
  lemma WithKeyOfUniform(s: seq<int>, key: int -> int, c: int, k: int)
    requires forall i :: 0 <= i < |s| ==> key(s[i]) == c
    ensures WithKey(s, key, k) == if k == c then s else []
  {
    if k == c {
      WithKeyAll(s, key, k);
    } else {
      WithKeyNone(s, key, k);
    }
  }

  lemma Regroup(a: seq<int>, b: seq<int>, c: seq<int>, d: seq<int>)
    requires (b == [] && c == []) || (a == [] && d == [] && (b == [] || c == []))
    ensures c + b + (a + d) == a + b + c + d
  {
  }

  lemma WithKeyOfBlocks(
      ra: seq<int>, rr: seq<int>, rh: seq<int>, rb: seq<int>, rest: seq<int>, key: int -> int, k: int)
    requires forall i :: 0 <= i < |rh| ==> key(rh[i]) == -5
    requires forall i :: 0 <= i < |rr| ==> key(rr[i]) == -4
    requires forall i :: 0 <= i < |ra| ==> key(ra[i]) >= -3
    requires forall i :: 0 <= i < |rb| ==> key(rb[i]) >= -3
    requires WithKey(rest, key, k) == WithKey(ra, key, k) + WithKey(rb, key, k)
    ensures WithKey(rh + rr + rest, key, k) == WithKey(ra + rr + rh + rb, key, k)
  {
    if k < -3 {
      WithKeyNone(ra, key, k);
      WithKeyNone(rb, key, k);
    }
    WithKeyOfUniform(rr, key, -4, k);
    WithKeyOfUniform(rh, key, -5, k);
    Regroup(WithKey(ra, key, k), WithKey(rr, key, k), WithKey(rh, key, k), WithKey(rb, key, k));
    WithKeyOfFour(ra, rr, rh, rb, key, k);
    WithKeyConcat(rh + rr, rest, key, k);
    WithKeyConcat(rh, rr, key, k);
  }

  // ----- keeping what was not evicted

  function Keep(segments: seq<Segment>, evicted: seq<bool>): seq<Segment>
    requires |segments| == |evicted|
  {
    if segments == [] then []
    else
      var n := |segments| - 1;
      Keep(segments[..n], evicted[..n]) + if evicted[n] then [] else [segments[n]]
  }

  lemma KeepLast(s: seq<Segment>, e: seq<bool>)
    requires |s| == |e| && s != []
    ensures var n := |s| - 1;
            Keep(s, e) == Keep(s[..n], e[..n]) + if e[n] then [] else [s[n]]
  {
  }

  lemma {:induction false} KeepConcat(s: seq<Segment>, e: seq<bool>, s': seq<Segment>, e': seq<bool>)
    requires |s| == |e| && |s'| == |e'|
    ensures Keep(s + s', e + e') == Keep(s, e) + Keep(s', e')
  {
    if s' == [] {
      assert s + s' == s && e + e' == e;
    } else {
      var n := |s'| - 1;
      assert (s + s')[..|s| + n] == s + s'[..n] && (e + e')[..|s| + n] == e + e'[..n];
      KeepConcat(s, e, s'[..n], e'[..n]);
      KeepLast(s', e');
      KeepLast(s + s', e + e');
      hide Keep;
      assert (s + s')[|s| + n] == s'[n] && (e + e')[|s| + n] == e'[n];
    }
  }

  function Flags(n: nat, b: bool): (f: seq<bool>)
    ensures |f| == n
  {
    seq(n, _ => b)
  }

  lemma {:induction false} KeepUniform(s: seq<Segment>, b: bool)
    ensures Keep(s, Flags(|s|, b)) == if b then [] else s
  {
    if s != [] {
      var n := |s| - 1;
      assert Flags(|s|, b)[..n] == Flags(n, b);
      KeepUniform(s[..n], b);
    }
  }

  lemma KeepRest(s: seq<Segment>, n: nat)
    requires n <= |s|
    ensures Keep(s, Flags(n, true) + Flags(|s| - n, false)) == s[n..]
  {
    hide Keep, Flags;
    assert s == s[..n] + s[n..];
    KeepConcat(s[..n], Flags(n, true), s[n..], Flags(|s| - n, false));
    KeepUniform(s[..n], true);
    KeepUniform(s[n..], false);
  }

  /** Which positions of `a + r + h + b` are gone after `e` evictions. */
  predicate Gone(a: nat, r: nat, h: nat, e: nat, i: int) {
    a + r <= i < a + r + Min(e, h) || a <= i < a + (e - Min(e, h))
  }

  lemma KeepFour(
      a: seq<Segment>, r: seq<Segment>, h: seq<Segment>, b: seq<Segment>,
      ea: seq<bool>, er: seq<bool>, eh: seq<bool>, eb: seq<bool>)
    requires |a| == |ea| && |r| == |er| && |h| == |eh| && |b| == |eb|
    ensures Keep(a + r + h + b, ea + er + eh + eb) == Keep(a, ea) + Keep(r, er) + Keep(h, eh) + Keep(b, eb)
  {
    KeepConcat(a + r + h, ea + er + eh, b, eb);
    KeepConcat(a + r, ea + er, h, eh);
    KeepConcat(a, ea, r, er);
  }

  predicate Marked(ev: seq<bool>, a: nat, r: nat, h: nat, e: nat) {
    forall i :: 0 <= i < |ev| ==> (ev[i] <==> Gone(a, r, h, e, i))
  }

  lemma MarkedIsFlags(ev: seq<bool>, a: nat, r: nat, h: nat, b: nat, e: nat)
    requires e <= r + h && |ev| == a + r + h + b && Marked(ev, a, r, h, e)
    ensures ev == Flags(a, false)
               + (Flags(e - Min(e, h), true) + Flags(r - (e - Min(e, h)), false))
               + (Flags(Min(e, h), true) + Flags(h - Min(e, h), false))
               + Flags(b, false)
  {
  }

  lemma KeepBlocks(
      a: seq<Segment>, r: seq<Segment>, h: seq<Segment>, b: seq<Segment>, ev: seq<bool>, e: nat)
    requires e <= |r| + |h| && |ev| == |a| + |r| + |h| + |b|
    requires Marked(ev, |a|, |r|, |h|, e)
    ensures Keep(a + r + h + b, ev) == a + r[e - Min(e, |h|)..] + h[Min(e, |h|)..] + b
  {
    var p: nat := Min(e, |h|);
    var m: nat := e - p;
    assert m <= |r|;
    MarkedIsFlags(ev, |a|, |r|, |h|, |b|, e);
    hide Marked, Keep, Min, Flags;
    KeepFour(a, r, h, b, Flags(|a|, false), Flags(m, true) + Flags(|r| - m, false),
             Flags(p, true) + Flags(|h| - p, false), Flags(|b|, false));
    KeepUniform(a, false);
    KeepRest(r, m);
    KeepRest(h, p);
    KeepUniform(b, false);
  }

  // ----- the eviction loop

  lemma CandidateAt(segments: seq<Segment>, i: nat, j: nat, k: nat, e: nat, idx: int)
    requires i <= j <= k <= |segments| && e < k - i && ZonesAt(segments, i, j, k)
    requires idx == (Range(j, k) + Range(i, j))[e]
    ensures 0 <= idx < |segments|
    ensures segments[idx] == (segments[j..k] + segments[i..j])[e]
    ensures segments[idx].zone == if e < k - j then HistorySummary else Retrieved
  {
  }

  lemma MarkStep(ev: seq<bool>, i: nat, j: nat, k: nat, e: nat, idx: int)
    requires i <= j <= k <= |ev| && e < k - i && Marked(ev, i, j - i, k - j, e)
    requires idx == (Range(j, k) + Range(i, j))[e]
    ensures 0 <= idx < |ev|
    ensures Marked(ev[idx := true], i, j - i, k - j, e + 1)
  {
  }

  lemma DroppedStep(historyCount: nat, e: nat, z: Zone)
    requires z == if e < historyCount then HistorySummary else Retrieved
    ensures var d := DroppedZones(historyCount, e);
            DroppedZones(historyCount, e + 1) == if z in d then d else d + [z]
  {
  }

  /** The state of the eviction loop after `pos` of the considered positions;
    * the blocks before the history have `a` and `r` segments, and it has `h`.
    */
  ghost predicate EvictState(candidates: seq<Segment>, a: nat, r: nat, h: nat, total: int, fit: nat,
                             pos: nat, running: int, evicted: seq<bool>, dropped: seq<Zone>)
  {
    var e := if pos <= |candidates| then pos else |candidates|;
    && Marked(evicted, a, r, h, e)
    && EvictCount(total, candidates, 0, fit) == EvictCount(running, candidates, e, fit)
    && dropped == DroppedZones(h, e)
  }

  lemma EvictTakes(candidates: seq<Segment>, a: nat, r: nat, h: nat, total: int, fit: nat,
                   pos: nat, running: int, evicted: seq<bool>, dropped: seq<Zone>, idx: int)
    requires EvictState(candidates, a, r, h, total, fit, pos, running, evicted, dropped)
    requires pos < |candidates| == r + h && a + r + h <= |evicted| && running > fit
    requires idx == (Range(a + r, a + r + h) + Range(a, a + r))[pos]
    requires candidates[pos].zone == if pos < h then HistorySummary else Retrieved
    ensures 0 <= idx < |evicted|
    ensures var s := candidates[pos];
            EvictState(candidates, a, r, h, total, fit, pos + 1, running - Cost(s), evicted[idx := true],
                       if s.zone in dropped then dropped else dropped + [s.zone])
  {
    hide Marked, DroppedZones;
    MarkStep(evicted, a, a + r, a + r + h, pos, idx);
    DroppedStep(h, pos, candidates[pos].zone);
  }

  lemma EvictSkips(candidates: seq<Segment>, a: nat, r: nat, h: nat, total: int, fit: nat,
                   pos: nat, running: int, evicted: seq<bool>, dropped: seq<Zone>)
    requires EvictState(candidates, a, r, h, total, fit, pos, running, evicted, dropped)
    requires pos >= |candidates|
    ensures EvictState(candidates, a, r, h, total, fit, pos + 1, running, evicted, dropped)
  {
    hide Marked, DroppedZones, EvictCount;
  }

  lemma EvictStarts(candidates: seq<Segment>, a: nat, r: nat, h: nat, total: int, fit: nat, evicted: seq<bool>)
    requires forall n :: 0 <= n < |evicted| ==> !evicted[n]
    ensures EvictState(candidates, a, r, h, total, fit, 0, total, evicted, [])
  {
  }

  lemma EvictEnds(candidates: seq<Segment>, a: nat, r: nat, h: nat, total: int, fit: nat,
                  pos: nat, running: int, evicted: seq<bool>, dropped: seq<Zone>)
    requires EvictState(candidates, a, r, h, total, fit, pos, running, evicted, dropped)
    requires running <= fit || pos >= |candidates|
    ensures var e := EvictCount(total, candidates, 0, fit);
            Marked(evicted, a, r, h, e) && dropped == DroppedZones(h, e)
  {
    hide Marked, DroppedZones;
  }

  /** Position `pos` of the order: the candidate there, or a sacred segment. */
  lemma ConsideredAt(segments: seq<Segment>, i: nat, j: nat, k: nat, pos: nat, candidates: seq<Segment>)
    requires i <= j <= k <= |segments| && ZonesAt(segments, i, j, k)
    requires pos < |EvictOrder(segments)|
    requires candidates == segments[j..k] + segments[i..j]
    ensures var idx := EvictOrder(segments)[pos];
            && 0 <= idx < |segments|
            && if pos < |candidates| then
                 && segments[idx] == candidates[pos]
                 && idx == (Range(j, k) + Range(i, j))[pos]
                 && !segments[idx].zone.IsSacred()
                 && segments[idx].zone == (if pos < k - j then HistorySummary else Retrieved)
               else segments[idx].zone.IsSacred()
  {
    OrderAt(segments, i, j, k, pos);
    if pos < |candidates| {
      hide EvictOrder;
      CandidateAt(segments, i, j, k, pos, EvictOrder(segments)[pos]);
    }
  }

  /** Flip the flags of the first `EvictCount` candidates. */
  method MarkEvicted(segments: seq<Segment>, total: nat, fit: nat,
                     ghost i: nat, ghost j: nat, ghost k: nat, ghost candidates: seq<Segment>)
    returns (evicted: array<bool>, dropped: seq<Zone>)
    requires i <= j <= k <= |segments| && ZonesAt(segments, i, j, k)
    requires candidates == segments[j..k] + segments[i..j]
    ensures evicted.Length == |segments|
    ensures var e := EvictCount(total, candidates, 0, fit);
            Marked(evicted[..], i, j - i, k - j, e) && dropped == DroppedZones(k - j, e)
  {
    hide *;
    OrderLength(segments);
    ghost var r: nat, h: nat := j - i, k - j;
    var running: int := total;
    var order := EvictOrder(segments);
    evicted := new bool[|segments|](_ => false);
    dropped := [];
    EvictStarts(candidates, i, r, h, total, fit, evicted[..]);
    var pos := 0;
    while pos < |order| && running > fit
      invariant 0 <= pos <= |order|
      invariant EvictState(candidates, i, r, h, total, fit, pos, running, evicted[..], dropped)
    {
      ConsideredAt(segments, i, j, k, pos, candidates);
      var idx := order[pos];
      if pos < |candidates| {
        EvictTakes(candidates, i, r, h, total, fit, pos, running, evicted[..], dropped, idx);
      } else {
        EvictSkips(candidates, i, r, h, total, fit, pos, running, evicted[..], dropped);
      }
      if !segments[idx].zone.IsSacred() {
        running := running - Cost(segments[idx]);
        evicted[idx] := true;
        if segments[idx].zone !in dropped {
          dropped := dropped + [segments[idx].zone];
        }
      }
      pos := pos + 1;
    }
    EvictEnds(candidates, i, r, h, total, fit, pos, running, evicted[..], dropped);
  }

  method KeepUnmarked(segments: seq<Segment>, evicted: array<bool>) returns (kept: seq<Segment>)
    requires evicted.Length == |segments|
    ensures kept == Keep(segments, evicted[..])
  {
    kept := [];
    for n := 0 to |segments|
      invariant kept == Keep(segments[..n], evicted[..n])
    {
      assert segments[..n + 1][..n] == segments[..n] && evicted[..n + 1][..n] == evicted[..n];
      if !evicted[n] {
        kept := kept + [segments[n]];
      }
    }
    assert segments[..|segments|] == segments && evicted[..|segments|] == evicted[..];
  }

  lemma LayoutBlocks(segments: seq<Segment>)
    ensures Blocks(BeforeBackground(segments), InZone(segments, Retrieved),
                   InZone(segments, HistorySummary), AfterBackground(segments))
  {
    InZoneMember(segments, System);
    InZoneMember(segments, TaskAnchor);
    InZoneMember(segments, Retrieved);
    InZoneMember(segments, HistorySummary);
    InZoneMember(segments, FocusFile);
    InZoneMember(segments, RecentObservation);
    var a, r := BeforeBackground(segments), InZone(segments, Retrieved);
    var h, b := InZone(segments, HistorySummary), AfterBackground(segments);
    assert forall i :: 0 <= i < |a| ==> a[i] in a;
    assert forall i :: 0 <= i < |r| ==> r[i] in r;
    assert forall i :: 0 <= i < |h| ==> h[i] in h;
    assert forall i :: 0 <= i < |b| ==> b[i] in b;
  }

  // Where the retrieved and the history segments of a laid-out prompt start and end.
  function RetrievedStart(segments: seq<Segment>): nat { |BeforeBackground(segments)| }
  function HistoryStart(segments: seq<Segment>): nat { RetrievedStart(segments) + |InZone(segments, Retrieved)| }
  function HistoryEnd(segments: seq<Segment>): nat { HistoryStart(segments) + |InZone(segments, HistorySummary)| }

  lemma PartsOfFour(a: seq<Segment>, r: seq<Segment>, h: seq<Segment>, b: seq<Segment>)
    ensures var s := a + r + h + b;
            && s[|a|..|a| + |r|] == r && s[|a| + |r|..|a| + |r| + |h|] == h
  {
  }

  lemma LayoutParts(segments: seq<Segment>)
    requires SortedBy(segments, LayoutKey)
    ensures HistoryEnd(segments) <= |segments|
    ensures var i, j, k := RetrievedStart(segments), HistoryStart(segments), HistoryEnd(segments);
            && ZonesAt(segments, i, j, k)
            && segments[j..k] + segments[i..j] == Candidates(segments)
            && k - j == |InZone(segments, HistorySummary)|
  {
    SortedIsLayout(segments);
    LayoutBlocks(segments);
    hide InZone, ZonesAt, Blocks, BeforeBackground, AfterBackground;
    var a, r := BeforeBackground(segments), InZone(segments, Retrieved);
    var h, b := InZone(segments, HistorySummary), AfterBackground(segments);
    BlockZones(a, r, h, b, segments);
    PartsOfFour(a, r, h, b);
  }

  lemma KeepLayout(segments: seq<Segment>, ev: seq<bool>, e: nat)
    requires SortedBy(segments, LayoutKey) && e <= |Candidates(segments)| && |ev| == |segments|
    requires Marked(ev, RetrievedStart(segments), |InZone(segments, Retrieved)|,
                    |InZone(segments, HistorySummary)|, e)
    ensures Keep(segments, ev) == Survivors(segments, e)
  {
    SortedIsLayout(segments);
    hide InZone, BeforeBackground, AfterBackground, Marked, Keep;
    KeepBlocks(BeforeBackground(segments), InZone(segments, Retrieved),
               InZone(segments, HistorySummary), AfterBackground(segments), ev, e);
  }

  /** Fit whole segments into `fit` tokens. */
  method Evict(segments: seq<Segment>, fit: nat) returns (kept: seq<Segment>, dropped: seq<Zone>)
    requires SortedBy(segments, LayoutKey)
    ensures var k := EvictCount(TotalCost(segments), Candidates(segments), 0, fit);
            kept == Survivors(segments, k) && dropped == DroppedZones(|InZone(segments, HistorySummary)|, k)
  {
    var total := TotalCost(segments);
    if total <= fit {
      SortedIsLayout(segments);
      return segments, [];
    }
    LayoutParts(segments);
    ghost var e := EvictCount(total, Candidates(segments), 0, fit);
    ghost var i, j, k := RetrievedStart(segments), HistoryStart(segments), HistoryEnd(segments);
    assert j - i == |InZone(segments, Retrieved)|;
    hide *;
    var evicted;
    evicted, dropped := MarkEvicted(segments, total, fit, i, j, k, Candidates(segments));
    kept := KeepUnmarked(segments, evicted);
    KeepLayout(segments, evicted[..], e);
  }
}
