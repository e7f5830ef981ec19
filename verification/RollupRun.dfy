/** The loops that build the rollup, against what it means. */
module RollupRun {
  import opened Aggregation
  import opened NameLists
  import opened OrderedSort
  import opened Rollups
  import opened Scores

  datatype Coverage = Coverage(name: string, determinacy: real)

  datatype Rollup = Rollup(frameworks: nat, controls: nat, passed: nat, gaps: nat, unknown: nat, errors: nat,
                           recurring: seq<Recurring>, weakestCoverage: seq<Coverage>, disabled: seq<string>,
                           bySection: map<Section, Score>)

  /** An evidence pack, with the score `EvidencePack::new` counts for it. */
  method NewPack(framework: string, controls: seq<ControlResult>, disabled: seq<string>) returns (p: EvidencePack)
    ensures p == EvidencePack(framework, controls, Tally(controls), disabled)
  {
    hide Tally;
    var score := TallyRun(controls);
    p := EvidencePack(framework, controls, score, disabled);
  }

  // ----- the recurring findings

  lemma GroupedSnoc(fs: seq<Finding>, f: Finding)
    ensures Grouped(fs + [f]) == Grouped(fs)[f.key := Absorb(Entry(Grouped(fs), f), f)]
  {
    assert (fs + [f])[..|fs|] == fs;
  }

  lemma Assoc<T>(a: seq<T>, b: seq<T>, c: seq<T>)
    ensures (a + b) + c == a + (b + c) && a + [] == a
  {
  }

  lemma CheckStep(framework: string, c: ControlResult, k: nat)
    requires k < |c.checks|
    ensures CheckFindings(framework, c, k + 1)
         == CheckFindings(framework, c, k)
          + if c.checks[k].status == Gap then [FindingOf(framework, c, c.checks[k])] else []
    ensures CheckFindings(framework, c, 0) == []
  {
    hide FindingOf;
  }

  method AbsorbChecks(m: map<string, Recurring>, ghost done: seq<Finding>, framework: string, c: ControlResult)
    returns (m': map<string, Recurring>)
    requires m == Grouped(done)
    ensures m' == Grouped(done + CheckFindings(framework, c, |c.checks|))
  {
    hide *;
    m' := m;
    if c.checks != [] {
      CheckStep(framework, c, 0);
    } else {
      NoChecks(framework, c);
    }
    Assoc(done, [], []);
    for k := 0 to |c.checks|
      invariant m' == Grouped(done + CheckFindings(framework, c, k))
    {
      var check := c.checks[k];
      CheckStep(framework, c, k);
      ghost var before := CheckFindings(framework, c, k);
      if check.status == Gap {
        var f := FindingOf(framework, c, check);
        Assoc(done, before, [f]);
        GroupedSnoc(done + before, f);
        m' := m'[f.key := Absorb(Entry(m', f), f)];
      } else {
        Assoc(done, before, []);
        Assoc(before, [], []);
      }
    }
  }

  lemma NoChecks(framework: string, c: ControlResult)
    requires c.checks == []
    ensures CheckFindings(framework, c, 0) == []
  {
  }

  lemma ControlStep(p: EvidencePack, j: nat)
    requires j < |p.controls|
    ensures ControlFindings(p, j + 1)
         == ControlFindings(p, j)
          + if p.controls[j].status == Gap then CheckFindings(p.framework, p.controls[j], |p.controls[j].checks|) else []
  {
    hide CheckFindings;
  }

  lemma NoControls(p: EvidencePack)
    ensures ControlFindings(p, 0) == []
  {
  }

  method AbsorbControls(m: map<string, Recurring>, ghost done: seq<Finding>, p: EvidencePack)
    returns (m': map<string, Recurring>)
    requires m == Grouped(done)
    ensures m' == Grouped(done + ControlFindings(p, |p.controls|))
  {
    hide *;
    m' := m;
    NoControls(p);
    Assoc(done, [], []);
    for j := 0 to |p.controls|
      invariant m' == Grouped(done + ControlFindings(p, j))
    {
      var c := p.controls[j];
      ghost var before := ControlFindings(p, j);
      ControlStep(p, j);
      if c.status == Gap {
        m' := AbsorbChecks(m', done + before, p.framework, c);
        Assoc(done, before, CheckFindings(p.framework, c, |c.checks|));
      } else {
        Assoc(done, before, []);
        Assoc(before, [], []);
      }
    }
  }

  /** The keys of a map, ascending. */
  method SortedKeys(m: map<string, Recurring>) returns (keys: seq<string>)
    ensures StrictlySorted(keys) && forall k :: k in keys <==> k in m
  {
    hide TextLe;
    var todo := m.Keys;
    var found: seq<string> := [];
    while todo != {}
      invariant NoDuplicates(found) && todo <= m.Keys
      invariant forall k :: k in found <==> k in m && k !in todo
      decreases |todo|
    {
      var k :| k in todo;
      AddFresh(found, k);
      found := found + [k];
      todo := todo - {k};
    }
    SortStrict(found);
    SortMembers(found, TextLe);
    keys := Sort(found, TextLe);
  }

  method ListRecurring(m: map<string, Recurring>, ghost fs: seq<Finding>) returns (r: seq<Recurring>)
    requires m == Grouped(fs)
    ensures r == RecurringOf(fs)
  {
    hide TextLe, Grouped, Sort, StrictlySorted, KeysInOrder, FindingLe;
    KeysOrdered(fs);
    var keys := SortedKeys(m);
    StrictlySortedUnique(keys, KeysInOrder(fs));
    r := Sort(Values(m, keys), FindingLe);
  }

  // ----- the scores

  /** The scores of the first `n` packs, added up. */
  function ScoreTotals(packs: seq<EvidencePack>, n: nat): Score
    requires n <= |packs|
  {
    if n == 0 then ZERO else Add(ScoreTotals(packs, n - 1), packs[n - 1].score)
  }

  function AllControls(packs: seq<EvidencePack>, n: nat): seq<ControlResult>
    requires n <= |packs|
  {
    if n == 0 then [] else AllControls(packs, n - 1) + packs[n - 1].controls
  }

  function MergedAt(m: map<Section, Score>, part: map<Section, Score>, s: Section): Score {
    if s in part then Add(At(m, s), part[s]) else At(m, s)
  }

  lemma MergeOne(m: map<Section, Score>, part: map<Section, Score>, r: map<Section, Score>, s: Section)
    requires s in part && (s in r <==> s in m) && (s in r ==> r[s] == m[s])
    ensures Add(At(r, s), part[s]) == MergedAt(m, part, s)
  {
    hide Add;
  }

  /** The scores of one more pack, domain by domain. */
  method AddSections(m: map<Section, Score>, part: map<Section, Score>) returns (r: map<Section, Score>)
    ensures forall s :: s in r <==> s in m || s in part
    ensures forall s :: s in r ==> r[s] == MergedAt(m, part, s)
  {
    hide Add, MergedAt;
    r := m;
    var todo := part.Keys;
    while todo != {}
      invariant forall s :: s in todo ==> s in part
      invariant forall s :: s in r <==> s in m || (s in part && s !in todo)
      invariant forall s :: s in r && (s in todo || s !in part) ==> r[s] == m[s]
      invariant forall s :: s in part && s !in todo ==> r[s] == MergedAt(m, part, s)
      decreases |todo|
    {
      var s :| s in todo;
      MergeOne(m, part, r, s);
      r := r[s := Add(At(r, s), part[s])];
      todo := todo - {s};
    }
    forall s | s in r ensures r[s] == MergedAt(m, part, s) {
      NotMerged(m, part, s);
    }
  }

  lemma NotMerged(m: map<Section, Score>, part: map<Section, Score>, s: Section)
    ensures s in m && s !in part ==> MergedAt(m, part, s) == m[s]
  {
  }

  lemma SectionsAdd(m: map<Section, Score>, part: map<Section, Score>, r: map<Section, Score>,
      a: seq<ControlResult>, b: seq<ControlResult>)
    requires IsBySection(m, a) && IsBySection(part, b) && forall s :: s in r <==> s in m || s in part
    requires forall s :: s in r ==> r[s] == MergedAt(m, part, s)
    ensures IsBySection(r, a + b)
  {
    hide Add, HasControls, DomainScore, At;
    forall s ensures (s in r <==> HasControls(a + b, s)) && (s in r ==> r[s] == DomainScore(a + b, s)) {
      DomainConcat(a, b, s);
      AtDomain(m, a, s);
      NoControlsNoScore(b, s);
      AddNothing(DomainScore(a, s));
    }
  }

  lemma NoControlsNoScore(b: seq<ControlResult>, s: Section)
    ensures !HasControls(b, s) ==> DomainScore(b, s) == ZERO
  {
    TallyNone();
    hide Tally;
  }

  lemma AddNothing(a: Score)
    ensures Add(a, ZERO) == a
  {
    var z := ZERO;
    assert a.total + z.total == a.total && a.passed + z.passed == a.passed && a.gaps + z.gaps == a.gaps;
  }

  // ----- the rest of the summary

  function Determinacy(s: Score): real {
    if s.total <= s.notApplicable then 0.0
    else (s.passed + s.gaps) as real / (s.total - s.notApplicable) as real
  }

  function Coverages(packs: seq<EvidencePack>): seq<Coverage> {
    seq(|packs|, i requires 0 <= i < |packs| => Coverage(packs[i].framework, Determinacy(packs[i].score)))
  }

  /** Thinnest verification first. */
  predicate CoverageLe(a: Coverage, b: Coverage) {
    a.determinacy < b.determinacy || (a.determinacy == b.determinacy && TextLe(a.name, b.name))
  }

  function AllDisabled(packs: seq<EvidencePack>, n: nat): seq<string>
    requires n <= |packs|
  {
    if n == 0 then [] else AllDisabled(packs, n - 1) + packs[n - 1].disabled
  }

  method AddNames(names: seq<string>, ghost done: seq<string>, more: seq<string>) returns (r: seq<string>)
    requires names == Firsts(done)
    ensures r == Firsts(done + more)
  {
    hide Firsts;
    r := names;
    assert done + more[..0] == done;
    for i := 0 to |more|
      invariant r == Firsts(done + more[..i])
    {
      assert done + more[..i + 1] == (done + more[..i]) + [more[i]];
      FirstsSnoc(done + more[..i], more[i]);
      if more[i] !in r {
        r := r + [more[i]];
      }
    }
    assert more[..|more|] == more;
  }

  lemma FirstsSnoc(xs: seq<string>, x: string)
    ensures Firsts(xs + [x]) == if x in Firsts(xs) then Firsts(xs) else Firsts(xs) + [x]
  {
    assert (xs + [x])[..|xs|] == xs;
  }

  /** What the rollup of some packs says. */
  ghost predicate IsRollup(out: Rollup, packs: seq<EvidencePack>) {
    && out.frameworks == |packs|
    && (var t := ScoreTotals(packs, |packs|);
        && out.controls == t.total && out.passed == t.passed && out.gaps == t.gaps
        && out.unknown == t.unknown && out.errors == t.errors)
    && out.recurring == RecurringOf(PackFindings(packs, |packs|))
    && out.weakestCoverage == Sort(Coverages(packs), CoverageLe)
    && out.disabled == Firsts(AllDisabled(packs, |packs|))
    && IsBySection(out.bySection, AllControls(packs, |packs|))
  }

  ghost predicate Rolling(packs: seq<EvidencePack>, i: nat, totals: Score, m: map<string, Recurring>,
      bySection: map<Section, Score>, coverage: seq<Coverage>, caps: seq<string>) {
    && i <= |packs|
    && totals == ScoreTotals(packs, i)
    && m == Grouped(PackFindings(packs, i))
    && IsBySection(bySection, AllControls(packs, i))
    && coverage == Coverages(packs[..i])
    && caps == Firsts(AllDisabled(packs, i))
  }

  lemma StartRolling(packs: seq<EvidencePack>)
    ensures Rolling(packs, 0, ZERO, map[], map[], [], [])
  {
    BySectionNone();
    hide IsBySection;
  }

  lemma RollOne(packs: seq<EvidencePack>, i: nat, totals: Score, coverage: seq<Coverage>)
    requires i < |packs| && totals == ScoreTotals(packs, i) && coverage == Coverages(packs[..i])
    ensures Add(totals, packs[i].score) == ScoreTotals(packs, i + 1)
    ensures coverage + [Coverage(packs[i].framework, Determinacy(packs[i].score))] == Coverages(packs[..i + 1])
    ensures AllControls(packs, i + 1) == AllControls(packs, i) + packs[i].controls
    ensures AllDisabled(packs, i + 1) == AllDisabled(packs, i) + packs[i].disabled
    ensures PackFindings(packs, i + 1) == PackFindings(packs, i) + ControlFindings(packs[i], |packs[i].controls|)
  {
    hide Determinacy, ControlFindings, Add;
  }

  method RollUp(packs: seq<EvidencePack>) returns (out: Rollup)
    ensures IsRollup(out, packs)
  {
    hide Grouped, IsBySection, Firsts, ScoreTotals, PackFindings, AllControls, AllDisabled, Coverages, Determinacy,
         ControlFindings, RecurringOf, Sort, CoverageLe, Add;
    var totals, m, bySection, coverage, caps := ZERO, map[], map[], [], [];
    StartRolling(packs);
    for i := 0 to |packs|
      invariant Rolling(packs, i, totals, m, bySection, coverage, caps)
    {
      var pack := packs[i];
      RollOne(packs, i, totals, coverage);
      totals := Add(totals, pack.score);
      var part := BySection(pack.controls);
      var merged := AddSections(bySection, part);
      SectionsAdd(bySection, part, merged, AllControls(packs, i), pack.controls);
      bySection := merged;
      caps := AddNames(caps, AllDisabled(packs, i), pack.disabled);
      coverage := coverage + [Coverage(pack.framework, Determinacy(pack.score))];
      m := AbsorbControls(m, PackFindings(packs, i), pack);
    }
    assert packs[..|packs|] == packs;
    var recurring := ListRecurring(m, PackFindings(packs, |packs|));
    out := Rollup(|packs|, totals.total, totals.passed, totals.gaps, totals.unknown, totals.errors,
                  recurring, Sort(coverage, CoverageLe), caps, bySection);
  }

  /** For packs made by `NewPack`, the added scores are the tally of all controls. */
  lemma {:induction false} ScoresAddUp(packs: seq<EvidencePack>, n: nat)
    requires n <= |packs| && forall i :: 0 <= i < n ==> packs[i].score == Tally(packs[i].controls)
    ensures ScoreTotals(packs, n) == Tally(AllControls(packs, n))
  {
    hide Tally, Add;
    if n == 0 {
      TallyNone();
    } else {
      ScoresAddUp(packs, n - 1);
      TallyConcat(AllControls(packs, n - 1), packs[n - 1].controls);
    }
  }

  /** The totals of such packs are the tally of the controls of all of them, and
    * the sections of the rollup add up to it.
    */
  lemma TotalsAreTheTally(out: Rollup, packs: seq<EvidencePack>)
    requires IsRollup(out, packs)
    requires forall i :: 0 <= i < |packs| ==> packs[i].score == Tally(packs[i].controls)
    ensures var t := Tally(AllControls(packs, |packs|));
            && out.controls == t.total && out.passed == t.passed && out.gaps == t.gaps
            && out.unknown == t.unknown && out.errors == t.errors
            && t == Add(Add(At(out.bySection, Code), At(out.bySection, Infrastructure)),
                        Add(At(out.bySection, Documentation), At(out.bySection, Organizational)))
  {
    hide Tally, Add, At, DomainScore, AllControls, ScoreTotals, IsBySection, RecurringOf, Sort, Firsts;
    var all := AllControls(packs, |packs|);
    ScoresAddUp(packs, |packs|);
    AtDomain(out.bySection, all, Code);
    AtDomain(out.bySection, all, Infrastructure);
    AtDomain(out.bySection, all, Documentation);
    AtDomain(out.bySection, all, Organizational);
    DomainsPartition(all);
  }

  lemma CoverageOrder()
    ensures TotalPreorder(CoverageLe)
  {
    TextOrder();
    hide TextLe;
    forall a, b ensures CoverageLe(a, b) || CoverageLe(b, a) {
      assert TextLe(a.name, b.name) || TextLe(b.name, a.name);
    }
    forall a, b, c | CoverageLe(a, b) && CoverageLe(b, c) ensures CoverageLe(a, c) {
      assert TextLe(a.name, b.name) && TextLe(b.name, c.name) ==> TextLe(a.name, c.name);
    }
  }

  /** The coverage of every pack, the thinnest first; packs alike in determinacy and
    * name stay in their order.
    */
  lemma CoverageInOrder(out: Rollup, packs: seq<EvidencePack>, alike: Coverage -> bool)
    requires IsRollup(out, packs)
    requires AllAlike(alike, CoverageLe)
    ensures multiset(out.weakestCoverage) == multiset(Coverages(packs))
    ensures Sorted(out.weakestCoverage, CoverageLe)
    ensures Filter(out.weakestCoverage, alike) == Filter(Coverages(packs), alike)
  {
    assert out.weakestCoverage == Sort(Coverages(packs), CoverageLe);
    hide IsRollup, CoverageLe, Sort, Coverages, Filter;
    CoverageOrder();
    SortSorts(Coverages(packs), CoverageLe);
    SortPermutes(Coverages(packs), CoverageLe);
    SortStable(Coverages(packs), CoverageLe, alike);
  }
}
