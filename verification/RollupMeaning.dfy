/** The rollup read off the packs: what is counted, which findings there are, and
  * the order of its lists.
  */
module RollupMeaning {
  import opened Basics
  import opened Aggregation
  import opened NameLists
  import opened OrderedSort
  import opened Rollups
  import opened RollupRun
  import opened Scores
  import opened TextTrim
  import opened Topics

  // ----- counts

  /** Of the section, if one is given, and of the status, if one is given. */
  predicate Fits(c: ControlResult, section: Option<Section>, status: Option<ControlStatus>) {
    (section.Some? ==> c.section == section.value) && (status.Some? ==> c.status == status.value)
  }

  function Having(controls: seq<ControlResult>, section: Option<Section>, status: Option<ControlStatus>): nat {
    if controls == [] then 0
    else (if Fits(controls[0], section, status) then 1 else 0) + Having(controls[1..], section, status)
  }

  /** The first `n` packs together. */
  function AllHaving(packs: seq<EvidencePack>, n: nat, section: Option<Section>, status: Option<ControlStatus>): nat
    requires n <= |packs|
  {
    if n == 0 then 0 else AllHaving(packs, n - 1, section, status) + Having(packs[n - 1].controls, section, status)
  }

  lemma {:induction false} HavingConcat(a: seq<ControlResult>, b: seq<ControlResult>,
      section: Option<Section>, status: Option<ControlStatus>)
    ensures Having(a + b, section, status) == Having(a, section, status) + Having(b, section, status)
  {
    if a == [] {
      assert a + b == b;
    } else {
      HavingConcat(a[1..], b, section, status);
      assert (a + b)[1..] == a[1..] + b;
    }
  }

  lemma {:induction false} AllHavingIs(packs: seq<EvidencePack>, n: nat, section: Option<Section>, status: Option<ControlStatus>)
    requires n <= |packs|
    ensures AllHaving(packs, n, section, status) == Having(AllControls(packs, n), section, status)
  {
    if n > 0 {
      AllHavingIs(packs, n - 1, section, status);
      HavingConcat(AllControls(packs, n - 1), packs[n - 1].controls, section, status);
    }
  }

  lemma {:induction false} NumberIs(controls: seq<ControlResult>, status: ControlStatus)
    ensures Number(controls, status) == Having(controls, None, Some(status))
    ensures |controls| == Having(controls, None, None)
  {
    if controls != [] {
      NumberIs(controls[1..], status);
    }
  }

  lemma {:induction false} DomainIs(controls: seq<ControlResult>, section: Section, status: ControlStatus)
    ensures Number(Domain(controls, section), status) == Having(controls, Some(section), Some(status))
    ensures |Domain(controls, section)| == Having(controls, Some(section), None)
  {
    if controls != [] {
      DomainIs(controls[1..], section, status);
      hide Filter;
      DomainCons(controls, section);
      NumberCons(controls[0], Domain(controls[1..], section), status);
    }
  }

  lemma DomainCons(controls: seq<ControlResult>, section: Section)
    requires controls != []
    ensures Domain(controls, section)
         == if controls[0].section == section then [controls[0]] + Domain(controls[1..], section) else Domain(controls[1..], section)
  {
  }

  lemma NumberCons(c: ControlResult, rest: seq<ControlResult>, status: ControlStatus)
    ensures Number([c] + rest, status) == (if c.status == status then 1 else 0) + Number(rest, status)
  {
    assert ([c] + rest)[1..] == rest;
  }

  /** A score that holds the numbers of the controls of a section, or of all. */
  ghost predicate Scored(s: Score, packs: seq<EvidencePack>, section: Option<Section>) {
    && s.total == AllHaving(packs, |packs|, section, None)
    && s.passed == AllHaving(packs, |packs|, section, Some(Pass))
    && s.gaps == AllHaving(packs, |packs|, section, Some(Gap))
    && s.unknown == AllHaving(packs, |packs|, section, Some(Unknown))
    && s.errors == AllHaving(packs, |packs|, section, Some(Error))
    && s.notApplicable == AllHaving(packs, |packs|, section, Some(NotApplicable))
  }

  lemma TallyScored(packs: seq<EvidencePack>)
    ensures Scored(Tally(AllControls(packs, |packs|)), packs, None)
  {
    var all := AllControls(packs, |packs|);
    hide AllControls, Having, AllHaving, Number;
    AllHavingIs(packs, |packs|, None, None);
    forall status ensures Number(all, status) == AllHaving(packs, |packs|, None, Some(status)) {
      AllHavingIs(packs, |packs|, None, Some(status));
      NumberIs(all, status);
    }
    NumberIs(all, Pass);
  }

  lemma DomainScored(packs: seq<EvidencePack>, section: Section)
    ensures Scored(DomainScore(AllControls(packs, |packs|), section), packs, Some(section))
    ensures HasControls(AllControls(packs, |packs|), section) <==> AllHaving(packs, |packs|, Some(section), None) > 0
  {
    var all := AllControls(packs, |packs|);
    hide AllControls, Having, AllHaving, Number, Domain;
    AllHavingIs(packs, |packs|, Some(section), None);
    forall status ensures Number(Domain(all, section), status) == AllHaving(packs, |packs|, Some(section), Some(status)) {
      AllHavingIs(packs, |packs|, Some(section), Some(status));
      DomainIs(all, section, status);
    }
    DomainIs(all, section, Pass);
  }

  /** The totals count the controls of all packs, and so does each section that has any. */
  lemma TotalsCount(out: Rollup, packs: seq<EvidencePack>)
    requires IsRollup(out, packs)
    requires forall i :: 0 <= i < |packs| ==> packs[i].score == Tally(packs[i].controls)
    ensures out.frameworks == |packs|
    ensures out.controls == AllHaving(packs, |packs|, None, None)
    ensures out.passed == AllHaving(packs, |packs|, None, Some(Pass))
    ensures out.gaps == AllHaving(packs, |packs|, None, Some(Gap))
    ensures out.unknown == AllHaving(packs, |packs|, None, Some(Unknown))
    ensures out.errors == AllHaving(packs, |packs|, None, Some(Error))
    ensures forall s :: s in out.bySection <==> AllHaving(packs, |packs|, Some(s), None) > 0
    ensures forall s :: s in out.bySection ==> Scored(out.bySection[s], packs, Some(s))
  {
    hide Tally, AllControls, AllHaving, Scored, Having, RecurringOf, Sort, Firsts, IsRollup;
    TotalsAreTheTally(out, packs);
    TotalsScored(out, packs);
    forall s
      ensures s in out.bySection <==> AllHaving(packs, |packs|, Some(s), None) > 0
      ensures s in out.bySection ==> Scored(out.bySection[s], packs, Some(s))
    {
      SectionScored(out, packs, s);
    }
  }

  lemma TotalsScored(out: Rollup, packs: seq<EvidencePack>)
    requires IsRollup(out, packs)
    requires forall i :: 0 <= i < |packs| ==> packs[i].score == Tally(packs[i].controls)
    ensures out.frameworks == |packs|
    ensures out.controls == AllHaving(packs, |packs|, None, None)
    ensures out.passed == AllHaving(packs, |packs|, None, Some(Pass))
    ensures out.gaps == AllHaving(packs, |packs|, None, Some(Gap))
    ensures out.unknown == AllHaving(packs, |packs|, None, Some(Unknown))
    ensures out.errors == AllHaving(packs, |packs|, None, Some(Error))
  {
    assert out.frameworks == |packs|;
    TotalsAreTheTally(out, packs);
    hide *;
    TallyScored(packs);
    ScoredFields(Tally(AllControls(packs, |packs|)), packs);
  }

  lemma ScoredFields(s: Score, packs: seq<EvidencePack>)
    requires Scored(s, packs, None)
    ensures s.total == AllHaving(packs, |packs|, None, None)
    ensures s.passed == AllHaving(packs, |packs|, None, Some(Pass)) && s.gaps == AllHaving(packs, |packs|, None, Some(Gap))
    ensures s.unknown == AllHaving(packs, |packs|, None, Some(Unknown))
    ensures s.errors == AllHaving(packs, |packs|, None, Some(Error))
  {
    hide AllHaving;
  }

  lemma SectionScored(out: Rollup, packs: seq<EvidencePack>, s: Section)
    requires IsRollup(out, packs)
    ensures s in out.bySection <==> AllHaving(packs, |packs|, Some(s), None) > 0
    ensures s in out.bySection ==> Scored(out.bySection[s], packs, Some(s))
  {
    assert IsBySection(out.bySection, AllControls(packs, |packs|));
    hide IsRollup, AllControls, AllHaving, DomainScore, HasControls, Scored;
    DomainScored(packs, s);
  }

  /** What a score makes of its controls: the share of those that apply that was
    * decided either way.
    */
  lemma DeterminacyExactly(controls: seq<ControlResult>)
    ensures var d := Determinacy(Tally(controls));
            var decided := Having(controls, None, Some(Pass)) + Having(controls, None, Some(Gap));
            var applicable := |controls| - Having(controls, None, Some(NotApplicable));
            && 0.0 <= d <= 1.0 && d * applicable as real == decided as real
            && (applicable == 0 ==> d == 0.0)
  {
    NumbersAdd(controls);
    NumberIs(controls, Pass);
    NumberIs(controls, Gap);
    NumberIs(controls, NotApplicable);
    hide Number, Having;
    var s := Tally(controls);
    var applicable: nat := s.total - s.notApplicable;
    if applicable > 0 {
      Quotient((s.passed + s.gaps) as real, applicable as real);
    }
  }

  lemma {:induction false} NumbersAdd(controls: seq<ControlResult>)
    ensures Number(controls, Pass) + Number(controls, Gap) + Number(controls, NotApplicable) <= |controls|
  {
    if controls != [] {
      NumbersAdd(controls[1..]);
      assert controls == [controls[0]] + controls[1..];
      hide Number;
      NumberCons(controls[0], controls[1..], Pass);
      NumberCons(controls[0], controls[1..], Gap);
      NumberCons(controls[0], controls[1..], NotApplicable);
    }
  }

  lemma Quotient(a: real, b: real)
    requires b > 0.0 && 0.0 <= a <= b
    ensures 0.0 <= a / b <= 1.0 && a / b * b == a
  {
  }

  // ----- the findings

  /** Where a check stands. */
  datatype Place = Place(pack: nat, control: nat, check: nat)

  predicate Earlier(p: Place, q: Place) {
    || p.pack < q.pack
    || (p.pack == q.pack && p.control < q.control)
    || (p.pack == q.pack && p.control == q.control && p.check < q.check)
  }

  /** A gap check of a gap control stands there. */
  predicate IsGapAt(packs: seq<EvidencePack>, p: Place) {
    && p.pack < |packs| && p.control < |packs[p.pack].controls|
    && var c := packs[p.pack].controls[p.control];
       c.status == Gap && p.check < |c.checks| && c.checks[p.check].status == Gap
  }

  predicate FoundAt(f: Finding, packs: seq<EvidencePack>, p: Place)
    requires IsGapAt(packs, p)
  {
    var c := packs[p.pack].controls[p.control];
    && f.framework == packs[p.pack].framework && f.severity == c.severity && f.remediation == c.remediation
    && f.rationale == Trim(c.checks[p.check].rationale)
    && var topic := TopicOf(LocalCheckId(c.checks[p.check].checkId));
       f.key == topic.key && f.title == topic.title
  }

  /** `ps` are the places of the gap checks of a part of the packs, in order, and
    * `fs` what is found there.
    */
  ghost predicate Traces(ps: seq<Place>, fs: seq<Finding>, packs: seq<EvidencePack>, part: Place -> bool) {
    && |ps| == |fs|
    && (forall i :: 0 <= i < |ps| ==> IsGapAt(packs, ps[i]) && FoundAt(fs[i], packs, ps[i]))
    && (forall i, j :: 0 <= i < j < |ps| ==> Earlier(ps[i], ps[j]))
    && (forall p :: p in ps <==> IsGapAt(packs, p) && part(p))
  }

  lemma TracesJoin(a: seq<Place>, fs: seq<Finding>, A: Place -> bool, b: seq<Place>, gs: seq<Finding>, B: Place -> bool,
      packs: seq<EvidencePack>, both: Place -> bool)
    requires Traces(a, fs, packs, A) && Traces(b, gs, packs, B)
    requires forall p, q :: A(p) && B(q) ==> Earlier(p, q)
    requires forall p :: IsGapAt(packs, p) ==> (both(p) <==> A(p) || B(p))
    ensures Traces(a + b, fs + gs, packs, both)
  {
    hide IsGapAt, FoundAt, Earlier;
    FoundJoin(a, fs, b, gs, packs);
    InOrderJoin(a, b);
    assert forall p :: p in a + b <==> p in a || p in b;
  }

  lemma FoundJoin(a: seq<Place>, fs: seq<Finding>, b: seq<Place>, gs: seq<Finding>, packs: seq<EvidencePack>)
    requires |a| == |fs| && |b| == |gs|
    requires forall i :: 0 <= i < |a| ==> IsGapAt(packs, a[i]) && FoundAt(fs[i], packs, a[i])
    requires forall i :: 0 <= i < |b| ==> IsGapAt(packs, b[i]) && FoundAt(gs[i], packs, b[i])
    ensures var ps, all := a + b, fs + gs;
            forall i :: 0 <= i < |ps| ==> IsGapAt(packs, ps[i]) && FoundAt(all[i], packs, ps[i])
  {
    hide IsGapAt, FoundAt;
  }

  lemma InOrderJoin(a: seq<Place>, b: seq<Place>)
    requires forall i, j :: 0 <= i < j < |a| ==> Earlier(a[i], a[j])
    requires forall i, j :: 0 <= i < j < |b| ==> Earlier(b[i], b[j])
    requires forall p, q :: p in a && q in b ==> Earlier(p, q)
    ensures var ps := a + b; forall i, j :: 0 <= i < j < |ps| ==> Earlier(ps[i], ps[j])
  {
    hide Earlier;
  }

  lemma TracesSame(a: seq<Place>, fs: seq<Finding>, A: Place -> bool, packs: seq<EvidencePack>, B: Place -> bool)
    requires Traces(a, fs, packs, A)
    requires forall p :: IsGapAt(packs, p) ==> (B(p) <==> A(p))
    ensures Traces(a, fs, packs, B)
  {
    hide IsGapAt, FoundAt, Earlier;
  }

  lemma NoTrace(packs: seq<EvidencePack>, part: Place -> bool)
    requires forall p :: IsGapAt(packs, p) ==> !part(p)
    ensures Traces([], [], packs, part)
  {
    hide IsGapAt, FoundAt, Earlier;
  }

  /** The first checks of a control; the first controls of a pack; the first packs. */
  function ChecksBefore(i: nat, j: nat, n: nat): Place -> bool {
    (p: Place) => p.pack == i && p.control == j && p.check < n
  }

  function ControlsBefore(i: nat, n: nat): Place -> bool {
    (p: Place) => p.pack == i && p.control < n
  }

  function PacksBefore(n: nat): Place -> bool {
    (p: Place) => p.pack < n
  }

  function Only(at: Place): Place -> bool {
    (p: Place) => p == at
  }

  lemma OneTrace(packs: seq<EvidencePack>, p: Place)
    requires IsGapAt(packs, p)
    ensures var c := packs[p.pack].controls[p.control];
            Traces([p], [FindingOf(packs[p.pack].framework, c, c.checks[p.check])], packs, Only(p))
  {
    hide TopicOf, LocalCheckId, Trim;
  }

  lemma {:induction false} CheckTrace(packs: seq<EvidencePack>, i: nat, j: nat, n: nat) returns (ps: seq<Place>)
    requires i < |packs| && j < |packs[i].controls| && packs[i].controls[j].status == Gap
    requires n <= |packs[i].controls[j].checks|
    ensures Traces(ps, CheckFindings(packs[i].framework, packs[i].controls[j], n), packs, ChecksBefore(i, j, n))
  {
    hide Traces, FoundAt, FindingOf;
    if n == 0 {
      ps := [];
      NoTrace(packs, ChecksBefore(i, j, 0));
    } else {
      var before := CheckTrace(packs, i, j, n - 1);
      var c, p := packs[i].controls[j], Place(i, j, n - 1);
      var found := CheckFindings(packs[i].framework, c, n - 1);
      if c.checks[n - 1].status == Gap {
        ps := before + [p];
        OneTrace(packs, p);
        TracesJoin(before, found, ChecksBefore(i, j, n - 1), [p], [FindingOf(packs[i].framework, c, c.checks[n - 1])], Only(p),
                   packs, ChecksBefore(i, j, n));
      } else {
        ps := before;
        TracesSame(before, found, ChecksBefore(i, j, n - 1), packs, ChecksBefore(i, j, n));
        assert found + [] == found;
      }
    }
  }

  lemma {:induction false} ControlTrace(packs: seq<EvidencePack>, i: nat, n: nat) returns (ps: seq<Place>)
    requires i < |packs| && n <= |packs[i].controls|
    ensures Traces(ps, ControlFindings(packs[i], n), packs, ControlsBefore(i, n))
  {
    hide Traces, FoundAt, CheckFindings;
    if n == 0 {
      ps := [];
      NoTrace(packs, ControlsBefore(i, 0));
    } else {
      var before := ControlTrace(packs, i, n - 1);
      var c, found := packs[i].controls[n - 1], ControlFindings(packs[i], n - 1);
      if c.status == Gap {
        var more := CheckTrace(packs, i, n - 1, |c.checks|);
        ps := before + more;
        TracesJoin(before, found, ControlsBefore(i, n - 1),
                   more, CheckFindings(packs[i].framework, c, |c.checks|), ChecksBefore(i, n - 1, |c.checks|),
                   packs, ControlsBefore(i, n));
      } else {
        ps := before;
        TracesSame(before, found, ControlsBefore(i, n - 1), packs, ControlsBefore(i, n));
        assert found + [] == found;
      }
    }
  }

  lemma {:induction false} PackTrace(packs: seq<EvidencePack>, n: nat) returns (ps: seq<Place>)
    requires n <= |packs|
    ensures Traces(ps, PackFindings(packs, n), packs, PacksBefore(n))
  {
    hide Traces, FoundAt, ControlFindings;
    if n == 0 {
      ps := [];
      NoTrace(packs, PacksBefore(0));
    } else {
      var before := PackTrace(packs, n - 1);
      var k := |packs[n - 1].controls|;
      var more := ControlTrace(packs, n - 1, k);
      ps := before + more;
      TracesJoin(before, PackFindings(packs, n - 1), PacksBefore(n - 1),
                 more, ControlFindings(packs[n - 1], k), ControlsBefore(n - 1, k), packs, PacksBefore(n));
    }
  }

  /** The findings that are grouped are those of the gap checks of the gap controls,
    * each once and in the order of the packs.
    */
  lemma FindingsExactly(packs: seq<EvidencePack>) returns (ps: seq<Place>)
    ensures var fs := PackFindings(packs, |packs|);
            && |ps| == |fs|
            && (forall i :: 0 <= i < |ps| ==> IsGapAt(packs, ps[i]) && FoundAt(fs[i], packs, ps[i]))
    ensures forall i, j :: 0 <= i < j < |ps| ==> Earlier(ps[i], ps[j])
    ensures forall p :: p in ps <==> IsGapAt(packs, p)
  {
    hide PackFindings, FoundAt, Earlier;
    ps := PackTrace(packs, |packs|);
  }

  // ----- the entries

  ghost predicate HasTopic(fs: seq<Finding>, k: string) {
    exists i :: 0 <= i < |fs| && fs[i].key == k
  }

  lemma TopicFound(fs: seq<Finding>, k: string)
    ensures HasTopic(fs, k) <==> OfTopic(fs, k) != []
  {
    var g := OfTopic(fs, k);
    hide Filter;
    if i :| 0 <= i < |fs| && fs[i].key == k {
      assert fs[i] in g;
    }
    if g != [] {
      assert g[0] in g;
    }
  }

  ghost predicate HasEntry(rs: seq<Recurring>, fs: seq<Finding>, k: string) {
    exists r :: r in rs && Summarises(r, OfTopic(fs, k))
  }

  ghost predicate IsEntry(fs: seq<Finding>, r: Recurring) {
    exists k :: HasTopic(fs, k) && Summarises(r, OfTopic(fs, k))
  }

  /** Each topic that was found has an entry that sums up its findings, each entry is
    * that of some topic, and there are as many as there are topics.
    */
  lemma EntriesExactly(out: Rollup, packs: seq<EvidencePack>) returns (topics: seq<string>)
    requires IsRollup(out, packs)
    ensures var fs := PackFindings(packs, |packs|);
            && NoDuplicates(topics) && |topics| == |out.recurring| && (forall k :: k in topics <==> HasTopic(fs, k))
            && (forall k :: k in topics ==> HasEntry(out.recurring, fs, k))
            && (forall r :: r in out.recurring ==> IsEntry(fs, r))
  {
    var fs := PackFindings(packs, |packs|);
    assert out.recurring == RecurringOf(fs);
    hide *;
    topics := KeysInOrder(fs);
    EntriesSorted(fs);
    forall k ensures k in topics <==> HasTopic(fs, k)
      ensures k in topics ==> HasEntry(out.recurring, fs, k)
    {
      TopicHasEntry(fs, k);
    }
    forall i | 0 <= i < |out.recurring| ensures IsEntry(fs, out.recurring[i]) {
      EntryHasTopic(fs, out.recurring[i]);
    }
  }

  lemma TopicHasEntry(fs: seq<Finding>, k: string)
    ensures k in KeysInOrder(fs) <==> HasTopic(fs, k)
    ensures HasTopic(fs, k) ==> HasEntry(RecurringOf(fs), fs, k)
  {
    hide KeysInOrder, Grouped, HasTopic, RecurringOf, Summarises, OfTopic;
    EntriesSorted(fs);
    GroupedMeaning(fs, k);
    TopicFound(fs, k);
  }

  lemma EntryHasTopic(fs: seq<Finding>, r: Recurring)
    requires r in RecurringOf(fs)
    ensures IsEntry(fs, r)
  {
    hide KeysInOrder, Grouped, HasTopic, RecurringOf, Summarises, OfTopic;
    EntriesSorted(fs);
    var k :| k in Grouped(fs) && r == Grouped(fs)[k];
    GroupedMeaning(fs, k);
    TopicFound(fs, k);
  }

  lemma EntriesSorted(fs: seq<Finding>)
    ensures var topics := KeysInOrder(fs);
            && NoDuplicates(topics) && |RecurringOf(fs)| == |topics|
            && (forall k :: k in topics <==> k in Grouped(fs))
    ensures forall k :: k in Grouped(fs) ==> Grouped(fs)[k] in RecurringOf(fs)
    ensures forall r :: r in RecurringOf(fs) ==> exists k :: k in Grouped(fs) && r == Grouped(fs)[k]
  {
    hide Sort, Grouped, Keys, FindingLe, TextLe, Firsts;
    KeysOrdered(fs);
    var topics, all := KeysInOrder(fs), Entries(fs);
    SortMembers(all, FindingLe);
    SortPermutes(all, FindingLe);
    assert |multiset(RecurringOf(fs))| == |multiset(all)| == |topics|;
    forall k | k in topics ensures Grouped(fs)[k] in all {
      var i :| 0 <= i < |topics| && topics[i] == k;
      assert all[i] == Grouped(fs)[k];
    }
  }

  // ----- the lists

  predicate Graver(a: Severity, b: Severity) {
    match a
    case Critical => b != Critical
    case High => b == Medium || b == Low
    case Medium => b == Low
    case Low => false
  }

  /** Of two findings listed the first is in more frameworks, or in as many and
    * graver, or the titles decide.
    */
  lemma RecurringOrder(out: Rollup, packs: seq<EvidencePack>, i: nat, j: nat)
    requires IsRollup(out, packs) && i < j < |out.recurring|
    ensures var a, b := out.recurring[i], out.recurring[j];
            || |a.frameworks| > |b.frameworks|
            || (|a.frameworks| == |b.frameworks| && Graver(a.severity, b.severity))
            || (|a.frameworks| == |b.frameworks| && a.severity == b.severity && TextLe(a.check, b.check))
  {
    var fs := PackFindings(packs, |packs|);
    RecurringMeaning(fs, r => false);
    hide Entries, TextLe, RecurringOf, PackFindings;
    assert FindingLe(RecurringOf(fs)[i], RecurringOf(fs)[j]);
  }

  /** Of two frameworks listed the first is no better covered, and the names decide
    * between those covered alike.
    */
  lemma CoverageOrdered(out: Rollup, packs: seq<EvidencePack>, i: nat, j: nat)
    requires IsRollup(out, packs) && i < j < |out.weakestCoverage|
    ensures var a, b := out.weakestCoverage[i], out.weakestCoverage[j];
            a.determinacy <= b.determinacy && (a.determinacy == b.determinacy ==> TextLe(a.name, b.name))
  {
    CoverageInOrder(out, packs, c => false);
    hide TextLe;
  }

  // ----- the capabilities switched off

  predicate Mentions(packs: seq<EvidencePack>, i: nat, k: nat, name: string) {
    i < |packs| && k < |packs[i].disabled| && packs[i].disabled[k] == name
  }

  lemma {:induction false} MentionAt(packs: seq<EvidencePack>, n: nat, i: nat, k: nat)
    requires i < n <= |packs| && k < |packs[i].disabled|
    ensures var at := |AllDisabled(packs, i)| + k;
            at < |AllDisabled(packs, n)| && AllDisabled(packs, n)[at] == packs[i].disabled[k]
  {
    if i < n - 1 {
      MentionAt(packs, n - 1, i, k);
    }
  }

  lemma {:induction false} WhereMentioned(packs: seq<EvidencePack>, n: nat, at: nat) returns (i: nat, k: nat)
    requires n <= |packs| && at < |AllDisabled(packs, n)|
    ensures i < n && k < |packs[i].disabled| && at == |AllDisabled(packs, i)| + k
    ensures packs[i].disabled[k] == AllDisabled(packs, n)[at]
  {
    if at < |AllDisabled(packs, n - 1)| {
      i, k := WhereMentioned(packs, n - 1, at);
    } else {
      i, k := n - 1, at - |AllDisabled(packs, n - 1)|;
    }
  }

  lemma {:induction false} LaterStarts(packs: seq<EvidencePack>, i: nat, n: nat)
    requires i < |packs| && n <= |packs|
    ensures i < n ==> |AllDisabled(packs, i)| + |packs[i].disabled| <= |AllDisabled(packs, n)|
  {
    if i + 1 < n {
      LaterStarts(packs, i, n - 1);
    }
  }

  /** Every capability some pack mentions is listed, once. */
  lemma DisabledExactly(out: Rollup, packs: seq<EvidencePack>, name: string)
    requires IsRollup(out, packs)
    ensures NoDuplicates(out.disabled)
    ensures name in out.disabled <==> exists i: nat, k: nat :: Mentions(packs, i, k, name)
  {
    var all := AllDisabled(packs, |packs|);
    assert out.disabled == Firsts(all);
    hide IsRollup, Firsts, AllDisabled, NoDuplicates;
    if name in all {
      var at :| 0 <= at < |all| && all[at] == name;
      var i, k := WhereMentioned(packs, |packs|, at);
      assert Mentions(packs, i, k, name);
    }
    forall i: nat, k: nat | Mentions(packs, i, k, name) ensures name in all {
      MentionAt(packs, |packs|, i, k);
    }
  }

  /** Of two capabilities listed the first was mentioned before any mention of the other. */
  lemma DisabledInOrder(out: Rollup, packs: seq<EvidencePack>, a: nat, b: nat) returns (i: nat, k: nat)
    requires IsRollup(out, packs) && a < b < |out.disabled|
    ensures Mentions(packs, i, k, out.disabled[a])
    ensures forall i', k' :: Mentions(packs, i', k', out.disabled[b]) ==> i < i' || (i == i' && k < k')
  {
    var all := AllDisabled(packs, |packs|);
    assert out.disabled == Firsts(all);
    var x, y := out.disabled[a], out.disabled[b];
    hide IsRollup, Firsts, AllDisabled, FirstAt;
    FirstsInOrder(all, a, b);
    i, k := WhereMentioned(packs, |packs|, FirstAt(all, x));
    forall i': nat, k': nat | Mentions(packs, i', k', y) ensures i < i' || (i == i' && k < k') {
      MentionAt(packs, |packs|, i', k');
      Before(packs, i, k, i', k');
    }
  }

  lemma Before(packs: seq<EvidencePack>, i: nat, k: nat, i': nat, k': nat)
    requires i < |packs| && i' < |packs| && k' < |packs[i'].disabled|
    requires |AllDisabled(packs, i)| + k < |AllDisabled(packs, i')| + k'
    ensures i < i' || (i == i' && k < k')
  {
    LaterStarts(packs, i', i);
  }
}
