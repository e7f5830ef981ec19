/** Counting the controls of a run, in all and per evidence domain. */
module Scores {
  import opened Basics
  import opened Aggregation
  import opened OrderedSort

  datatype Section = Code | Infrastructure | Documentation | Organizational

  datatype Severity = Low | Medium | High | Critical

  /** What is read of a check once its control has a status. */
  datatype CheckRecord = CheckRecord(checkId: string, status: ControlStatus, rationale: string)

  datatype ControlResult = ControlResult(section: Section, severity: Severity, status: ControlStatus,
                                         checks: seq<CheckRecord>, remediation: Option<string>)

  datatype Score = Score(total: nat, passed: nat, gaps: nat, unknown: nat, errors: nat, notApplicable: nat)

  const ZERO := Score(0, 0, 0, 0, 0, 0)

  function Count(s: Score, status: ControlStatus): Score {
    var t := s.(total := s.total + 1);
    match status
    case Pass => t.(passed := t.passed + 1)
    case Gap => t.(gaps := t.gaps + 1)
    case Unknown => t.(unknown := t.unknown + 1)
    case Error => t.(errors := t.errors + 1)
    case NotApplicable => t.(notApplicable := t.notApplicable + 1)
  }

  function Add(a: Score, b: Score): Score {
    Score(a.total + b.total, a.passed + b.passed, a.gaps + b.gaps,
          a.unknown + b.unknown, a.errors + b.errors, a.notApplicable + b.notApplicable)
  }

  function HasStatus(s: ControlStatus): ControlResult -> bool {
    (c: ControlResult) => c.status == s
  }

  function InDomain(s: Section): ControlResult -> bool {
    (c: ControlResult) => c.section == s
  }

  /** How many controls have the status. */
  function Number(controls: seq<ControlResult>, s: ControlStatus): nat {
    |Filter(controls, HasStatus(s))|
  }

  function Tally(controls: seq<ControlResult>): Score {
    Score(|controls|, Number(controls, Pass), Number(controls, Gap),
          Number(controls, Unknown), Number(controls, Error), Number(controls, NotApplicable))
  }

  lemma NumberSnoc(controls: seq<ControlResult>, c: ControlResult, s: ControlStatus)
    ensures Number(controls + [c], s) == Number(controls, s) + if c.status == s then 1 else 0
  {
    FilterSnoc(controls, c, HasStatus(s));
  }

  lemma TallySnoc(controls: seq<ControlResult>, c: ControlResult)
    ensures Tally(controls + [c]) == Count(Tally(controls), c.status)
  {
    hide Number;
    NumberSnoc(controls, c, Pass);
    NumberSnoc(controls, c, Gap);
    NumberSnoc(controls, c, Unknown);
    NumberSnoc(controls, c, Error);
    NumberSnoc(controls, c, NotApplicable);
  }

  lemma NumberConcat(a: seq<ControlResult>, b: seq<ControlResult>, s: ControlStatus)
    ensures Number(a + b, s) == Number(a, s) + Number(b, s)
  {
    FilterConcat(a, b, HasStatus(s));
  }

  lemma TallyConcat(a: seq<ControlResult>, b: seq<ControlResult>)
    ensures Tally(a + b) == Add(Tally(a), Tally(b))
  {
    hide Number;
    NumberConcat(a, b, Pass);
    NumberConcat(a, b, Gap);
    NumberConcat(a, b, Unknown);
    NumberConcat(a, b, Error);
    NumberConcat(a, b, NotApplicable);
  }

  lemma TallyNone()
    ensures Tally([]) == ZERO
  {
  }

  method TallyRun(controls: seq<ControlResult>) returns (s: Score)
    ensures s == Tally(controls)
  {
    hide Tally, Count;
    s := ZERO;
    TallyNone();
    for i := 0 to |controls|
      invariant s == Tally(controls[..i])
    {
      assert controls[..i + 1] == controls[..i] + [controls[i]];
      TallySnoc(controls[..i], controls[i]);
      s := Count(s, controls[i].status);
    }
    assert controls[..|controls|] == controls;
  }

  // ----- per domain

  function Domain(controls: seq<ControlResult>, s: Section): seq<ControlResult> {
    Filter(controls, InDomain(s))
  }

  /** The score of a domain; the zero score of one without controls. */
  function DomainScore(controls: seq<ControlResult>, s: Section): Score {
    Tally(Domain(controls, s))
  }

  predicate HasControls(controls: seq<ControlResult>, s: Section) {
    Domain(controls, s) != []
  }

  /** Exactly the domains that have controls appear, each with its own tally. */
  ghost predicate IsBySection(m: map<Section, Score>, controls: seq<ControlResult>) {
    forall s :: (s in m <==> HasControls(controls, s)) && (s in m ==> m[s] == DomainScore(controls, s))
  }

  function At(m: map<Section, Score>, s: Section): Score {
    if s in m then m[s] else ZERO
  }

  lemma DomainSnoc(controls: seq<ControlResult>, c: ControlResult, s: Section)
    ensures HasControls(controls + [c], s) == (HasControls(controls, s) || c.section == s)
    ensures DomainScore(controls + [c], s)
         == if c.section == s then Count(DomainScore(controls, s), c.status) else DomainScore(controls, s)
  {
    FilterSnoc(controls, c, InDomain(s));
    TallySnoc(Domain(controls, s), c);
    hide Tally, Count, Filter;
  }

  lemma AtDomain(m: map<Section, Score>, controls: seq<ControlResult>, s: Section)
    requires IsBySection(m, controls)
    ensures At(m, s) == DomainScore(controls, s)
  {
    TallyNone();
    hide Tally;
  }

  lemma BySectionStep(m: map<Section, Score>, controls: seq<ControlResult>, c: ControlResult)
    requires IsBySection(m, controls)
    ensures IsBySection(m[c.section := Count(At(m, c.section), c.status)], controls + [c])
  {
    hide Tally, Count, HasControls, DomainScore, At;
    AtDomain(m, controls, c.section);
    var m' := m[c.section := Count(At(m, c.section), c.status)];
    forall s ensures (s in m' <==> HasControls(controls + [c], s)) && (s in m' ==> m'[s] == DomainScore(controls + [c], s)) {
      DomainSnoc(controls, c, s);
    }
  }

  lemma BySectionNone()
    ensures IsBySection(map[], [])
  {
  }

  method BySection(controls: seq<ControlResult>) returns (m: map<Section, Score>)
    ensures IsBySection(m, controls)
  {
    hide *;
    m := map[];
    BySectionNone();
    for i := 0 to |controls|
      invariant IsBySection(m, controls[..i])
    {
      assert controls[..i + 1] == controls[..i] + [controls[i]];
      BySectionStep(m, controls[..i], controls[i]);
      m := m[controls[i].section := Count(At(m, controls[i].section), controls[i].status)];
    }
    assert controls[..|controls|] == controls;
  }

  lemma DomainNumberSnoc(controls: seq<ControlResult>, c: ControlResult, s: Section, status: ControlStatus)
    ensures var d, d' := Domain(controls, s), Domain(controls + [c], s);
            && |d'| == |d| + (if c.section == s then 1 else 0)
            && Number(d', status) == Number(d, status) + if c.section == s && c.status == status then 1 else 0
  {
    FilterSnoc(controls, c, InDomain(s));
    NumberSnoc(Domain(controls, s), c, status);
    hide Filter;
  }

  lemma {:induction false} NumbersPartition(controls: seq<ControlResult>, status: ControlStatus)
    ensures |controls| == |Domain(controls, Code)| + |Domain(controls, Infrastructure)|
                        + |Domain(controls, Documentation)| + |Domain(controls, Organizational)|
    ensures Number(controls, status)
         == Number(Domain(controls, Code), status) + Number(Domain(controls, Infrastructure), status)
          + Number(Domain(controls, Documentation), status) + Number(Domain(controls, Organizational), status)
    decreases |controls|
  {
    if controls != [] {
      var init, c := controls[..|controls| - 1], controls[|controls| - 1];
      assert controls == init + [c];
      NumbersPartition(init, status);
      NumberSnoc(init, c, status);
      DomainNumberSnoc(init, c, Code, status);
      DomainNumberSnoc(init, c, Infrastructure, status);
      DomainNumberSnoc(init, c, Documentation, status);
      DomainNumberSnoc(init, c, Organizational, status);
    }
  }

  /** The domains partition the controls: their scores add up to the flat tally. */
  lemma DomainsPartition(controls: seq<ControlResult>)
    ensures Tally(controls)
         == Add(Add(DomainScore(controls, Code), DomainScore(controls, Infrastructure)),
                Add(DomainScore(controls, Documentation), DomainScore(controls, Organizational)))
  {
    hide Number, Domain;
    NumbersPartition(controls, Pass);
    NumbersPartition(controls, Gap);
    NumbersPartition(controls, Unknown);
    NumbersPartition(controls, Error);
    NumbersPartition(controls, NotApplicable);
  }

  lemma DomainConcat(a: seq<ControlResult>, b: seq<ControlResult>, s: Section)
    ensures HasControls(a + b, s) == (HasControls(a, s) || HasControls(b, s))
    ensures DomainScore(a + b, s) == Add(DomainScore(a, s), DomainScore(b, s))
  {
    FilterConcat(a, b, InDomain(s));
    TallyConcat(Domain(a, s), Domain(b, s));
    hide Tally, Filter;
  }
}
