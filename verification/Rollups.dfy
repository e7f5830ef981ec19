/** The findings that recur across frameworks, and the totals beside them. */
module Rollups {
  import opened Basics
  import opened Aggregation
  import opened NameLists
  import opened OrderedSort
  import opened Scores
  import opened TextTrim
  import opened Topics

  datatype EvidencePack = EvidencePack(framework: string, controls: seq<ControlResult>, score: Score, disabled: seq<string>)

  /** One gap check of a gap control, under its topic. */
  datatype Finding = Finding(key: string, title: string, framework: string, severity: Severity,
                             rationale: string, remediation: Option<string>)

  datatype Recurring = Recurring(check: string, frameworks: seq<string>, severity: Severity,
                                 rationale: string, remediation: Option<string>)

  function Level(s: Severity): nat {
    match s
    case Low => 0
    case Medium => 1
    case High => 2
    case Critical => 3
  }

  // ----- the findings of the packs, in order

  function FindingOf(framework: string, c: ControlResult, check: CheckRecord): Finding {
    var topic := TopicOf(LocalCheckId(check.checkId));
    Finding(topic.key, topic.title, framework, c.severity, Trim(check.rationale), c.remediation)
  }

  /** Of the first `n` checks of a control. */
  function CheckFindings(framework: string, c: ControlResult, n: nat): seq<Finding>
    requires n <= |c.checks|
  {
    if n == 0 then []
    else
      var check := c.checks[n - 1];
      CheckFindings(framework, c, n - 1) + if check.status == Gap then [FindingOf(framework, c, check)] else []
  }

  /** Of the first `n` controls of a pack. */
  function ControlFindings(p: EvidencePack, n: nat): seq<Finding>
    requires n <= |p.controls|
  {
    if n == 0 then []
    else
      var c := p.controls[n - 1];
      ControlFindings(p, n - 1) + if c.status == Gap then CheckFindings(p.framework, c, |c.checks|) else []
  }

  /** Of the first `n` packs. */
  function PackFindings(packs: seq<EvidencePack>, n: nat): seq<Finding>
    requires n <= |packs|
  {
    if n == 0 then [] else PackFindings(packs, n - 1) + ControlFindings(packs[n - 1], |packs[n - 1].controls|)
  }

  // ----- grouping by topic

  function Opened(f: Finding): Recurring {
    Recurring(f.title, [], f.severity, f.rationale, f.remediation)
  }

  function Absorb(r: Recurring, f: Finding): Recurring {
    var seen := r.(frameworks := if f.framework in r.frameworks then r.frameworks else r.frameworks + [f.framework]);
    if Level(f.severity) > Level(r.severity) then seen.(severity := f.severity, remediation := f.remediation) else seen
  }

  function Entry(m: map<string, Recurring>, f: Finding): Recurring {
    if f.key in m then m[f.key] else Opened(f)
  }

  function Grouped(fs: seq<Finding>): map<string, Recurring> {
    if fs == [] then map[]
    else
      var m, f := Grouped(fs[..|fs| - 1]), fs[|fs| - 1];
      m[f.key := Absorb(Entry(m, f), f)]
  }

  function ByKey(k: string): Finding -> bool {
    (f: Finding) => f.key == k
  }

  function OfTopic(fs: seq<Finding>, k: string): seq<Finding> {
    Filter(fs, ByKey(k))
  }

  function Frameworks(g: seq<Finding>): seq<string> {
    seq(|g|, i requires 0 <= i < |g| => g[i].framework)
  }

  /** The first of the most severe findings. */
  predicate FirstWorst(g: seq<Finding>, i: nat) {
    && i < |g|
    && (forall j :: 0 <= j < |g| ==> Level(g[j].severity) <= Level(g[i].severity))
    && (forall j :: 0 <= j < i ==> Level(g[j].severity) < Level(g[i].severity))
  }

  /** A severity and a remediation, of the first of the most severe findings. */
  ghost predicate OfWorst(severity: Severity, remediation: Option<string>, g: seq<Finding>) {
    exists i: nat :: FirstWorst(g, i) && severity == g[i].severity && remediation == g[i].remediation
  }

  /** What an entry says of the findings of its topic: the words of the first,
    * every framework once in order of appearance, the worst severity, and the
    * remediation of the first finding that severe.
    */
  ghost predicate Summarises(r: Recurring, g: seq<Finding>) {
    && g != [] && r.check == g[0].title && r.rationale == g[0].rationale
    && r.frameworks == Firsts(Frameworks(g))
    && OfWorst(r.severity, r.remediation, g)
  }

  lemma FrameworksSnoc(g: seq<Finding>, f: Finding)
    ensures Firsts(Frameworks(g + [f]))
         == if f.framework in Firsts(Frameworks(g)) then Firsts(Frameworks(g)) else Firsts(Frameworks(g)) + [f.framework]
  {
    var fs := Frameworks(g + [f]);
    assert fs[..|fs| - 1] == Frameworks(g);
  }

  lemma WorstSnoc(g: seq<Finding>, f: Finding, i: nat)
    requires FirstWorst(g, i)
    ensures FirstWorst(g + [f], if Level(f.severity) > Level(g[i].severity) then |g| else i)
  {
  }

  lemma OfWorstSnoc(severity: Severity, remediation: Option<string>, g: seq<Finding>, f: Finding)
    requires OfWorst(severity, remediation, g)
    ensures if Level(f.severity) > Level(severity) then OfWorst(f.severity, f.remediation, g + [f])
            else OfWorst(severity, remediation, g + [f])
  {
    var i: nat :| FirstWorst(g, i) && severity == g[i].severity && remediation == g[i].remediation;
    WorstSnoc(g, f, i);
    hide Level, FirstWorst;
    var k: nat := if Level(f.severity) > Level(severity) then |g| else i;
    assert FirstWorst(g + [f], k) && (g + [f])[k] == if Level(f.severity) > Level(severity) then f else g[i];
  }

  lemma SummariseStep(r: Recurring, g: seq<Finding>, f: Finding)
    requires Summarises(r, g)
    ensures Summarises(Absorb(r, f), g + [f])
  {
    hide Level, Firsts, Frameworks, OfWorst;
    OfWorstSnoc(r.severity, r.remediation, g, f);
    FrameworksSnoc(g, f);
    assert (g + [f])[0] == g[0];
  }

  lemma SummariseOpen(f: Finding)
    ensures Summarises(Absorb(Opened(f), f), [f])
  {
    assert FirstWorst([f], 0) && OfWorst(f.severity, f.remediation, [f]);
    FrameworksSnoc([], f);
    assert [] + [f] == [f];
    assert Frameworks([]) == [];
  }

  /** Every topic with a finding has an entry, and it sums up its findings. */
  lemma {:induction false} GroupedMeaning(fs: seq<Finding>, k: string)
    ensures k in Grouped(fs) <==> OfTopic(fs, k) != []
    ensures k in Grouped(fs) ==> Summarises(Grouped(fs)[k], OfTopic(fs, k))
  {
    hide Absorb, Summarises, Filter, Opened;
    if fs == [] {
      NoFindings(k);
    } else {
      var init, f := fs[..|fs| - 1], fs[|fs| - 1];
      assert fs == init + [f];
      FilterSnoc(init, f, ByKey(k));
      GroupedMeaning(init, k);
      if f.key == k {
        if k in Grouped(init) {
          SummariseStep(Grouped(init)[k], OfTopic(init, k), f);
        } else {
          SummariseOpen(f);
          assert [] + [f] == [f];
        }
      }
    }
  }

  lemma NoFindings(k: string)
    ensures Grouped([]) == map[] && OfTopic([], k) == []
  {
  }

  // ----- the order of the list

  function Reach(r: Recurring): nat { |r.frameworks| }

  /** More frameworks before fewer, the graver before the lighter, then by title. */
  predicate FindingLe(a: Recurring, b: Recurring) {
    || Reach(a) > Reach(b)
    || (Reach(a) == Reach(b) && Level(a.severity) > Level(b.severity))
    || (Reach(a) == Reach(b) && Level(a.severity) == Level(b.severity) && TextLe(a.check, b.check))
  }

  lemma FindingOrder()
    ensures TotalPreorder(FindingLe)
  {
    TextOrder();
    hide TextLe, Level;
    forall a, b ensures FindingLe(a, b) || FindingLe(b, a) {
      assert TextLe(a.check, b.check) || TextLe(b.check, a.check);
    }
    forall a, b, c | FindingLe(a, b) && FindingLe(b, c) ensures FindingLe(a, c) {
      assert TextLe(a.check, b.check) && TextLe(b.check, c.check) ==> TextLe(a.check, c.check);
    }
  }

  function Keys(fs: seq<Finding>): seq<string> {
    seq(|fs|, i requires 0 <= i < |fs| => fs[i].key)
  }

  /** The topics in the order of a map sorted by key. */
  function KeysInOrder(fs: seq<Finding>): seq<string> {
    Sort(Firsts(Keys(fs)), TextLe)
  }

  function Values(m: map<string, Recurring>, keys: seq<string>): seq<Recurring>
    requires forall k :: k in keys ==> k in m
  {
    seq(|keys|, i requires 0 <= i < |keys| => m[keys[i]])
  }

  lemma {:induction false} GroupedKeys(fs: seq<Finding>)
    ensures forall k :: k in Grouped(fs) <==> k in Keys(fs)
  {
    hide Absorb, Entry;
    if fs != [] {
      var init, f := fs[..|fs| - 1], fs[|fs| - 1];
      GroupedKeys(init);
      assert Keys(fs) == Keys(init) + [f.key];
    }
  }

  lemma KeysOrdered(fs: seq<Finding>)
    ensures StrictlySorted(KeysInOrder(fs))
    ensures forall k :: k in KeysInOrder(fs) <==> k in Grouped(fs)
  {
    GroupedKeys(fs);
    SortStrict(Firsts(Keys(fs)));
    SortMembers(Firsts(Keys(fs)), TextLe);
  }

  /** One entry per topic, in key order. */
  function Entries(fs: seq<Finding>): seq<Recurring> {
    KeysOrdered(fs);
    Values(Grouped(fs), KeysInOrder(fs))
  }

  function RecurringOf(fs: seq<Finding>): seq<Recurring> {
    Sort(Entries(fs), FindingLe)
  }

  /** One entry per topic, sorted; and entries that tie stay in key order. */
  lemma RecurringMeaning(fs: seq<Finding>, group: Recurring -> bool)
    ensures Sorted(RecurringOf(fs), FindingLe) && multiset(RecurringOf(fs)) == multiset(Entries(fs))
    ensures AllAlike(group, FindingLe) ==> Filter(RecurringOf(fs), group) == Filter(Entries(fs), group)
  {
    hide Entries, Sort, Filter, Sorted, FindingLe;
    var all := Entries(fs);
    FindingOrder();
    SortSorts(all, FindingLe);
    SortPermutes(all, FindingLe);
    if AllAlike(group, FindingLe) {
      SortStable(all, FindingLe, group);
    }
  }

  /** No gap is lost: each stands in the list, under its framework, at least as
    * severe as it is.
    */
  lemma NoGapIsLost(fs: seq<Finding>, i: nat)
    requires i < |fs|
    ensures exists r :: r in RecurringOf(fs) && fs[i].framework in r.frameworks
                     && Level(r.severity) >= Level(fs[i].severity)
  {
    var f := fs[i];
    hide Level, Filter, Sort, Grouped, Firsts, TopicOf;
    GroupedKeys(fs);
    KeysOrdered(fs);
    assert Keys(fs)[i] == f.key;
    GroupedMeaning(fs, f.key);
    var r, g := Grouped(fs)[f.key], OfTopic(fs, f.key);
    InSummary(r, g, f);
    var keys := KeysInOrder(fs);
    var j :| 0 <= j < |keys| && keys[j] == f.key;
    var all := Entries(fs);
    assert all[j] == r && r in all;
    SortMembers(all, FindingLe);
  }

  lemma InSummary(r: Recurring, g: seq<Finding>, f: Finding)
    requires Summarises(r, g) && f in g
    ensures f.framework in r.frameworks && Level(r.severity) >= Level(f.severity)
  {
    hide Level;
    var i: nat :| FirstWorst(g, i) && r.severity == g[i].severity && r.remediation == g[i].remediation;
    var j :| 0 <= j < |g| && g[j] == f;
    assert Frameworks(g)[j] == f.framework;
  }
}
