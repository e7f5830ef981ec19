/** The status of a control, read off its checks rule by rule. */
module AggregateMeaning {
  import opened OrderedSort
  import opened Aggregation

  /** How many checks have a status. */
  function Number(results: seq<CheckResult>, s: ControlStatus): nat {
    if results == [] then 0 else (if results[0].status == s then 1 else 0) + Number(results[1..], s)
  }

  /** What the checks of a status weigh. */
  function Weight(results: seq<CheckResult>, s: ControlStatus): real {
    if results == [] then 0.0 else (if results[0].status == s then results[0].weight else 0.0) + Weight(results[1..], s)
  }

  function Applicable(results: seq<CheckResult>): nat {
    Number(results, Pass) + Number(results, Unknown) + Number(results, Gap) + Number(results, Error)
  }

  /** No collector failed, and some check applies. */
  predicate Scored(results: seq<CheckResult>) {
    Number(results, Error) == 0 && Applicable(results) > 0
  }

  // ----- the filtered lists

  lemma Cons(results: seq<CheckResult>)
    requires results != []
    ensures results == [results[0]] + results[1..]
  {
  }

  lemma {:induction false} WithIs(results: seq<CheckResult>, s: ControlStatus)
    ensures |With(results, s)| == Number(results, s) && Sum(With(results, s)) == Weight(results, s)
  {
    if results == [] {
      assert With(results, s) == [];
    } else {
      var r, rest := results[0], results[1..];
      WithIs(rest, s);
      Cons(results);
      hide Filter, Is, IsNot, Sum;
      WithCons(r, rest, s);
      SumsCons(r, rest, s);
    }
  }

  lemma {:induction false} SomeCounted(results: seq<CheckResult>, s: ControlStatus)
    ensures Number(results, s) > 0 <==> exists i :: 0 <= i < |results| && results[i].status == s
  {
    if results != [] {
      SomeCounted(results[1..], s);
      assert forall i :: 0 < i < |results| ==> results[i] == results[1..][i - 1];
    }
  }

  lemma {:induction false} ScoringIs(results: seq<CheckResult>, s: ControlStatus)
    requires s != NotApplicable
    ensures var scoring := Without(results, NotApplicable);
            Number(scoring, s) == Number(results, s) && Weight(scoring, s) == Weight(results, s)
  {
    if results == [] {
      assert Without(results, NotApplicable) == [];
    } else {
      var r, rest := results[0], results[1..];
      ScoringIs(rest, s);
      Cons(results);
      hide Filter, Is, IsNot;
      WithCons(r, rest, NotApplicable);
      hide Without;
      assert r.status != NotApplicable ==> ([r] + Without(rest, NotApplicable))[1..] == Without(rest, NotApplicable);
      assert [] + Without(rest, NotApplicable) == Without(rest, NotApplicable);
    }
  }

  lemma {:induction false} AllCounted(results: seq<CheckResult>)
    ensures |results| == Number(results, NotApplicable) + Applicable(results)
    ensures Sum(Without(results, Unknown))
         == Weight(results, NotApplicable) + Weight(results, Pass) + Weight(results, Gap) + Weight(results, Error)
  {
    if results == [] {
      assert Without(results, Unknown) == [];
    } else {
      var r, rest := results[0], results[1..];
      AllCounted(rest);
      Cons(results);
      hide Filter, Is, IsNot, Sum;
      SumsCons(r, rest, Unknown);
    }
  }

  lemma {:induction false} NoneLeft(results: seq<CheckResult>)
    ensures Number(Without(results, NotApplicable), NotApplicable) == 0
    ensures Weight(Without(results, NotApplicable), NotApplicable) == 0.0
  {
    if results == [] {
      assert Without(results, NotApplicable) == [];
    } else {
      var r, rest := results[0], results[1..];
      NoneLeft(rest);
      Cons(results);
      hide Filter, Is, IsNot;
      WithCons(r, rest, NotApplicable);
      hide Without;
      assert r.status != NotApplicable ==> ([r] + Without(rest, NotApplicable))[1..] == Without(rest, NotApplicable);
      assert [] + Without(rest, NotApplicable) == Without(rest, NotApplicable);
    }
  }

  /** The numbers the rules work on. */
  lemma ScoringNumbers(results: seq<CheckResult>)
    ensures var scoring := Without(results, NotApplicable);
            && |scoring| == Applicable(results)
            && |With(scoring, Pass)| == Number(results, Pass) && |With(scoring, Gap)| == Number(results, Gap)
            && |With(results, Error)| == Number(results, Error)
            && Sum(With(scoring, Pass)) == Weight(results, Pass)
            && Sum(With(scoring, Unknown)) == Weight(results, Unknown)
            && Sum(Without(scoring, Unknown)) == Weight(results, Pass) + Weight(results, Gap) + Weight(results, Error)
  {
    hide *;
    var scoring := Without(results, NotApplicable);
    WithIs(results, Error);
    WithIs(scoring, Pass);
    WithIs(scoring, Gap);
    WithIs(scoring, Unknown);
    ScoringIs(results, Pass);
    ScoringIs(results, Gap);
    ScoringIs(results, Unknown);
    ScoringIs(results, Error);
    NoneLeft(results);
    AllCounted(scoring);
    SameApplicable(scoring, results);
  }

  lemma SameApplicable(a: seq<CheckResult>, b: seq<CheckResult>)
    requires Number(a, Pass) == Number(b, Pass) && Number(a, Unknown) == Number(b, Unknown)
    requires Number(a, Gap) == Number(b, Gap) && Number(a, Error) == Number(b, Error)
    ensures Applicable(a) == Applicable(b)
  {
  }

  // ----- the rules

  /** A failed collector decides, and a control to which nothing applies has no score. */
  lemma UnscoredStatus(agg: Aggregate, results: seq<CheckResult>, cfg: WeightCfg)
    ensures (exists i :: 0 <= i < |results| && results[i].status == Error) ==> AggregateStatus(agg, results, cfg) == Error
    ensures (forall i :: 0 <= i < |results| ==> results[i].status == NotApplicable) ==>
              AggregateStatus(agg, results, cfg) == NotApplicable
  {
    ScoringNumbers(results);
    SomeCounted(results, Error);
    SomeCounted(results, Pass);
    SomeCounted(results, Unknown);
    SomeCounted(results, Gap);
    hide Filter, Is, IsNot, Sum, Worst, AnyOf, WeightedStatus, ByCount, With, Without, Number, Weight;
  }

  /** More gaps than passes, or as many, are a gap; more than half of the checks that
    * apply must pass.
    */
  lemma MajorityExactly(results: seq<CheckResult>, cfg: WeightCfg)
    requires Scored(results)
    ensures var status := AggregateStatus(Majority, results, cfg);
            var passes, gaps := Number(results, Pass), Number(results, Gap);
            && (status == Gap <==> 0 < gaps && passes <= gaps)
            && (status == Pass <==> !(0 < gaps && passes <= gaps) && 2 * passes > Applicable(results))
            && (status == Gap || status == Pass || status == Unknown)
  {
    ScoringNumbers(results);
    hide Filter, Is, IsNot, Sum, Worst, AnyOf, WeightedStatus, With, Without, Number, Weight, Applicable;
  }

  /** One passing check is enough; a gap takes all that apply. */
  lemma AnyExactly(results: seq<CheckResult>, cfg: WeightCfg)
    requires Scored(results)
    ensures var status := AggregateStatus(Any, results, cfg);
            && (status == Pass <==> exists i :: 0 <= i < |results| && results[i].status == Pass)
            && (status == Gap <==> forall i :: 0 <= i < |results| ==> results[i].status == Gap || results[i].status == NotApplicable)
            && (status == Gap || status == Pass || status == Unknown)
  {
    ScoringNumbers(results);
    SomeCounted(results, Pass);
    SomeCounted(results, Unknown);
    SomeCounted(results, Error);
    assert Applicable(results)
        == Number(results, Pass) + Number(results, Unknown) + Number(results, Gap) + Number(results, Error);
    hide Filter, Is, IsNot, Sum, Worst, WeightedStatus, With, Without, Number, Weight, Applicable;
    OnlyGaps(results);
  }

  lemma OnlyGaps(results: seq<CheckResult>)
    ensures (forall i :: 0 <= i < |results| ==> results[i].status == Gap || results[i].status == NotApplicable)
       <==> Number(results, Pass) == 0 && Number(results, Unknown) == 0 && Number(results, Error) == 0
  {
    SomeCounted(results, Pass);
    SomeCounted(results, Unknown);
    SomeCounted(results, Error);
    hide Number;
    if Number(results, Pass) == 0 && Number(results, Unknown) == 0 && Number(results, Error) == 0 {
      forall i | 0 <= i < |results| ensures results[i].status == Gap || results[i].status == NotApplicable {
      }
    }
  }

  /** The status of an applicable check, and no check is worse. */
  lemma AllExactly(results: seq<CheckResult>, cfg: WeightCfg)
    requires Scored(results)
    ensures var status := AggregateStatus(All, results, cfg);
            && status != NotApplicable
            && (exists i :: 0 <= i < |results| && results[i].status == status)
            && (forall i :: 0 <= i < |results| ==> Rank(results[i].status) <= Rank(status))
  {
    ScoringNumbers(results);
    var scoring := Without(results, NotApplicable);
    assert forall r :: r in scoring <==> r in results && r.status != NotApplicable;
    assert AggregateStatus(All, results, cfg) == Worst(scoring) && scoring != [];
    hide Without, AggregateStatus, Worst, With, Number;
    WorstIsMaximum(scoring);
    var i :| 0 <= i < |scoring| && scoring[i].status == Worst(scoring);
    assert scoring[i] in results;
    forall k | 0 <= k < |results| ensures Rank(results[k].status) <= Rank(Worst(scoring)) {
      if results[k].status != NotApplicable {
        assert results[k] in scoring;
      }
    }
  }

  /** Not too much of the weight is indeterminate, and some of it is not. */
  predicate Seen(unknown: real, observed: real, cfg: WeightCfg) {
    && unknown + observed > EPSILON && unknown <= cfg.maxUnknownShare * (unknown + observed)
    && observed > 0.0
  }

  /** The passing weight is compared with what was observed, once enough was seen. */
  lemma WeightedExactly(results: seq<CheckResult>, cfg: WeightCfg)
    requires Scored(results) && PositiveWeights(results) && ValidCfg(cfg)
    ensures var status := AggregateStatus(Weighted, results, cfg);
            var passing, observed := Weight(results, Pass), Weight(results, Pass) + Weight(results, Gap);
            && (status == Pass <==> Seen(Weight(results, Unknown), observed, cfg) && passing >= cfg.passAt * observed)
            && (status == Gap <==> Seen(Weight(results, Unknown), observed, cfg) && passing < cfg.gapBelow * observed)
            && (status == Gap || status == Pass || status == Unknown)
  {
    hide *;
    WeightsPositive(results);
    WeightedIs(results, cfg);
    WeightRule(Weight(results, Pass), Weight(results, Unknown), Weight(results, Pass) + Weight(results, Gap), cfg);
  }

  lemma WeightedIs(results: seq<CheckResult>, cfg: WeightCfg)
    requires Scored(results)
    ensures AggregateStatus(Weighted, results, cfg)
         == ByWeight(Weight(results, Pass), Weight(results, Unknown), Weight(results, Pass) + Weight(results, Gap), cfg)
  {
    NoErrorWeight(results);
    ScoringNumbers(results);
    assert Without(results, NotApplicable) != [] && With(results, Error) == [];
    hide AggregateStatus, With, Without, ByWeight, Sum, Weight;
    WeightedStatusOf(results, cfg);
    assert Earned(results) == Weight(results, Pass) && Indeterminate(results) == Weight(results, Unknown);
    assert Observable(results) == Weight(results, Pass) + Weight(results, Gap);
  }

  lemma {:induction false} WeightsPositive(results: seq<CheckResult>)
    requires PositiveWeights(results)
    ensures Weight(results, Pass) >= 0.0 && Weight(results, Gap) >= 0.0 && Weight(results, Unknown) >= 0.0
  {
    if results != [] {
      assert forall i :: 0 <= i < |results| - 1 ==> results[1..][i] == results[i + 1];
      WeightsPositive(results[1..]);
    }
  }

  lemma {:induction false} NoErrorWeight(results: seq<CheckResult>)
    requires Number(results, Error) == 0
    ensures Weight(results, Error) == 0.0
  {
    if results != [] {
      NoErrorWeight(results[1..]);
    }
  }

  lemma WeightRule(passing: real, unknown: real, observed: real, cfg: WeightCfg)
    requires ValidCfg(cfg) && 0.0 <= passing <= observed && unknown >= 0.0
    ensures var status := ByWeight(passing, unknown, observed, cfg);
            && (status == Pass <==> Seen(unknown, observed, cfg) && passing >= cfg.passAt * observed)
            && (status == Gap <==> Seen(unknown, observed, cfg) && passing < cfg.gapBelow * observed)
            && (status == Gap || status == Pass || status == Unknown)
  {
    hide ByRatio;
    if observed + unknown > EPSILON {
      QuotientCompares(unknown, observed + unknown, cfg.maxUnknownShare);
    }
    RatioRule(passing, observed, cfg);
  }

  lemma RatioRule(passing: real, observed: real, cfg: WeightCfg)
    requires ValidCfg(cfg) && 0.0 <= passing <= observed
    ensures var status := ByRatio(passing, observed, cfg);
            && (status == Pass <==> observed > 0.0 && passing >= cfg.passAt * observed)
            && (status == Gap <==> observed > 0.0 && passing < cfg.gapBelow * observed)
            && (status == Gap || status == Pass || status == Unknown)
  {
    if observed > 0.0 {
      QuotientCompares(passing, observed, cfg.passAt);
      QuotientCompares(passing, observed, cfg.gapBelow);
      MulOrdered(cfg.gapBelow, cfg.passAt, observed);
    }
  }

  lemma MulOrdered(a: real, b: real, c: real)
    requires a < b && c > 0.0
    ensures a * c < b * c
  {
  }

  lemma QuotientCompares(a: real, b: real, c: real)
    requires b > 0.0
    ensures (a / b >= c <==> a >= c * b) && (a / b > c <==> a > c * b)
  {
    var q := a / b;
    assert q * b == a;
  }
}
