/** The status of a control from the results of its checks. */
module Aggregation {
  import opened OrderedSort

  /** From the best status to the worst. */
  datatype ControlStatus = NotApplicable | Pass | Unknown | Gap | Error

  datatype CheckResult = CheckResult(status: ControlStatus, weight: real)

  datatype Aggregate = All | Any | Weighted | Majority

  datatype WeightCfg = WeightCfg(passAt: real, gapBelow: real, maxUnknownShare: real)

  /** The machine epsilon of a double: 2 to the power -52. */
  const EPSILON: real := 1.0 / 4503599627370496.0

  function Rank(s: ControlStatus): nat {
    match s
    case NotApplicable => 0
    case Pass => 1
    case Unknown => 2
    case Gap => 3
    case Error => 4
  }

  function Is(s: ControlStatus): CheckResult -> bool {
    (r: CheckResult) => r.status == s
  }

  function IsNot(s: ControlStatus): CheckResult -> bool {
    (r: CheckResult) => r.status != s
  }

  function With(results: seq<CheckResult>, s: ControlStatus): seq<CheckResult> {
    Filter(results, Is(s))
  }

  function Without(results: seq<CheckResult>, s: ControlStatus): seq<CheckResult> {
    Filter(results, IsNot(s))
  }

  function Sum(results: seq<CheckResult>): real {
    if results == [] then 0.0 else results[0].weight + Sum(results[1..])
  }

  function Worse(a: ControlStatus, b: ControlStatus): ControlStatus {
    if Rank(a) >= Rank(b) then a else b
  }

  function Worst(results: seq<CheckResult>): ControlStatus
    requires results != []
  {
    if |results| == 1 then results[0].status else Worse(results[0].status, Worst(results[1..]))
  }

  function AnyOf(scoring: seq<CheckResult>): ControlStatus {
    if |With(scoring, Pass)| > 0 then Pass
    else if |With(scoring, Gap)| == |scoring| then Gap
    else Unknown
  }

  function ByRatio(earned: real, observable: real, cfg: WeightCfg): ControlStatus {
    // Nothing observable leaves no ratio: neither comparison holds of it.
    if observable == 0.0 then Unknown
    else if earned / observable >= cfg.passAt then Pass
    else if earned / observable < cfg.gapBelow then Gap
    else Unknown
  }

  function ByWeight(earned: real, unknown: real, observable: real, cfg: WeightCfg): ControlStatus {
    var total := observable + unknown;
    if total <= EPSILON || unknown / total > cfg.maxUnknownShare then Unknown
    else ByRatio(earned, observable, cfg)
  }

  function ByCount(passes: nat, gaps: nat, n: nat): ControlStatus {
    if gaps > 0 && passes <= gaps then Gap
    else if passes * 2 > n then Pass
    else Unknown
  }

  function WeightedStatus(scoring: seq<CheckResult>, cfg: WeightCfg): ControlStatus {
    ByWeight(Sum(With(scoring, Pass)), Sum(With(scoring, Unknown)), Sum(Without(scoring, Unknown)), cfg)
  }

  function AggregateStatus(agg: Aggregate, results: seq<CheckResult>, cfg: WeightCfg): ControlStatus {
    var scoring := Without(results, NotApplicable);
    if With(results, Error) != [] then Error
    else if scoring == [] then NotApplicable
    else
      match agg
      case All => Worst(scoring)
      case Any => AnyOf(scoring)
      case Weighted => WeightedStatus(scoring, cfg)
      case Majority => ByCount(|With(scoring, Pass)|, |With(scoring, Gap)|, |scoring|)
  }

  /** What loading a pack enforces of a weighted control. */
  predicate ValidCfg(cfg: WeightCfg) {
    0.0 <= cfg.gapBelow < cfg.passAt <= 1.0 && 0.0 <= cfg.maxUnknownShare <= 1.0
  }

  predicate PositiveWeights(results: seq<CheckResult>) {
    forall i :: 0 <= i < |results| ==> results[i].weight > 0.0
  }

  // ----- order does not matter

  lemma {:induction false} FilterCounts<T(!new)>(xs: seq<T>, p: T -> bool, x: T)
    ensures multiset(Filter(xs, p))[x] == if p(x) then multiset(xs)[x] else 0
  {
    if xs != [] {
      FilterCounts(xs[1..], p, x);
      assert xs == [xs[0]] + xs[1..];
    }
  }

  lemma FilterPermutes<T(!new)>(xs: seq<T>, ys: seq<T>, p: T -> bool)
    requires multiset(xs) == multiset(ys)
    ensures multiset(Filter(xs, p)) == multiset(Filter(ys, p)) && |Filter(xs, p)| == |Filter(ys, p)|
  {
    forall x ensures multiset(Filter(xs, p))[x] == multiset(Filter(ys, p))[x] {
      FilterCounts(xs, p, x);
      FilterCounts(ys, p, x);
    }
    assert multiset(Filter(xs, p)) == multiset(Filter(ys, p));
    SameSize(Filter(xs, p), Filter(ys, p));
  }

  lemma SameSize<T>(xs: seq<T>, ys: seq<T>)
    requires multiset(xs) == multiset(ys)
    ensures |xs| == |ys| && forall x :: x in xs <==> x in ys
  {
    assert |multiset(xs)| == |multiset(ys)|;
    forall x ensures x in xs <==> x in ys {
      assert x in multiset(xs) <==> x in multiset(ys);
    }
  }

  /** Taking an element out of the middle. */
  lemma {:induction false} SumWithout(xs: seq<CheckResult>, j: nat)
    requires j < |xs|
    ensures Sum(xs) == xs[j].weight + Sum(xs[..j] + xs[j + 1..])
  {
    var rest := xs[..j] + xs[j + 1..];
    if j == 0 {
      assert rest == xs[1..];
    } else {
      SumWithout(xs[1..], j - 1);
      assert xs[1..][..j - 1] + xs[1..][j..] == rest[1..];
    }
  }

  lemma TakeOut<T>(xs: seq<T>, ys: seq<T>) returns (j: nat)
    requires xs != [] && multiset(xs) == multiset(ys)
    ensures j < |ys| && ys[j] == xs[0] && multiset(xs[1..]) == multiset(ys[..j] + ys[j + 1..])
  {
    assert xs[0] in multiset(xs);
    assert xs[0] in multiset(ys);
    j :| 0 <= j < |ys| && ys[j] == xs[0];
    DropFirst(xs);
    DropOne(ys, j);
  }

  lemma DropFirst<T>(xs: seq<T>)
    requires xs != []
    ensures multiset(xs[1..]) == multiset(xs) - multiset{xs[0]}
  {
    assert xs == [xs[0]] + xs[1..];
  }

  lemma DropOne<T>(xs: seq<T>, j: nat)
    requires j < |xs|
    ensures multiset(xs[..j] + xs[j + 1..]) == multiset(xs) - multiset{xs[j]}
  {
    assert xs == xs[..j] + [xs[j]] + xs[j + 1..];
  }

  lemma {:induction false} SumPermutes(xs: seq<CheckResult>, ys: seq<CheckResult>)
    requires multiset(xs) == multiset(ys)
    ensures Sum(xs) == Sum(ys)
  {
    if xs == [] {
      SameSize(xs, ys);
    } else {
      var j := TakeOut(xs, ys);
      SumWithout(ys, j);
      SumPermutes(xs[1..], ys[..j] + ys[j + 1..]);
    }
  }

  /** The worst status is that of a check, and none is worse. */
  lemma {:induction false} WorstIsMaximum(xs: seq<CheckResult>)
    requires xs != []
    ensures exists i :: 0 <= i < |xs| && xs[i].status == Worst(xs)
    ensures forall i :: 0 <= i < |xs| ==> Rank(xs[i].status) <= Rank(Worst(xs))
  {
    if |xs| > 1 {
      WorstIsMaximum(xs[1..]);
      var i :| 0 <= i < |xs[1..]| && xs[1..][i].status == Worst(xs[1..]);
      assert xs[i + 1].status == Worst(xs[1..]);
      assert xs[0].status == Worst(xs) || xs[i + 1].status == Worst(xs);
      forall k | 0 <= k < |xs| ensures Rank(xs[k].status) <= Rank(Worst(xs)) {
        assert k > 0 ==> xs[k] == xs[1..][k - 1];
      }
    } else {
      assert xs[0].status == Worst(xs);
    }
  }

  lemma RankInjective(a: ControlStatus, b: ControlStatus)
    requires Rank(a) == Rank(b)
    ensures a == b
  {
  }

  lemma WorstNotBelow(xs: seq<CheckResult>, ys: seq<CheckResult>)
    requires xs != [] && ys != [] && forall x :: x in xs ==> x in ys
    ensures Rank(Worst(xs)) <= Rank(Worst(ys))
  {
    WorstIsMaximum(xs);
    WorstIsMaximum(ys);
    var i :| 0 <= i < |xs| && xs[i].status == Worst(xs);
    assert xs[i] in ys;
  }

  lemma WorstPermutes(xs: seq<CheckResult>, ys: seq<CheckResult>)
    requires multiset(xs) == multiset(ys) && xs != []
    ensures ys != [] && Worst(xs) == Worst(ys)
  {
    SameSize(xs, ys);
    WorstNotBelow(xs, ys);
    WorstNotBelow(ys, xs);
    RankInjective(Worst(xs), Worst(ys));
  }

  /** The status does not depend on the order of the checks. */
  lemma AggregatePermutes(agg: Aggregate, xs: seq<CheckResult>, ys: seq<CheckResult>, cfg: WeightCfg)
    requires multiset(xs) == multiset(ys)
    ensures AggregateStatus(agg, xs, cfg) == AggregateStatus(agg, ys, cfg)
  {
    hide Filter, Is, IsNot, Sum, Worst, ByWeight, ByCount;
    FilterPermutes(xs, ys, Is(Error));
    FilterPermutes(xs, ys, IsNot(NotApplicable));
    var a, b := Without(xs, NotApplicable), Without(ys, NotApplicable);
    FilterPermutes(a, b, Is(Pass));
    FilterPermutes(a, b, Is(Gap));
    FilterPermutes(a, b, Is(Unknown));
    FilterPermutes(a, b, IsNot(Unknown));
    SumPermutes(With(a, Pass), With(b, Pass));
    SumPermutes(With(a, Unknown), With(b, Unknown));
    SumPermutes(Without(a, Unknown), Without(b, Unknown));
    if a != [] {
      WorstPermutes(a, b);
    }
  }

  // ----- inapplicable checks do not count

  lemma OneFiltered(r: CheckResult, s: ControlStatus)
    ensures With([r], s) == (if r.status == s then [r] else []) && Without([r], s) == (if r.status != s then [r] else [])
  {
    assert [r][1..] == [];
    assert Filter([r][1..], Is(s)) == [] && Filter([r][1..], IsNot(s)) == [];
  }

  /** A check put in front of others. */
  lemma WithCons(r: CheckResult, rest: seq<CheckResult>, s: ControlStatus)
    ensures With([r] + rest, s) == (if r.status == s then [r] else []) + With(rest, s)
    ensures Without([r] + rest, s) == (if r.status != s then [r] else []) + Without(rest, s)
  {
    OneFiltered(r, s);
    FilterConcat([r], rest, Is(s));
    FilterConcat([r], rest, IsNot(s));
  }

  lemma ToFront(xs: seq<CheckResult>, i: nat)
    requires i < |xs|
    ensures multiset(xs) == multiset([xs[i]] + (xs[..i] + xs[i + 1..]))
  {
    assert xs == xs[..i] + [xs[i]] + xs[i + 1..];
    assert multiset(xs) == multiset(xs[..i]) + multiset{xs[i]} + multiset(xs[i + 1..]);
  }

  /** A check that does not apply can be left out. */
  lemma InapplicableDropsOut(agg: Aggregate, results: seq<CheckResult>, i: nat, cfg: WeightCfg)
    requires i < |results| && results[i].status == NotApplicable
    ensures AggregateStatus(agg, results, cfg) == AggregateStatus(agg, results[..i] + results[i + 1..], cfg)
  {
    var r, rest := results[i], results[..i] + results[i + 1..];
    ToFront(results, i);
    AggregatePermutes(agg, results, [r] + rest, cfg);
    hide Filter, Is, IsNot, Sum, Worst, ByWeight, ByCount;
    WithCons(r, rest, NotApplicable);
    WithCons(r, rest, Error);
    assert [] + Without(rest, NotApplicable) == Without(rest, NotApplicable);
    assert [] + With(rest, Error) == With(rest, Error);
    hide With, Without;
  }

  // ----- a pass rests on a passing check

  lemma {:induction false} SumOfPositive(xs: seq<CheckResult>)
    requires PositiveWeights(xs)
    ensures Sum(xs) >= 0.0 && (Sum(xs) > 0.0 <==> xs != [])
  {
    if xs != [] {
      assert forall i :: 0 <= i < |xs[1..]| ==> xs[1..][i] == xs[i + 1];
      SumOfPositive(xs[1..]);
    }
  }

  lemma FilterPositive(xs: seq<CheckResult>, p: CheckResult -> bool)
    requires PositiveWeights(xs)
    ensures PositiveWeights(Filter(xs, p))
  {
    var ys := Filter(xs, p);
    forall i | 0 <= i < |ys| ensures ys[i].weight > 0.0 {
      assert ys[i] in ys && ys[i] in xs;
    }
  }

  predicate HasPass(xs: seq<CheckResult>) {
    exists i :: 0 <= i < |xs| && xs[i].status == Pass
  }

  lemma PassingCheck(xs: seq<CheckResult>)
    requires With(xs, Pass) != []
    ensures HasPass(xs)
  {
    var r := With(xs, Pass)[0];
    assert r in With(xs, Pass);
    assert r in xs && r.status == Pass;
  }

  lemma PassingScored(xs: seq<CheckResult>)
    requires HasPass(Without(xs, NotApplicable))
    ensures HasPass(xs)
  {
    var ys := Without(xs, NotApplicable);
    var i :| 0 <= i < |ys| && ys[i].status == Pass;
    assert ys[i] in ys && ys[i] in xs;
  }

  lemma WorstPassIsPass(xs: seq<CheckResult>)
    requires xs != [] && Worst(xs) == Pass
    ensures HasPass(xs)
  {
    WorstIsMaximum(xs);
  }

  lemma RatioPassEarns(earned: real, unknown: real, observable: real, cfg: WeightCfg)
    requires ValidCfg(cfg) && earned >= 0.0 && observable >= 0.0 && ByWeight(earned, unknown, observable, cfg) == Pass
    ensures earned > 0.0
  {
  }

  /** No control passes without a check that does, and none while a collector has
    * failed.
    */
  lemma PassNeedsAPass(agg: Aggregate, results: seq<CheckResult>, cfg: WeightCfg)
    requires PositiveWeights(results) && ValidCfg(cfg)
    requires AggregateStatus(agg, results, cfg) == Pass
    ensures HasPass(results) && With(results, Error) == []
  {
    hide Filter, Is, IsNot, Sum, Worst, ByWeight, HasPass, PositiveWeights, ValidCfg;
    var scoring := Without(results, NotApplicable);
    FilterPositive(results, IsNot(NotApplicable));
    FilterPositive(scoring, Is(Pass));
    FilterPositive(scoring, IsNot(Unknown));
    SumOfPositive(With(scoring, Pass));
    SumOfPositive(Without(scoring, Unknown));
    if agg.All? {
      WorstPassIsPass(scoring);
    } else {
      if agg.Weighted? {
        RatioPassEarns(Sum(With(scoring, Pass)), Sum(With(scoring, Unknown)), Sum(Without(scoring, Unknown)), cfg);
      }
      PassingCheck(scoring);
    }
    PassingScored(results);
  }

  // ----- closing a gap never hurts

  lemma {:induction false} SumConcat(xs: seq<CheckResult>, ys: seq<CheckResult>)
    ensures Sum(xs + ys) == Sum(xs) + Sum(ys)
  {
    if xs == [] {
      assert xs + ys == ys;
    } else {
      assert (xs + ys)[1..] == xs[1..] + ys;
      SumConcat(xs[1..], ys);
    }
  }

  lemma WorstOfCons(r: CheckResult, rest: seq<CheckResult>)
    ensures Worst([r] + rest) == if rest == [] then r.status else Worse(r.status, Worst(rest))
  {
    assert ([r] + rest)[1..] == rest;
  }

  lemma RatioGrows(earned: real, unknown: real, observable: real, w: real, cfg: WeightCfg)
    requires ValidCfg(cfg) && w > 0.0 && earned >= 0.0 && unknown >= 0.0 && observable >= w
    ensures Rank(ByWeight(earned + w, unknown, observable, cfg)) <= Rank(ByWeight(earned, unknown, observable, cfg))
  {
    assert (earned + w) / observable >= earned / observable by {
      DivideGrows(earned, earned + w, observable);
    }
  }

  lemma DivideGrows(a: real, b: real, d: real)
    requires a <= b && d > 0.0
    ensures a / d <= b / d
  {
    assert a == (a / d) * d && b == (b / d) * d;
  }

  lemma CountGrows(passes: nat, gaps: nat, n: nat)
    requires gaps > 0
    ensures Rank(ByCount(passes + 1, gaps - 1, n)) <= Rank(ByCount(passes, gaps, n))
  {
  }

  /** With the gap in front of the other checks. */
  lemma ClosingFirstGap(agg: Aggregate, w: real, rest: seq<CheckResult>, cfg: WeightCfg)
    requires PositiveWeights(rest) && w > 0.0 && ValidCfg(cfg)
    ensures Rank(AggregateStatus(agg, [CheckResult(Pass, w)] + rest, cfg))
         <= Rank(AggregateStatus(agg, [CheckResult(Gap, w)] + rest, cfg))
  {
    var p, g := CheckResult(Pass, w), CheckResult(Gap, w);
    var scoring := Without(rest, NotApplicable);
    FilterPositive(rest, IsNot(NotApplicable));
    hide Filter, Is, IsNot, Sum, Worst, ByWeight, ByCount, PositiveWeights, ValidCfg;
    WithCons(p, rest, NotApplicable);
    WithCons(g, rest, NotApplicable);
    WithCons(p, rest, Error);
    WithCons(g, rest, Error);
    assert [] + With(rest, Error) == With(rest, Error);
    match agg
    case All =>
      WorstOfCons(p, scoring);
      WorstOfCons(g, scoring);
    case Any =>
      WithCons(p, scoring, Pass);
    case Weighted =>
      ClosingWeighted(w, scoring, cfg);
    case Majority =>
      ClosingCounted(w, scoring);
  }

  lemma SumSmall(r: CheckResult)
    ensures Sum([r]) == r.weight && Sum([]) == 0.0
  {
    assert [r][1..] == [];
  }

  lemma SumsCons(r: CheckResult, rest: seq<CheckResult>, s: ControlStatus)
    ensures Sum(With([r] + rest, s)) == (if r.status == s then r.weight else 0.0) + Sum(With(rest, s))
    ensures Sum(Without([r] + rest, s)) == (if r.status != s then r.weight else 0.0) + Sum(Without(rest, s))
  {
    hide Sum, Filter, Is, IsNot;
    SumSmall(r);
    WithCons(r, rest, s);
    hide With, Without;
    SumConcat(if r.status == s then [r] else [], With(rest, s));
    SumConcat(if r.status != s then [r] else [], Without(rest, s));
  }

  lemma SumsOfPositive(scoring: seq<CheckResult>)
    requires PositiveWeights(scoring)
    ensures Sum(With(scoring, Pass)) >= 0.0 && Sum(With(scoring, Unknown)) >= 0.0
    ensures Sum(Without(scoring, Unknown)) >= 0.0
  {
    FilterPositive(scoring, Is(Pass));
    FilterPositive(scoring, Is(Unknown));
    FilterPositive(scoring, IsNot(Unknown));
    hide Filter, Is, IsNot, Sum, PositiveWeights;
    SumOfPositive(With(scoring, Pass));
    SumOfPositive(With(scoring, Unknown));
    SumOfPositive(Without(scoring, Unknown));
  }

  lemma ClosingWeighted(w: real, scoring: seq<CheckResult>, cfg: WeightCfg)
    requires PositiveWeights(scoring) && w > 0.0 && ValidCfg(cfg)
    ensures Rank(WeightedStatus([CheckResult(Pass, w)] + scoring, cfg))
         <= Rank(WeightedStatus([CheckResult(Gap, w)] + scoring, cfg))
  {
    var p, g := CheckResult(Pass, w), CheckResult(Gap, w);
    hide Filter, Is, IsNot, Sum, ByWeight, PositiveWeights, ValidCfg, With, Without, Rank;
    SumsOfPositive(scoring);
    SumsCons(p, scoring, Pass);
    SumsCons(g, scoring, Pass);
    SumsCons(p, scoring, Unknown);
    SumsCons(g, scoring, Unknown);
    RatioGrows(Sum(With(scoring, Pass)), Sum(With(scoring, Unknown)), w + Sum(Without(scoring, Unknown)), w, cfg);
  }

  lemma ClosingCounted(w: real, scoring: seq<CheckResult>)
    ensures var p, g := [CheckResult(Pass, w)] + scoring, [CheckResult(Gap, w)] + scoring;
            Rank(ByCount(|With(p, Pass)|, |With(p, Gap)|, |p|)) <= Rank(ByCount(|With(g, Pass)|, |With(g, Gap)|, |g|))
  {
    var p, g := CheckResult(Pass, w), CheckResult(Gap, w);
    hide Filter, Is, IsNot, ByCount;
    WithCons(p, scoring, Pass);
    WithCons(g, scoring, Pass);
    WithCons(p, scoring, Gap);
    WithCons(g, scoring, Gap);
    CountGrows(|With(scoring, Pass)|, |With(scoring, Gap)| + 1, |scoring| + 1);
  }

  /** Turning a gap into a pass never moves the control to a worse status. */
  lemma ClosingAGapNeverWorsens(agg: Aggregate, results: seq<CheckResult>, i: nat, cfg: WeightCfg)
    requires PositiveWeights(results) && ValidCfg(cfg)
    requires i < |results| && results[i].status == Gap
    ensures Rank(AggregateStatus(agg, results[i := results[i].(status := Pass)], cfg))
         <= Rank(AggregateStatus(agg, results, cfg))
  {
    var closed := results[i := results[i].(status := Pass)];
    var w, rest := results[i].weight, results[..i] + results[i + 1..];
    RestPositive(results, i);
    hide *;
    assert closed[..i] + closed[i + 1..] == rest;
    ToFront(results, i);
    ToFront(closed, i);
    AggregatePermutes(agg, results, [CheckResult(Gap, w)] + rest, cfg);
    AggregatePermutes(agg, closed, [CheckResult(Pass, w)] + rest, cfg);
    ClosingFirstGap(agg, w, rest, cfg);
  }

  // ----- settling an indeterminate check

  /** Passing weight, indeterminate weight and observable weight. */
  function Earned(results: seq<CheckResult>): real { Sum(With(Without(results, NotApplicable), Pass)) }

  function Indeterminate(results: seq<CheckResult>): real { Sum(With(Without(results, NotApplicable), Unknown)) }

  function Observable(results: seq<CheckResult>): real { Sum(Without(Without(results, NotApplicable), Unknown)) }

  /** Too much of the weight is indeterminate for a ratio to mean anything. */
  predicate Vetoed(unknown: real, observable: real, cfg: WeightCfg) {
    var total := observable + unknown;
    total <= EPSILON || unknown / total > cfg.maxUnknownShare
  }

  /** Making `w` of the indeterminate weight pass brings the share under the
    * threshold, where the ratio is that of a gap.
    */
  predicate UnveilsAGap(earned: real, unknown: real, observable: real, w: real, cfg: WeightCfg) {
    var total := observable + unknown;
    && total > EPSILON && observable + w > 0.0
    && (unknown - w) / total <= cfg.maxUnknownShare < unknown / total
    && (earned + w) / (observable + w) < cfg.gapBelow
  }

  lemma WeightsPermute(xs: seq<CheckResult>, ys: seq<CheckResult>)
    requires multiset(xs) == multiset(ys)
    ensures Earned(xs) == Earned(ys) && Indeterminate(xs) == Indeterminate(ys) && Observable(xs) == Observable(ys)
    ensures With(xs, Error) == [] <==> With(ys, Error) == []
  {
    hide Filter, Is, IsNot, Sum;
    FilterPermutes(xs, ys, Is(Error));
    FilterPermutes(xs, ys, IsNot(NotApplicable));
    var a, b := Without(xs, NotApplicable), Without(ys, NotApplicable);
    FilterPermutes(a, b, Is(Pass));
    FilterPermutes(a, b, Is(Unknown));
    FilterPermutes(a, b, IsNot(Unknown));
    SumPermutes(With(a, Pass), With(b, Pass));
    SumPermutes(With(a, Unknown), With(b, Unknown));
    SumPermutes(Without(a, Unknown), Without(b, Unknown));
  }

  lemma FrontWeights(s: ControlStatus, w: real, rest: seq<CheckResult>)
    requires s == Pass || s == Unknown
    ensures var all := [CheckResult(s, w)] + rest;
            && Earned(all) == Earned(rest) + (if s == Pass then w else 0.0)
            && Indeterminate(all) == Indeterminate(rest) + (if s == Unknown then w else 0.0)
            && Observable(all) == Observable(rest) + (if s == Unknown then 0.0 else w)
            && (With(all, Error) == [] <==> With(rest, Error) == [])
            && Without(all, NotApplicable) == [CheckResult(s, w)] + Without(rest, NotApplicable)
  {
    var r := CheckResult(s, w);
    hide Filter, Is, IsNot, Sum;
    WithCons(r, rest, NotApplicable);
    WithCons(r, rest, Error);
    SumsCons(r, Without(rest, NotApplicable), Pass);
    SumsCons(r, Without(rest, NotApplicable), Unknown);
    assert [] + With(rest, Error) == With(rest, Error);
  }

  lemma WeightsBounded(rest: seq<CheckResult>)
    requires PositiveWeights(rest)
    ensures 0.0 <= Earned(rest) <= Observable(rest) && 0.0 <= Indeterminate(rest)
  {
    var scoring := Without(rest, NotApplicable);
    FilterPositive(rest, IsNot(NotApplicable));
    FilterPositive(scoring, Is(Pass));
    FilterPositive(scoring, Is(Unknown));
    hide Filter, Is, IsNot, Sum, PositiveWeights;
    SumOfPositive(With(scoring, Pass));
    SumOfPositive(With(scoring, Unknown));
    PassIsObservable(scoring);
  }

  lemma {:induction false} PassIsObservable(scoring: seq<CheckResult>)
    requires PositiveWeights(scoring)
    ensures Sum(With(scoring, Pass)) <= Sum(Without(scoring, Unknown))
  {
    if scoring == [] {
      assert With(scoring, Pass) == [] && Without(scoring, Unknown) == [];
    } else {
      var r, rest := scoring[0], scoring[1..];
      assert forall i :: 0 <= i < |rest| ==> rest[i] == scoring[i + 1];
      assert r.weight > 0.0 && scoring == [r] + rest;
      PassIsObservable(rest);
      hide Sum, Filter, Is, IsNot;
      SumsCons(r, rest, Pass);
      SumsCons(r, rest, Unknown);
    }
  }

  lemma VetoedStatus(earned: real, unknown: real, observable: real, cfg: WeightCfg)
    ensures ByWeight(earned, unknown, observable, cfg)
         == if Vetoed(unknown, observable, cfg) then Unknown else ByRatio(earned, observable, cfg)
  {
  }

  /** Both weights of a fraction grow alike: it does not shrink. */
  lemma RatioTowardsOne(e: real, o: real, w: real)
    requires 0.0 <= e <= o && o > 0.0 && w > 0.0
    ensures e / o <= (e + w) / (o + w)
  {
    var x := e / o;
    assert x * o == e;
    assert x <= 1.0 by {
      DivideGrows(e, o, o);
    }
    assert x * (o + w) <= e + w;
    DivideGrows(x * (o + w), e + w, o + w);
    assert x * (o + w) / (o + w) == x;
  }

  lemma ShareShrinks(u: real, total: real, w: real)
    requires total > 0.0 && w > 0.0
    ensures (u - w) / total <= u / total
  {
    DivideGrows(u - w, u, total);
  }

  /** The weighted rule on the sums: settling weight `w` as a pass. */
  lemma SettlingSums(e: real, u: real, o: real, w: real, cfg: WeightCfg)
    requires ValidCfg(cfg) && 0.0 <= e <= o && u >= w > 0.0
    ensures Rank(ByWeight(e + w, u - w, o + w, cfg)) > Rank(ByWeight(e, u, o, cfg))
       <==> UnveilsAGap(e, u, o, w, cfg)
  {
    VetoedStatus(e, u, o, cfg);
    VetoedStatus(e + w, u - w, o + w, cfg);
    assert o + w + (u - w) == o + u;
    if o + u > EPSILON {
      ShareShrinks(u, o + u, w);
      VetoMeans(u, o, w, cfg);
    }
    if o > 0.0 {
      RatioTowardsOne(e, o, w);
    } else {
      assert e == 0.0 && (e + w) / (o + w) == 1.0;
    }
    hide ByWeight, Vetoed;
  }

  /** Under the weighted rule, turning an Unknown check into Pass makes the control
    * worse exactly when it lifts the veto on a ratio that is a gap.
    */
  lemma SettlingWorsensExactlyWhen(results: seq<CheckResult>, i: nat, cfg: WeightCfg)
    requires PositiveWeights(results) && ValidCfg(cfg)
    requires i < |results| && results[i].status == Unknown
    ensures Rank(AggregateStatus(Weighted, results[i := results[i].(status := Pass)], cfg))
          > Rank(AggregateStatus(Weighted, results, cfg))
       <==> && With(results, Error) == []
            && UnveilsAGap(Earned(results), Indeterminate(results), Observable(results), results[i].weight, cfg)
  {
    var settled := results[i := results[i].(status := Pass)];
    var w, rest := results[i].weight, results[..i] + results[i + 1..];
    RestPositive(results, i);
    hide *;
    assert settled[..i] + settled[i + 1..] == rest;
    ToFront(results, i);
    ToFront(settled, i);
    var before, after := [CheckResult(Unknown, w)] + rest, [CheckResult(Pass, w)] + rest;
    AggregatePermutes(Weighted, results, before, cfg);
    AggregatePermutes(Weighted, settled, after, cfg);
    WeightsPermute(results, before);
    SettlingFront(w, rest, cfg);
  }

  lemma RestPositive(results: seq<CheckResult>, i: nat)
    requires i < |results| && PositiveWeights(results)
    ensures PositiveWeights(results[..i] + results[i + 1..]) && results[i].weight > 0.0
  {
  }

  lemma SettlingFront(w: real, rest: seq<CheckResult>, cfg: WeightCfg)
    requires PositiveWeights(rest) && ValidCfg(cfg) && w > 0.0
    ensures var before, after := [CheckResult(Unknown, w)] + rest, [CheckResult(Pass, w)] + rest;
            (Rank(AggregateStatus(Weighted, after, cfg)) > Rank(AggregateStatus(Weighted, before, cfg))
             <==> With(before, Error) == []
                  && UnveilsAGap(Earned(before), Indeterminate(before), Observable(before), w, cfg))
  {
    var before, after := [CheckResult(Unknown, w)] + rest, [CheckResult(Pass, w)] + rest;
    var e, u, o := Earned(before), Indeterminate(before), Observable(before);
    hide PositiveWeights, ValidCfg, Rank, Earned, Indeterminate, Observable, AggregateStatus, UnveilsAGap, ByWeight, Without, With;
    FrontWeights(Unknown, w, rest);
    FrontWeights(Pass, w, rest);
    WeightsBounded(rest);
    SettlingSums(e, u, o, w, cfg);
    WeightedStatusOf(before, cfg);
    WeightedStatusOf(after, cfg);
    assert Earned(after) == e + w && Indeterminate(after) == u - w && Observable(after) == o + w;
  }

  lemma VetoMeans(u: real, o: real, w: real, cfg: WeightCfg)
    requires o + u > EPSILON
    ensures Vetoed(u, o, cfg) <==> u / (o + u) > cfg.maxUnknownShare
    ensures Vetoed(u - w, o + w, cfg) <==> (u - w) / (o + u) > cfg.maxUnknownShare
  {
    assert o + w + (u - w) == o + u;
  }

  lemma WeightedStatusOf(results: seq<CheckResult>, cfg: WeightCfg)
    requires Without(results, NotApplicable) != []
    ensures AggregateStatus(Weighted, results, cfg)
         == if With(results, Error) != [] then Error
            else ByWeight(Earned(results), Indeterminate(results), Observable(results), cfg)
  {
    hide Sum, With, Without, ByWeight;
  }

  /** Under the other three rules it never does. */
  lemma SettlingNeverWorsens(agg: Aggregate, results: seq<CheckResult>, i: nat, cfg: WeightCfg)
    requires agg != Weighted && i < |results| && results[i].status == Unknown
    ensures Rank(AggregateStatus(agg, results[i := results[i].(status := Pass)], cfg))
         <= Rank(AggregateStatus(agg, results, cfg))
  {
    var settled := results[i := results[i].(status := Pass)];
    var w, rest := results[i].weight, results[..i] + results[i + 1..];
    assert settled[..i] + settled[i + 1..] == rest;
    ToFront(results, i);
    ToFront(settled, i);
    hide *;
    AggregatePermutes(agg, results, [CheckResult(Unknown, w)] + rest, cfg);
    AggregatePermutes(agg, settled, [CheckResult(Pass, w)] + rest, cfg);
    SettlingFirst(agg, w, rest, cfg);
  }

  lemma SettlingFirst(agg: Aggregate, w: real, rest: seq<CheckResult>, cfg: WeightCfg)
    requires agg != Weighted
    ensures Rank(AggregateStatus(agg, [CheckResult(Pass, w)] + rest, cfg))
         <= Rank(AggregateStatus(agg, [CheckResult(Unknown, w)] + rest, cfg))
  {
    var p, u := CheckResult(Pass, w), CheckResult(Unknown, w);
    var scoring := Without(rest, NotApplicable);
    hide Filter, Is, IsNot, Worst, ByCount;
    WithCons(p, rest, NotApplicable);
    WithCons(u, rest, NotApplicable);
    WithCons(p, rest, Error);
    WithCons(u, rest, Error);
    assert [] + With(rest, Error) == With(rest, Error);
    hide Without;
    match agg
    case All =>
      WorstOfCons(p, scoring);
      WorstOfCons(u, scoring);
    case Any =>
      WithCons(p, scoring, Pass);
    case Majority =>
      SettlingCounted(w, scoring);
  }

  lemma SettlingCounted(w: real, scoring: seq<CheckResult>)
    ensures var p, u := [CheckResult(Pass, w)] + scoring, [CheckResult(Unknown, w)] + scoring;
            Rank(ByCount(|With(p, Pass)|, |With(p, Gap)|, |p|)) <= Rank(ByCount(|With(u, Pass)|, |With(u, Gap)|, |u|))
  {
    var p, u := CheckResult(Pass, w), CheckResult(Unknown, w);
    hide Filter, Is, IsNot, ByCount;
    WithCons(p, scoring, Pass);
    WithCons(u, scoring, Pass);
    WithCons(p, scoring, Gap);
    WithCons(u, scoring, Gap);
    OnePassMore(|With(scoring, Pass)|, |With(scoring, Gap)|, |scoring| + 1);
  }

  lemma OnePassMore(passes: nat, gaps: nat, n: nat)
    ensures Rank(ByCount(passes + 1, gaps, n)) <= Rank(ByCount(passes, gaps, n))
  {
  }

  /** With the default thresholds, a gap of weight 3 beside indeterminate checks of
    * weights 1 and 3 is Unknown; settling the lighter one as a pass makes it Gap.
    */
  lemma SettlingCanWorsen()
    ensures var cfg := WeightCfg(0.75, 0.4, 0.5);
            var rest := [CheckResult(Gap, 3.0), CheckResult(Unknown, 3.0)];
            && AggregateStatus(Weighted, [CheckResult(Unknown, 1.0)] + rest, cfg) == Unknown
            && AggregateStatus(Weighted, [CheckResult(Pass, 1.0)] + rest, cfg) == Gap
  {
    var cfg := WeightCfg(0.75, 0.4, 0.5);
    var rest := [CheckResult(Gap, 3.0), CheckResult(Unknown, 3.0)];
    RestWeights(rest);
    hide *;
    FrontStatus(Unknown, 1.0, rest, cfg);
    FrontStatus(Pass, 1.0, rest, cfg);
    DefaultVeto(cfg);
  }

  lemma FrontStatus(s: ControlStatus, w: real, rest: seq<CheckResult>, cfg: WeightCfg)
    requires (s == Pass || s == Unknown) && With(rest, Error) == []
    ensures AggregateStatus(Weighted, [CheckResult(s, w)] + rest, cfg)
         == ByWeight(Earned(rest) + (if s == Pass then w else 0.0), Indeterminate(rest) + (if s == Unknown then w else 0.0),
                     Observable(rest) + (if s == Unknown then 0.0 else w), cfg)
  {
    hide *;
    FrontWeights(s, w, rest);
    WeightedStatusOf([CheckResult(s, w)] + rest, cfg);
  }

  lemma RestWeights(rest: seq<CheckResult>)
    requires rest == [CheckResult(Gap, 3.0), CheckResult(Unknown, 3.0)]
    ensures Earned(rest) == 0.0 && Indeterminate(rest) == 3.0 && Observable(rest) == 3.0 && With(rest, Error) == []
  {
    var g, u := CheckResult(Gap, 3.0), CheckResult(Unknown, 3.0);
    assert rest == [g] + [u];
    OneFiltered(u, NotApplicable);
    OneFiltered(u, Error);
    WithCons(g, [u], NotApplicable);
    WithCons(g, [u], Error);
    OneFiltered(u, Pass);
    OneFiltered(u, Unknown);
    SumSmall(u);
    hide Filter, Is, IsNot, Sum, With, Without;
    SumsCons(g, [u], Pass);
    SumsCons(g, [u], Unknown);
  }

  lemma DefaultVeto(cfg: WeightCfg)
    requires cfg == WeightCfg(0.75, 0.4, 0.5)
    ensures ByWeight(0.0, 4.0, 3.0, cfg) == Unknown && ByWeight(1.0, 3.0, 4.0, cfg) == Gap
  {
  }
}
