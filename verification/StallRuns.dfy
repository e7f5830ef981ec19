/** Whole runs of the stall detector. */
module StallRuns {
  import opened Basics
  import opened Stall

  datatype Event =
    | Observe(action: int, changed: bool, repeatLimit: nat, noProgressLimit: nat)
    | Note
    | Reset

  function Last(es: seq<Event>): Event
    requires es != []
  {
    es[|es| - 1]
  }

  function Init(es: seq<Event>): seq<Event>
    requires es != []
  {
    es[..|es| - 1]
  }

  /** A note waits for the next turn; a turn or a reset drops it. */
  predicate NotePending(es: seq<Event>) {
    es != [] && Last(es).Note?
  }

  function TurnOf(before: seq<Event>, e: Event): Turn
    requires e.Observe?
  {
    Turn(e.action, e.changed, NotePending(before))
  }

  /** The turns since the last reset. */
  function TurnsOf(es: seq<Event>): (h: seq<Turn>)
    ensures es != [] && Last(es).Observe? ==> h != []
  {
    if es == [] then []
    else
      match Last(es)
      case Observe(_, _, _, _) => TurnsOf(Init(es)) + [TurnOf(Init(es), Last(es))]
      case Note => TurnsOf(Init(es))
      case Reset => []
  }

  /** The verdict on the turn that ends a run. */
  function VerdictAt(es: seq<Event>): Progress
    requires es != [] && Last(es).Observe?
  {
    Verdict(TurnsOf(es), Last(es).repeatLimit, Last(es).noProgressLimit)
  }

  function Verdicts(es: seq<Event>): seq<Progress> {
    if es == [] then []
    else if Last(es).Observe? then Verdicts(Init(es)) + [VerdictAt(es)]
    else Verdicts(Init(es))
  }

  /** A new detector, driven through a run, gives the verdicts of its history. */
  method Replay(events: seq<Event>) returns (verdicts: seq<Progress>)
    ensures verdicts == Verdicts(events)
  {
    hide Verdict;
    var d := new StallDetector();
    verdicts := [];
    for i := 0 to |events|
      invariant fresh(d) && d.Valid()
      invariant d.turns == TurnsOf(events[..i]) && d.unchangedFailure == NotePending(events[..i])
      invariant verdicts == Verdicts(events[..i])
    {
      assert Init(events[..i + 1]) == events[..i] && Last(events[..i + 1]) == events[i];
      match events[i] {
        case Observe(action, changed, repeatLimit, noProgressLimit) =>
          var p := d.Observe(action, changed, repeatLimit, noProgressLimit);
          verdicts := verdicts + [p];
        case Note =>
          d.NoteUnchangedFailure();
        case Reset =>
          d.Reset();
      }
    }
    assert events[..|events|] == events;
  }

  // ----- single turns

  /** A turn that changed something is no stall, however often its action recurs. */
  lemma RealWorkIsHealthy(h: seq<Turn>, repeatLimit: nat, noProgressLimit: nat)
    requires h != [] && Real(h[|h| - 1]) && repeatLimit >= 2 && noProgressLimit >= 1
    ensures Verdict(h, repeatLimit, noProgressLimit) == Healthy
  {
    VerdictByCounts(h, repeatLimit, noProgressLimit);
  }

  /** Trying something new is not being stuck. */
  lemma InvestigationIsNotStuck(h: seq<Turn>, repeatLimit: nat, noProgressLimit: nat)
    requires h != [] && noProgressLimit >= 1
    requires !h[|h| - 1].noted && !Recent(h[..|h| - 1], h[|h| - 1].action)
    ensures Verdict(h, repeatLimit, noProgressLimit) != Stuck
  {
    hide Recent;
    VerdictByCounts(h, repeatLimit, noProgressLimit);
  }

  // ----- no agent idles undetected

  function Actions(es: seq<Event>): set<int> {
    if es == [] then {}
    else if Last(es).Observe? then Actions(Init(es)) + {Last(es).action}
    else Actions(Init(es))
  }

  function Observed(es: seq<Event>): nat {
    if es == [] then 0
    else if Last(es).Observe? then Observed(Init(es)) + 1
    else Observed(Init(es))
  }

  datatype Limits = Limits(repeats: nat, noProgress: nat)

  /** No reset, and a turn without real work, judged with these limits or stricter
    * ones.
    */
  predicate IdleAt(before: seq<Event>, window: seq<Event>, i: nat, limits: Limits)
    requires i < |window|
  {
    match window[i]
    case Observe(action, changed, repeatLimit, noProgressLimit) =>
      && repeatLimit <= limits.repeats && noProgressLimit <= limits.noProgress
      && (!changed || NotePending(before + window[..i]))
    case Note => true
    case Reset => false
  }

  predicate IdleWindow(before: seq<Event>, window: seq<Event>, limits: Limits) {
    forall i :: 0 <= i < |window| ==> IdleAt(before, window, i, limits)
  }

  /** The turn at `i` of the window is reported. */
  predicate Detected(before: seq<Event>, window: seq<Event>, i: nat)
    requires i < |window|
  {
    && window[i].Observe?
    && (assert Last(before + window[..i + 1]) == window[i];
        VerdictAt(before + window[..i + 1]) != Healthy)
  }

  predicate Undetected(before: seq<Event>, window: seq<Event>) {
    forall i :: 0 <= i < |window| ==> !Detected(before, window, i)
  }

  lemma SameInInit(before: seq<Event>, window: seq<Event>, i: nat, limits: Limits)
    requires i + 1 < |window|
    ensures IdleAt(before, Init(window), i, limits) == IdleAt(before, window, i, limits)
    ensures Detected(before, Init(window), i) == Detected(before, window, i)
  {
    hide NotePending, VerdictAt;
    assert Init(window)[..i] == window[..i] && Init(window)[..i + 1] == window[..i + 1];
  }

  lemma WindowInit(before: seq<Event>, window: seq<Event>, limits: Limits)
    requires window != []
    ensures IdleWindow(before, window, limits) && Undetected(before, window)
       <==> && IdleWindow(before, Init(window), limits) && Undetected(before, Init(window))
            && IdleAt(before, window, |window| - 1, limits) && !Detected(before, window, |window| - 1)
  {
    hide IdleAt, Detected;
    forall i | 0 <= i < |window| - 1
      ensures IdleAt(before, Init(window), i, limits) == IdleAt(before, window, i, limits)
      ensures Detected(before, Init(window), i) == Detected(before, window, i)
    {
      SameInInit(before, window, i, limits);
    }
  }

  // ----- the longest window that nobody is told about

  /** How many turns without real work over `k` actions can pass unreported. */
  function MostUnseen(k: nat, limits: Limits): nat {
    if k == 0 || limits.repeats < 2 then 0
    else (k - 1) * limits.noProgress + FirstUnseen(limits)
  }

  /** Over one action: the repeats are counted as well. */
  function FirstUnseen(limits: Limits): nat {
    Min(limits.noProgress, SaturatingSub(limits.repeats, 1))
  }

  /** The state a window leaves: every action tried is recent, the last turn's is one
    * of them, and the turns so far are paid for by the actions tried and the
    * current run.
    */
  predicate PaidFor(before: seq<Event>, window: seq<Event>, limits: Limits) {
    var h := TurnsOf(before + window);
    && (forall a :: a in Actions(window) ==> Recent(h, a))
    && (Observed(window) == 0 ==> Actions(window) == {})
    && (Observed(window) > 0 ==> Paid(h, Actions(window), Observed(window), limits))
  }

  predicate Paid(h: seq<Turn>, actions: set<int>, n: nat, limits: Limits) {
    && h != [] && h[|h| - 1].action in actions
    && IdleRun(h) < limits.noProgress && Streak(h) < limits.repeats
    && n <= if |actions| == 1 then Min(Streak(h), 1 + IdleRun(h))
            else FirstUnseen(limits) + (|actions| - 2) * limits.noProgress + 1 + IdleRun(h)
  }

  lemma AddAction(actions: set<int>, a: int)
    ensures |actions + {a}| == if a in actions then |actions| else |actions| + 1
  {
    if a in actions {
      assert actions + {a} == actions;
    }
  }

  lemma HealthyMeans(h: seq<Turn>, repeatLimit: nat, noProgressLimit: nat)
    requires h != [] && Verdict(h, repeatLimit, noProgressLimit) == Healthy
    ensures !h[|h| - 1].noted && IdleRun(h) < noProgressLimit && Streak(h) < repeatLimit
  {
    hide Idle, Loops;
    VerdictByCounts(h, repeatLimit, noProgressLimit);
  }

  lemma StreakStep(h: seq<Turn>, t: Turn)
    ensures Streak(h + [t]) == if h != [] && h[|h| - 1].action == t.action && !Real(t) then Streak(h) + 1 else 1
  {
    assert (h + [t])[..|h|] == h;
  }

  /** One more distinct action pays for a whole limit of turns. */
  lemma PaidForNewAction(h: seq<Turn>, actions: set<int>, n: nat, limits: Limits)
    requires Paid(h, actions, n, limits)
    ensures |actions| > 0
    ensures n <= FirstUnseen(limits) + (|actions| - 1) * limits.noProgress
  {
    var d, limit := |actions|, limits.noProgress;
    assert d != 0;
    if d > 1 {
      assert (d - 1) * limit == (d - 2) * limit + limit;
    }
  }

  lemma OnlyOne(actions: set<int>, a: int, b: int)
    requires |actions| == 1 && a in actions && b in actions
    ensures a == b
  {
    var others := actions - {a};
    assert actions == others + {a} && |others| == 0;
    assert others == {};
  }

  lemma PaidTurn(h: seq<Turn>, t: Turn, actions: set<int>, n: nat, limits: Limits)
    requires forall a :: a in actions ==> Recent(h, a)
    requires n > 0 ==> Paid(h, actions, n, limits)
    requires n == 0 ==> actions == {}
    requires !Real(t) && !t.noted && IdleRun(h + [t]) < limits.noProgress && Streak(h + [t]) < limits.repeats
    ensures Paid(h + [t], actions + {t.action}, n + 1, limits)
  {
    hide Recent, IdleRun, Streak;
    IdleStep(h, t);
    StreakStep(h, t);
    AddAction(actions, t.action);
    assert (h + [t])[|h|] == t && t.action in actions + {t.action};
    if n > 0 {
      PaidForNewAction(h, actions, n, limits);
      if t.action in actions && |actions| == 1 {
        OnlyOne(actions, t.action, h[|h| - 1].action);
      }
    }
  }

  lemma StillRecent(h: seq<Turn>, t: Turn, actions: set<int>)
    requires !Real(t) && forall a :: a in actions ==> Recent(h, a)
    ensures forall a :: a in actions + {t.action} ==> Recent(h + [t], a)
  {
    hide Recent;
    forall a | a in actions + {t.action} ensures Recent(h + [t], a) {
      RecentStep(h, t, a);
    }
  }

  lemma LastOfWindow(before: seq<Event>, window: seq<Event>)
    requires window != []
    ensures var es := before + window;
            es != [] && Init(es) == before + Init(window) && Last(es) == Last(window)
    ensures window[..|window|] == window && window[..|window| - 1] == Init(window)
  {
    assert before + window != [];
    assert Init(before + window) == before + Init(window);
  }

  lemma PaidForObserve(before: seq<Event>, window: seq<Event>, limits: Limits)
    requires window != [] && Last(window).Observe? && PaidFor(before, Init(window), limits)
    requires IdleAt(before, window, |window| - 1, limits) && !Detected(before, window, |window| - 1)
    ensures PaidFor(before, window, limits)
  {
    var es := before + window;
    LastOfWindow(before, window);
    var h, t := TurnsOf(Init(es)), TurnOf(Init(es), Last(es));
    assert TurnsOf(es) == h + [t] && VerdictAt(es) == Healthy && !Real(t);
    var actions, n := Actions(Init(window)), Observed(Init(window));
    assert Actions(window) == actions + {t.action} && Observed(window) == n + 1;
    hide *;
    HealthyMeans(h + [t], Last(es).repeatLimit, Last(es).noProgressLimit);
    PaidTurn(h, t, actions, n, limits);
    StillRecent(h, t, actions);
  }

  lemma {:induction false} UndetectedIsPaidFor(before: seq<Event>, window: seq<Event>, limits: Limits)
    requires IdleWindow(before, window, limits) && Undetected(before, window)
    ensures PaidFor(before, window, limits)
  {
    hide Detected, IdleRun, Recent, Streak, Paid;
    if window != [] {
      WindowInit(before, window, limits);
      UndetectedIsPaidFor(before, Init(window), limits);
      LastOfWindow(before, window);
      if Last(window).Observe? {
        PaidForObserve(before, window, limits);
      } else {
        assert TurnsOf(before + window) == TurnsOf(before + Init(window));
      }
    }
  }

  lemma UndetectedBound(before: seq<Event>, window: seq<Event>, limits: Limits)
    requires IdleWindow(before, window, limits) && Undetected(before, window)
    ensures Observed(window) <= MostUnseen(|Actions(window)|, limits)
  {
    UndetectedIsPaidFor(before, window, limits);
    hide Detected, IdleRun, Recent, IdleWindow, Undetected;
    if Observed(window) > 0 {
      PaidForNewAction(TurnsOf(before + window), Actions(window), Observed(window), limits);
    }
  }

  /** From any state the detector can reach: more turns without real work than that,
    * with actions from `k` distinct values, contain a report.
    */
  lemma NoAgentIdlesUndetected(before: seq<Event>, window: seq<Event>, k: nat, limits: Limits)
    requires IdleWindow(before, window, limits)
    requires |Actions(window)| <= k && Observed(window) > MostUnseen(k, limits)
    ensures exists i :: 0 <= i < |window| && Detected(before, window, i)
  {
    hide Detected, IdleWindow, Recent;
    if Undetected(before, window) {
      UndetectedBound(before, window, limits);
      MoreActionsMore(|Actions(window)|, k, limits);
    }
  }

  lemma MoreActionsMore(d: nat, k: nat, limits: Limits)
    requires d <= k
    ensures MostUnseen(d, limits) <= MostUnseen(k, limits)
  {
    if d > 0 {
      MulMonotone(d - 1, k - 1, limits.noProgress);
    }
  }

  lemma MulMonotone(d: nat, k: nat, limit: nat)
    requires d <= k
    ensures d * limit <= k * limit
  {
  }

  // ----- a window as long as that

  /** Action 0 as often as it goes; then `limit` turns for each new action, which take
    * turns with the action before it.
    */
  function ActionAt(j: nat, first: nat, limit: nat): nat
    requires limit > 0
  {
    if j < first then 0
    else (j - first) / limit + if (j - first) % limit % 2 == 0 then 1 else 0
  }

  function LongRun(n: nat, limits: Limits): seq<Event>
    requires limits.noProgress > 0
  {
    seq(n, j requires 0 <= j < n =>
      Observe(ActionAt(j, FirstUnseen(limits), limits.noProgress), false, limits.repeats, limits.noProgress))
  }

  lemma LongRunInit(n: nat, limits: Limits)
    requires limits.noProgress > 0 && n > 0
    ensures var es := LongRun(n, limits);
            && es != [] && Init(es) == LongRun(n - 1, limits)
            && Last(es) == Observe(ActionAt(n - 1, FirstUnseen(limits), limits.noProgress), false,
                                   limits.repeats, limits.noProgress)
  {
  }

  /** Counting up by one within, or into, a group of `limit`. */
  lemma NextInGroup(i: nat, limit: nat)
    requires limit > 0 && i > 0
    ensures if i / limit == (i - 1) / limit then i % limit == (i - 1) % limit + 1 else i % limit == 0
    ensures (i - 1) / limit <= i / limit <= (i - 1) / limit + 1
  {
    var q, r := (i - 1) / limit, (i - 1) % limit;
    assert i == limit * q + (r + 1);
    if r + 1 < limit {
      DivIs(i, limit, q, r + 1);
    } else {
      assert i == limit * (q + 1) + 0;
      DivIs(i, limit, q + 1, 0);
    }
  }

  lemma DivIs(i: nat, limit: nat, q: nat, r: nat)
    requires limit > 0 && i == limit * q + r && r < limit
    ensures i / limit == q && i % limit == r
  {
    if i / limit < q {
      MulMonotone(i / limit + 1, q, limit);
    } else if i / limit > q {
      MulMonotone(q + 1, i / limit, limit);
    }
  }

  /** What the detector has counted after the turn at `j`. */
  ghost predicate RunState(h: seq<Turn>, j: nat, first: nat, limit: nat)
    requires limit > 0
  {
    && h != [] && h[|h| - 1] == Turn(ActionAt(j, first, limit), false, false)
    && if j < first then
         Streak(h) == j + 1 && IdleRun(h) == j && forall a :: Recent(h, a) <==> a == 0
       else
         Streak(h) == 1 && IdleRun(h) == (j - first) % limit
         && forall a :: Recent(h, a) <==> 0 <= a <= (j - first) / limit + 1
  }

  /** A new action comes with each group; within a group no action comes twice in a
    * row.
    */
  lemma ActionsAlternate(j: nat, first: nat, limit: nat)
    requires limit > 0 && first > 0 && j >= first
    ensures ActionAt(j, first, limit) != ActionAt(j - 1, first, limit)
    ensures 0 <= ActionAt(j, first, limit) <= (j - first) / limit + 1
    ensures (j - first) % limit == 0 <==> j == first || (j - first) / limit == (j - 1 - first) / limit + 1
    ensures (j - first) % limit == 0 ==> ActionAt(j, first, limit) == (j - first) / limit + 1
    ensures (j - first) % limit > 0 ==>
              j > first && (j - first) / limit == (j - 1 - first) / limit && (j - first) % limit == (j - 1 - first) % limit + 1
  {
    if j > first {
      NextInGroup(j - first, limit);
    } else {
      DivIs(0, limit, 0, 0);
    }
  }

  lemma FirstTurn(first: nat, limit: nat)
    requires limit > 0 && first > 0
    ensures RunState([] + [Turn(0, false, false)], 0, first, limit)
  {
    var t := Turn(0, false, false);
    assert !Recent([], 0);
    IdleStep([], t);
    StreakStep([], t);
    forall a ensures Recent([] + [t], a) <==> a == 0 {
      RecentStep([], t, a);
    }
  }

  lemma NextTurn(h: seq<Turn>, j: nat, first: nat, limit: nat)
    requires limit > 0 && j > 0 && 0 < first <= limit && RunState(h, j - 1, first, limit)
    ensures RunState(h + [Turn(ActionAt(j, first, limit), false, false)], j, first, limit)
  {
    var t := Turn(ActionAt(j, first, limit), false, false);
    hide Recent, IdleRun, Streak;
    IdleStep(h, t);
    StreakStep(h, t);
    if j >= first {
      ActionsAlternate(j, first, limit);
    }
    hide ActionAt;
    RecentGrows(h, t);
  }

  lemma RecentGrows(h: seq<Turn>, t: Turn)
    requires !Real(t)
    ensures forall a :: Recent(h + [t], a) <==> t.action == a || Recent(h, a)
  {
    hide Recent;
    forall a ensures Recent(h + [t], a) <==> t.action == a || Recent(h, a) {
      RecentStep(h, t, a);
    }
  }

  lemma {:induction false} LongRunState(n: nat, limits: Limits)
    requires limits.noProgress > 0 && limits.repeats > 1 && n > 0
    ensures var es := LongRun(n, limits);
            RunState(TurnsOf(es), n - 1, FirstUnseen(limits), limits.noProgress) && !NotePending(es)
  {
    var es := LongRun(n, limits);
    LongRunInit(n, limits);
    if n == 1 {
      FirstTurn(FirstUnseen(limits), limits.noProgress);
      assert TurnsOf(Init(es)) == [];
    } else {
      LongRunState(n - 1, limits);
      hide RunState, LongRun;
      NextTurn(TurnsOf(Init(es)), n - 1, FirstUnseen(limits), limits.noProgress);
    }
  }

  lemma LongRunHealthy(h: seq<Turn>, j: nat, limits: Limits)
    requires limits.noProgress > 0 && limits.repeats > 1
    requires RunState(h, j, FirstUnseen(limits), limits.noProgress)
    ensures h != [] && Verdict(h, limits.repeats, limits.noProgress) == Healthy
  {
    hide Verdict, Recent, Streak, IdleRun;
    VerdictByCounts(h, limits.repeats, limits.noProgress);
  }

  /** None of its turns is reported, and they are all idle. */
  lemma {:induction false} LongRunUnseen(n: nat, limits: Limits)
    requires limits.noProgress > 0 && limits.repeats > 1
    ensures IdleWindow([], LongRun(n, limits), limits) && Undetected([], LongRun(n, limits))
    ensures Observed(LongRun(n, limits)) == n
  {
    var es := LongRun(n, limits);
    if n > 0 {
      LongRunInit(n, limits);
      LongRunUnseen(n - 1, limits);
      LongRunState(n, limits);
      assert [] + es == es && es[..|es|] == es;
      assert Observed(es) == Observed(Init(es)) + 1;
      hide LongRun, RunState, TurnsOf, Verdict, NotePending, IdleWindow, Undetected, Observed;
      LongRunHealthy(TurnsOf(es), n - 1, limits);
      assert [] + es[..|es| - 1 + 1] == es;
      WindowInit([], es, limits);
    }
  }

  function FirstNumbers(k: nat): (r: set<int>)
    ensures |r| == k && forall a :: a in r <==> 0 <= a < k
  {
    if k == 0 then {} else FirstNumbers(k - 1) + {k - 1}
  }

  lemma {:induction false} LongRunActions(n: nat, k: nat, limits: Limits)
    requires limits.noProgress > 0 && limits.repeats > 1 && n <= MostUnseen(k, limits)
    ensures Actions(LongRun(n, limits)) <= FirstNumbers(k)
  {
    if n > 0 {
      LongRunInit(n, limits);
      LongRunActions(n - 1, k, limits);
      hide LongRun;
      ActionBelow(n - 1, k, limits);
    }
  }

  lemma ActionBelow(j: nat, k: nat, limits: Limits)
    requires limits.noProgress > 0 && limits.repeats > 1 && j < MostUnseen(k, limits)
    ensures ActionAt(j, FirstUnseen(limits), limits.noProgress) < k
  {
    var first, limit := FirstUnseen(limits), limits.noProgress;
    if j >= first {
      ActionsAlternate(j, first, limit);
      hide ActionAt;
      GroupBelow(j - first, k - 1, limit);
    }
  }

  lemma GroupBelow(i: nat, k: nat, limit: nat)
    requires limit > 0 && i < k * limit
    ensures 0 <= i / limit < k
  {
    if i / limit >= k {
      MulMonotone(k, i / limit, limit);
    }
  }

  lemma FewerMembers(a: set<int>, b: set<int>)
    requires a <= b
    ensures |a| <= |b|
  {
    assert b == a + (b - a);
  }

  /** For all limits, as many turns without real work can pass unreported over `k`
    * actions.
    */
  lemma BoundIsReached(k: nat, limits: Limits) returns (window: seq<Event>)
    ensures IdleWindow([], window, limits) && Undetected([], window)
    ensures |Actions(window)| <= k && Observed(window) == MostUnseen(k, limits)
  {
    if limits.noProgress == 0 || limits.repeats < 2 {
      window := [];
    } else {
      var n := MostUnseen(k, limits);
      window := LongRun(n, limits);
      hide *;
      LongRunUnseen(n, limits);
      LongRunActions(n, k, limits);
      FewerMembers(Actions(window), FirstNumbers(k));
    }
  }
}
