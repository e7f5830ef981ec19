/** Spotting an agent that repeats itself or thrashes: the detector's counters
  * against what they mean on the whole history of turns since the last reset.
  */
module Stall {
  import opened Basics


  /** One turn: the identity of the action, whether the workspace changed, and
    * whether the change had been judged ineffective.
    */
  datatype Turn = Turn(action: int, changed: bool, noted: bool)

  datatype Progress = Healthy | Looping | Stuck

  predicate Real(t: Turn) { t.changed && !t.noted }

  /** The action was taken since the last turn of real work. */
  predicate Recent(h: seq<Turn>, action: int) {
    exists j :: 0 <= j < |h| && h[j].action == action && forall k :: j <= k < |h| ==> !Real(h[k])
  }

  /** A turn that neither worked nor tried something new. */
  predicate Idle(h: seq<Turn>, i: nat)
    requires i < |h|
  {
    !Real(h[i]) && (h[i].noted || Recent(h[..i], h[i].action))
  }

  /** The last `n` turns share one action, and all but the first did no work. */
  predicate Loops(h: seq<Turn>, n: nat) {
    && n <= |h|
    && (forall i :: |h| - n <= i < |h| ==> h[i].action == h[|h| - 1].action)
    && (forall i :: |h| - n < i < |h| ==> !Real(h[i]))
  }

  /** The last `n` turns were idle. */
  predicate Idles(h: seq<Turn>, n: nat) {
    n <= |h| && forall i :: |h| - n <= i < |h| ==> Idle(h, i)
  }

  /** The verdict on the last turn of a history. */
  function Verdict(h: seq<Turn>, repeatLimit: nat, noProgressLimit: nat): Progress
    requires h != []
  {
    if Loops(h, repeatLimit) then Looping
    else if h[|h| - 1].noted || Idles(h, noProgressLimit) then Stuck
    else Healthy
  }

  // ----- the longest loop and the longest idle run that end a history

  function Streak(h: seq<Turn>): (n: nat)
    ensures h != [] ==> n > 0
  {
    if |h| <= 1 then |h|
    else
      var t, before := h[|h| - 1], h[..|h| - 1];
      if before[|h| - 2].action == t.action && !Real(t) then Streak(before) + 1 else 1
  }

  function IdleRun(h: seq<Turn>): nat {
    if h != [] && Idle(h, |h| - 1) then IdleRun(h[..|h| - 1]) + 1 else 0
  }

  lemma {:induction false} StreakIsLongest(h: seq<Turn>, n: nat)
    ensures Loops(h, n) <==> n <= Streak(h)
  {
    if |h| > 1 && n > 1 {
      var before := h[..|h| - 1];
      StreakIsLongest(before, n - 1);
      LoopsStep(h, n);
    }
  }

  lemma LoopsStep(h: seq<Turn>, n: nat)
    requires |h| > 1 && n > 1
    ensures Loops(h, n) <==> Loops(h[..|h| - 1], n - 1) && h[|h| - 2].action == h[|h| - 1].action && !Real(h[|h| - 1])
  {
    var before := h[..|h| - 1];
    if Loops(h, n) {
      assert h[|h| - 2].action == h[|h| - 1].action;
    }
    if Loops(before, n - 1) && h[|h| - 2].action == h[|h| - 1].action && !Real(h[|h| - 1]) {
      forall i | |h| - n <= i < |h| ensures h[i].action == h[|h| - 1].action {
        assert i < |h| - 1 ==> before[i] == h[i];
      }
      forall i | |h| - n < i < |h| ensures !Real(h[i]) {
        assert i < |h| - 1 ==> before[i] == h[i];
      }
    }
  }

  lemma IdleInPrefix(h: seq<Turn>, m: nat, i: nat)
    requires i < m <= |h|
    ensures Idle(h[..m], i) == Idle(h, i)
  {
    assert h[..m][..i] == h[..i];
  }

  lemma {:induction false} IdleRunIsLongest(h: seq<Turn>, n: nat)
    ensures Idles(h, n) <==> n <= IdleRun(h)
  {
    hide Idle;
    if h != [] && n > 0 {
      var before := h[..|h| - 1];
      IdleRunIsLongest(before, n - 1);
      forall i | 0 <= i < |before| ensures Idle(before, i) == Idle(h, i) {
        IdleInPrefix(h, |h| - 1, i);
      }
      if Idle(h, |h| - 1) && Idles(before, n - 1) {
        assert Idles(h, n);
      }
      if Idles(h, n) {
        assert Idles(before, n - 1);
      }
    }
  }

  /** The verdict by the two counts. */
  lemma VerdictByCounts(h: seq<Turn>, repeatLimit: nat, noProgressLimit: nat)
    requires h != []
    ensures Verdict(h, repeatLimit, noProgressLimit)
         == if repeatLimit <= Streak(h) then Looping
            else if h[|h| - 1].noted || noProgressLimit <= IdleRun(h) then Stuck
            else Healthy
  {
    StreakIsLongest(h, repeatLimit);
    IdleRunIsLongest(h, noProgressLimit);
  }

  lemma RecentStep(h: seq<Turn>, t: Turn, a: int)
    ensures Recent(h + [t], a) <==> !Real(t) && (t.action == a || Recent(h, a))
  {
    var after := h + [t];
    if Recent(after, a) {
      var j :| 0 <= j < |after| && after[j].action == a && forall k :: j <= k < |after| ==> !Real(after[k]);
      assert after[|h|] == t;
      if j < |h| {
        forall k | j <= k < |h| ensures !Real(h[k]) {
          assert after[k] == h[k];
        }
      }
    }
    if !Real(t) && t.action == a {
      assert after[|h|].action == a;
    } else if !Real(t) && Recent(h, a) {
      var j :| 0 <= j < |h| && h[j].action == a && forall k :: j <= k < |h| ==> !Real(h[k]);
      assert after[j].action == a;
      forall k | j <= k < |after| ensures !Real(after[k]) {
        assert k < |h| ==> after[k] == h[k];
      }
    }
  }

  // ----- the counters against the history

  predicate TracksRepeats(h: seq<Turn>, lastAction: Option<int>, repeatCount: nat) {
    if h == [] then lastAction == None && repeatCount == 0
    else lastAction == Some(h[|h| - 1].action) && repeatCount + 1 == Streak(h)
  }

  ghost predicate TracksIdling(h: seq<Turn>, noProgressCount: nat, seen: set<int>) {
    noProgressCount == IdleRun(h) && forall a :: a in seen <==> Recent(h, a)
  }

  lemma RepeatStep(h: seq<Turn>, t: Turn, lastAction: Option<int>, repeatCount: nat)
    requires TracksRepeats(h, lastAction, repeatCount)
    ensures TracksRepeats(h + [t], Some(t.action), if lastAction == Some(t.action) && !Real(t) then repeatCount + 1 else 0)
  {
    hide Real;
    assert (h + [t])[..|h|] == h;
  }

  lemma IdleStep(h: seq<Turn>, t: Turn)
    ensures IdleRun(h + [t]) == if !Real(t) && (t.noted || Recent(h, t.action)) then IdleRun(h) + 1 else 0
  {
    hide Real, Recent;
    assert (h + [t])[..|h|] == h;
  }

  lemma IdlingStep(h: seq<Turn>, t: Turn, noProgressCount: nat, seen: set<int>)
    requires TracksIdling(h, noProgressCount, seen)
    ensures Real(t) ==> TracksIdling(h + [t], 0, {})
    ensures !Real(t) ==>
              var count := if t.action !in seen && !t.noted then 0 else noProgressCount + 1;
              TracksIdling(h + [t], count, seen + {t.action})
  {
    hide Real, Recent, IdleRun;
    IdleStep(h, t);
    forall a ensures Recent(h + [t], a) <==> !Real(t) && (t.action == a || Recent(h, a)) {
      RecentStep(h, t, a);
    }
  }

  lemma VerdictOfCounts(h: seq<Turn>, lastAction: Option<int>, repeatCount: nat, noProgressCount: nat, seen: set<int>,
      repeatLimit: nat, noProgressLimit: nat)
    requires h != [] && TracksRepeats(h, lastAction, repeatCount) && TracksIdling(h, noProgressCount, seen)
    ensures Verdict(h, repeatLimit, noProgressLimit)
         == if repeatCount + 1 >= repeatLimit then Looping
            else if h[|h| - 1].noted || noProgressCount >= noProgressLimit then Stuck
            else Healthy
  {
    hide Verdict, Streak, IdleRun, Recent;
    VerdictByCounts(h, repeatLimit, noProgressLimit);
  }

  // ----- the detector

  class StallDetector {
    var lastAction: Option<int>
    var repeatCount: nat
    var noProgressCount: nat
    var seenSinceProgress: set<int>
    var unchangedFailure: bool
    /** The turns since the last reset. */
    ghost var turns: seq<Turn>

    ghost predicate Valid()
      reads this
    {
      TracksRepeats(turns, lastAction, repeatCount) && TracksIdling(turns, noProgressCount, seenSinceProgress)
    }

    constructor ()
      ensures Valid() && turns == [] && !unchangedFailure
    {
      lastAction, repeatCount, noProgressCount := None, 0, 0;
      seenSinceProgress, unchangedFailure, turns := {}, false, [];
    }

    method Observe(action: int, changedWorkspace: bool, repeatLimit: nat, noProgressLimit: nat)
      returns (p: Progress)
      requires Valid()
      modifies this
      ensures Valid() && !unchangedFailure
      ensures turns == old(turns) + [Turn(action, changedWorkspace, old(unchangedFailure))]
      ensures p == Verdict(turns, repeatLimit, noProgressLimit)
    {
      hide TracksRepeats, TracksIdling, Verdict;
      ghost var t := Turn(action, changedWorkspace, unchangedFailure);
      RepeatStep(turns, t, lastAction, repeatCount);
      IdlingStep(turns, t, noProgressCount, seenSinceProgress);
      var sameFailure := unchangedFailure;
      unchangedFailure := false;
      var didRealWork := changedWorkspace && !sameFailure;
      if lastAction == Some(action) && !didRealWork {
        repeatCount := repeatCount + 1;
      } else {
        repeatCount := 0;
        lastAction := Some(action);
      }
      if didRealWork {
        noProgressCount := 0;
        seenSinceProgress := {};
      } else {
        var inserted := action !in seenSinceProgress;
        seenSinceProgress := seenSinceProgress + {action};
        if inserted && !sameFailure {
          noProgressCount := 0;
        } else {
          noProgressCount := noProgressCount + 1;
        }
      }
      turns := turns + [t];
      VerdictOfCounts(turns, lastAction, repeatCount, noProgressCount, seenSinceProgress, repeatLimit, noProgressLimit);
      if repeatCount + 1 >= repeatLimit {
        p := Looping;
      } else if sameFailure || noProgressCount >= noProgressLimit {
        p := Stuck;
      } else {
        p := Healthy;
      }
    }

    method NoteUnchangedFailure()
      requires Valid()
      modifies this
      ensures Valid() && turns == old(turns) && unchangedFailure
    {
      unchangedFailure := true;
    }

    method Reset()
      modifies this
      ensures Valid() && turns == [] && !unchangedFailure
    {
      lastAction, repeatCount, noProgressCount := None, 0, 0;
      seenSinceProgress, unchangedFailure, turns := {}, false, [];
    }
  }
}
