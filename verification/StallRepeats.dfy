/** One action taken over and over, and a failure that stays the same: the verdicts in full. */
module StallRepeats {
  import opened Basics
  import opened Stall

  /** An action, and the same action `again` times more to no effect; the first may
    * have been real work.
    */
  function Repeating(action: int, worked: bool, again: nat): (h: seq<Turn>)
    ensures |h| == again + 1
    ensures h[0] == Turn(action, worked, false)
    ensures forall i :: 0 < i <= again ==> h[i] == Turn(action, false, false)
  {
    if again == 0 then [Turn(action, worked, false)] else Repeating(action, worked, again - 1) + [Turn(action, false, false)]
  }

  /** After real work the first repetition still looks around. */
  function IdleTurns(worked: bool, again: nat): nat {
    if worked then SaturatingSub(again, 1) else again
  }

  lemma StreakGrows(before: seq<Turn>, t: Turn)
    requires before != [] && before[|before| - 1].action == t.action && !Real(t)
    ensures Streak(before + [t]) == Streak(before) + 1
  {
    assert (before + [t])[..|before|] == before;
  }

  lemma {:induction false} RepeatingStreak(action: int, worked: bool, again: nat)
    ensures Streak(Repeating(action, worked, again)) == again + 1
  {
    if again > 0 {
      RepeatingStreak(action, worked, again - 1);
      hide Streak;
      StreakGrows(Repeating(action, worked, again - 1), Turn(action, false, false));
    }
  }

  lemma RepeatingIdle(action: int, worked: bool, again: nat)
    ensures Idle(Repeating(action, worked, again), again) <==> again > if worked then 1 else 0
  {
    var h := Repeating(action, worked, again);
    RecentRepeats(h[..again], action, worked);
    hide Recent, Repeating;
  }

  lemma RecentRepeats(before: seq<Turn>, action: int, worked: bool)
    requires before != [] ==> before[0] == Turn(action, worked, false)
    requires forall i :: 0 < i < |before| ==> before[i] == Turn(action, false, false)
    ensures Recent(before, action) <==> |before| > if worked then 1 else 0
  {
    if !worked && |before| > 0 {
      assert before[0].action == action;
    }
    if worked && |before| > 1 {
      assert before[1].action == action;
    }
    if worked && |before| == 1 {
      assert Real(before[0]);
    }
  }

  lemma {:induction false} RepeatingIdleRun(action: int, worked: bool, again: nat)
    ensures IdleRun(Repeating(action, worked, again)) == IdleTurns(worked, again)
  {
    var h := Repeating(action, worked, again);
    RepeatingIdle(action, worked, again);
    hide Idle;
    if again > 0 {
      assert h[..again] == Repeating(action, worked, again - 1);
      RepeatingIdleRun(action, worked, again - 1);
    }
  }

  /** The same action again and again is Looping from as many turns on as the repeat
    * limit says; before that it is Stuck once enough of the repetitions were idle.
    */
  lemma RepeatingExactly(action: int, worked: bool, again: nat, repeatLimit: nat, noProgressLimit: nat)
    ensures Verdict(Repeating(action, worked, again), repeatLimit, noProgressLimit)
         == if again + 1 >= repeatLimit then Looping
            else if IdleTurns(worked, again) >= noProgressLimit then Stuck
            else Healthy
  {
    var h := Repeating(action, worked, again);
    StreakIsLongest(h, repeatLimit);
    IdleRunIsLongest(h, noProgressLimit);
    RepeatingStreak(action, worked, again);
    RepeatingIdleRun(action, worked, again);
    hide Loops, Idles, Streak, IdleRun;
  }

  /** A turn whose change was judged ineffective is reported at once, as Stuck if it is
    * the first of its action, at limits of at least 2.
    */
  lemma NotedIsReported(h: seq<Turn>, t: Turn, repeatLimit: nat, noProgressLimit: nat)
    requires t.noted
    ensures Verdict(h + [t], repeatLimit, noProgressLimit) != Healthy
    ensures repeatLimit >= 2 && (h == [] || h[|h| - 1].action != t.action) ==>
              Verdict(h + [t], repeatLimit, noProgressLimit) == Stuck
  {
    hide Idles;
    var after := h + [t];
    assert h != [] ==> after[|h| - 1] == h[|h| - 1];
  }
}
