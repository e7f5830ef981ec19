/** Counting tokens with a backend's tokenizer while it answers: a memo of its
  * answers, and the estimator for good once it declines.
  */
module TokenCounting {
  import opened Basics
  import opened NameLists
  import opened Tokens

  datatype Probe = Unprobed | Exact | Estimated

  const CACHE_CAPACITY: nat := 4096

  /** What the backend says when it is asked for the `i`-th time, about a text. */
  type Backend = (nat, string) -> Option<nat>

  /** Everything asked was answered, but for the last once estimating. */
  predicate AnsweredSoFar(ask: Backend, asked: seq<string>, state: Probe) {
    && (forall i :: 0 <= i < |asked| && ask(i, asked[i]).None? ==> i == |asked| - 1 && state == Estimated)
    && (state == Unprobed ==> asked == [])
    && (state == Exact ==> asked != [])
  }

  /** The memo holds only answers the backend gave. */
  ghost predicate MemoIsTrue(ask: Backend, asked: seq<string>, cache: map<string, nat>) {
    forall t :: t in cache ==> exists i :: 0 <= i < |asked| && asked[i] == t && ask(i, t) == Some(cache[t])
  }

  /** Until it has filled once, the memo forgets nothing and no text is asked
    * about twice.
    */
  predicate NothingForgotten(asked: seq<string>, cache: map<string, nat>, state: Probe) {
    |asked| <= CACHE_CAPACITY && state != Estimated ==>
      && NoDuplicates(asked) && |cache| == |asked|
      && (forall t :: t in asked ==> t in cache) && (forall t :: t in cache ==> t in asked)
  }

  /** The memo after one more answer: cleared first when it is full. */
  function Remembered(cache: map<string, nat>, text: string, n: nat): map<string, nat> {
    (if |cache| >= CACHE_CAPACITY then map[] else cache)[text := n]
  }

  lemma AnsweredStep(ask: Backend, asked: seq<string>, state: Probe, text: string)
    requires AnsweredSoFar(ask, asked, state) && state != Estimated
    ensures ask(|asked|, text).Some? ==> AnsweredSoFar(ask, asked + [text], Exact)
    ensures AnsweredSoFar(ask, asked + [text], Estimated)
  {
  }

  lemma MemoStep(ask: Backend, asked: seq<string>, cache: map<string, nat>, text: string)
    requires MemoIsTrue(ask, asked, cache)
    ensures MemoIsTrue(ask, asked + [text], cache)
    ensures ask(|asked|, text).Some? ==> MemoIsTrue(ask, asked + [text], Remembered(cache, text, ask(|asked|, text).value))
  {
    var more := asked + [text];
    forall t | t in cache ensures exists i :: 0 <= i < |more| && more[i] == t && ask(i, t) == Some(cache[t]) {
      var i :| 0 <= i < |asked| && asked[i] == t && ask(i, t) == Some(cache[t]);
      assert more[i] == t;
    }
    assert more[|asked|] == text;
  }

  lemma ForgettingStep(asked: seq<string>, cache: map<string, nat>, state: Probe, text: string, n: nat)
    requires NothingForgotten(asked, cache, state) && state != Estimated && text !in cache && |cache| <= CACHE_CAPACITY
    ensures NothingForgotten(asked + [text], Remembered(cache, text, n), Exact)
    ensures |Remembered(cache, text, n)| <= CACHE_CAPACITY
  {
    if |asked| < CACHE_CAPACITY {
      AddFresh(asked, text);
      assert cache[text := n].Keys == cache.Keys + {text};
    }
  }

  class TokenCounter {
    const backend: Option<Backend>
    /** How often the backend has been asked, as it would know. */
    var calls: nat
    var state: Probe
    var cache: map<string, nat>
    /** The texts the backend was asked about, in order. */
    ghost var asked: seq<string>

    ghost predicate Valid()
      reads this
    {
      && |cache| <= CACHE_CAPACITY && calls == |asked|
      && (backend.None? ==> state == Estimated && asked == [])
      && (backend.Some? ==>
            && AnsweredSoFar(backend.value, asked, state) && MemoIsTrue(backend.value, asked, cache)
            && NothingForgotten(asked, cache, state))
    }

    constructor (b: Backend)
      ensures Valid() && backend == Some(b) && state == Unprobed && cache == map[] && asked == []
    {
      backend, calls, state, cache, asked := Some(b), 0, Unprobed, map[], [];
    }

    constructor Estimator()
      ensures Valid() && backend == None && state == Estimated && asked == []
    {
      backend, calls, state, cache, asked := None, 0, Estimated, map[], [];
    }

    method Count(text: string) returns (n: nat)
      requires Valid()
      modifies this
      ensures Valid()
      ensures old(state) == Estimated ==>
                n == EstimateTokens(text) && state == Estimated && cache == old(cache) && asked == old(asked)
      ensures old(state) != Estimated && text in old(cache) ==>
                n == old(cache)[text] && state == old(state) && cache == old(cache) && asked == old(asked)
      ensures old(state) != Estimated && text !in old(cache) ==>
                && backend.Some? && asked == old(asked) + [text]
                && match backend.value(|old(asked)|, text)
                   case Some(answer) => n == answer && state == Exact
                                     && cache == Remembered(old(cache), text, answer)
                   case None => n == EstimateTokens(text) && state == Estimated && cache == old(cache)
    {
      hide AnsweredSoFar, MemoIsTrue, EstimateTokens;
      if backend.Some? {
        if state != Estimated {
          if text in cache {
            return cache[text];
          }
          AnsweredStep(backend.value, asked, state, text);
          MemoStep(backend.value, asked, cache, text);
          var answer := backend.value(calls, text);
          calls, asked := calls + 1, asked + [text];
          match answer {
            case Some(v) =>
              ForgettingStep(old(asked), cache, state, text, v);
              hide NothingForgotten;
              state := Exact;
              if |cache| >= CACHE_CAPACITY {
                cache := map[];
              }
              cache := cache[text := v];
              return v;
            case None =>
          }
          state := Estimated;
        }
      }
      n := EstimateTokens(text);
    }

    /** Whether counts come from the tokenizer; asks once if nothing did yet. */
    method IsExact() returns (b: bool)
      requires Valid()
      modifies this
      ensures Valid() && b == (state == Exact) && state != Unprobed
      ensures old(state) != Unprobed ==> state == old(state) && asked == old(asked) && cache == old(cache)
      ensures old(state) == Unprobed ==>
                && backend.Some? && asked == old(asked) + ["probe"] && old(asked) == []
                && (b <==> backend.value(|old(asked)|, "probe").Some?)
                && cache == (if b then map["probe" := backend.value(0, "probe").value] else map[])
    {
      if state == Unprobed {
        var n := Count("probe");
      }
      b := state == Exact;
    }
  }

  // ----- whole runs

  /** A tokenizer that gives each text one answer, when it answers at all. */
  ghost predicate Honest(ask: Backend, tokens: string -> nat) {
    forall i, t :: ask(i, t).Some? ==> ask(i, t).value == tokens(t)
  }

  /** Exact before `d`, estimated from `d` on. */
  predicate SwitchesAt(texts: seq<string>, counts: seq<nat>, tokens: string -> nat, d: nat) {
    && |counts| == |texts| && d <= |texts|
    && forall i :: 0 <= i < |texts| ==> counts[i] == if i < d then tokens(texts[i]) else EstimateTokens(texts[i])
  }

  lemma MemoAnswers(ask: Backend, tokens: string -> nat, asked: seq<string>, cache: map<string, nat>, t: string)
    requires Honest(ask, tokens) && MemoIsTrue(ask, asked, cache) && t in cache
    ensures cache[t] == tokens(t) && t in asked
  {
    var i :| 0 <= i < |asked| && asked[i] == t && ask(i, t) == Some(cache[t]);
  }

  /** The first `i` texts are counted, exactly before `d`; `asked` covers them. */
  predicate CountedTo(texts: seq<string>, i: nat, counts: seq<nat>, tokens: string -> nat, d: nat, asked: seq<string>) {
    && i <= |texts| && SwitchesAt(texts[..i], counts, tokens, d)
    && (forall j :: 0 <= j < d ==> texts[j] in asked)
    && (forall k :: 0 <= k < |asked| ==> asked[k] in texts)
  }

  lemma SwitchSnoc(texts: seq<string>, i: nat, counts: seq<nat>, tokens: string -> nat, d: nat, n: nat)
    requires i < |texts| && SwitchesAt(texts[..i], counts, tokens, d)
    ensures n == EstimateTokens(texts[i]) ==> SwitchesAt(texts[..i + 1], counts + [n], tokens, d)
    ensures d == i && n == tokens(texts[i]) ==> SwitchesAt(texts[..i + 1], counts + [n], tokens, i + 1)
  {
    hide EstimateTokens;
    assert forall j :: 0 <= j < i ==> texts[..i + 1][j] == texts[..i][j];
  }

  lemma CountNext(texts: seq<string>, i: nat, counts: seq<nat>, tokens: string -> nat, d: nat, asked: seq<string>,
      n: nat, asked': seq<string>)
    requires i < |texts| && CountedTo(texts, i, counts, tokens, d, asked)
    requires asked' == asked || asked' == asked + [texts[i]]
    ensures n == EstimateTokens(texts[i]) ==> CountedTo(texts, i + 1, counts + [n], tokens, d, asked')
    ensures d == i && n == tokens(texts[i]) && texts[i] in asked' ==>
              CountedTo(texts, i + 1, counts + [n], tokens, i + 1, asked')
  {
    SwitchSnoc(texts, i, counts, tokens, d, n);
    hide SwitchesAt, EstimateTokens;
    forall t | t in asked ensures t in asked' {
    }
  }

  /** One count, as the run sees it. */
  lemma CountStep(ask: Backend, tokens: string -> nat, texts: seq<string>, i: nat, counts: seq<nat>, d: nat,
      state: Probe, state': Probe, cache: map<string, nat>, asked: seq<string>, asked': seq<string>, n: nat)
    requires i < |texts| && CountedTo(texts, i, counts, tokens, d, asked)
    requires Honest(ask, tokens) && MemoIsTrue(ask, asked, cache)
    requires if state == Estimated then d < i else d == i
    requires state == Estimated ==> n == EstimateTokens(texts[i]) && state' == Estimated && asked' == asked
    requires state != Estimated && texts[i] in cache ==> n == cache[texts[i]] && state' == state && asked' == asked
    requires state != Estimated && texts[i] !in cache ==>
               && asked' == asked + [texts[i]]
               && match ask(|asked|, texts[i])
                  case Some(answer) => n == answer && state' == Exact
                  case None => n == EstimateTokens(texts[i]) && state' == Estimated
    ensures CountedTo(texts, i + 1, counts + [n], tokens, if state' == Estimated then d else i + 1, asked')
  {
    hide CountedTo, EstimateTokens, MemoIsTrue;
    CountNext(texts, i, counts, tokens, d, asked, n, asked');
    if state != Estimated && texts[i] in cache {
      MemoAnswers(ask, tokens, asked, cache, texts[i]);
    }
  }

  /** A run of counts with one backend: exact until it declines for the first
    * time, estimated ever after. It is asked about nothing after it declined, and
    * not twice about a text as long as the memo has room.
    */
  method CountAll(ask: Backend, ghost tokens: string -> nat, texts: seq<string>)
    returns (counts: seq<nat>, switch: nat, calls: nat, ghost asked: seq<string>)
    requires Honest(ask, tokens)
    ensures SwitchesAt(texts, counts, tokens, switch)
    ensures calls == |asked| && forall i :: 0 <= i < calls && ask(i, asked[i]).None? ==> i == calls - 1 && switch < |texts|
    ensures calls <= CACHE_CAPACITY && switch == |texts| ==> NoDuplicates(asked)
    ensures forall i :: 0 <= i < switch ==> texts[i] in asked
    ensures forall t :: t in asked ==> t in texts
  {
    hide EstimateTokens, MemoIsTrue, CountedTo, AnsweredSoFar, NothingForgotten, Honest, SwitchesAt, NoDuplicates;
    var counter := new TokenCounter(ask);
    counts, switch := [], 0;
    StartCounting(texts, tokens);
    for i := 0 to |texts|
      invariant fresh(counter) && counter.Valid() && counter.backend == Some(ask)
      invariant CountedTo(texts, i, counts, tokens, switch, counter.asked)
      invariant if counter.state == Estimated then switch < i else switch == i
    {
      ghost var stateBefore, cacheBefore, askedBefore := counter.state, counter.cache, counter.asked;
      var n := counter.Count(texts[i]);
      CountStep(ask, tokens, texts, i, counts, switch, stateBefore, counter.state, cacheBefore, askedBefore, counter.asked, n);
      if counter.state != Estimated {
        switch := i + 1;
      }
      counts := counts + [n];
    }
    asked := counter.asked;
    calls := counter.calls;
    EndCounting(texts, counts, tokens, switch, asked);
    EndAsking(ask, asked, counter.state, counter.cache);
  }

  lemma StartCounting(texts: seq<string>, tokens: string -> nat)
    ensures CountedTo(texts, 0, [], tokens, 0, [])
  {
  }

  lemma EndCounting(texts: seq<string>, counts: seq<nat>, tokens: string -> nat, d: nat, asked: seq<string>)
    requires CountedTo(texts, |texts|, counts, tokens, d, asked)
    ensures SwitchesAt(texts, counts, tokens, d)
    ensures forall i :: 0 <= i < d ==> texts[i] in asked
    ensures forall t :: t in asked ==> t in texts
  {
    hide SwitchesAt;
    assert texts[..|texts|] == texts;
  }

  lemma EndAsking(ask: Backend, asked: seq<string>, state: Probe, cache: map<string, nat>)
    requires AnsweredSoFar(ask, asked, state) && NothingForgotten(asked, cache, state)
    ensures forall i :: 0 <= i < |asked| && ask(i, asked[i]).None? ==> i == |asked| - 1 && state == Estimated
    ensures |asked| <= CACHE_CAPACITY && state != Estimated ==> NoDuplicates(asked)
  {
  }
}
