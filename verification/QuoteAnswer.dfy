/** The quote a salvaged value is cut at, said of the text alone. */
module QuoteAnswer {
  import opened Basics
  import opened TextTrim
  import opened ObjectTail
  import opened ClosingQuote
  import opened TailGrammar

  /** An unescaped quote with the rest of an object after it. */
  ghost predicate EndsValue(s: string, i: nat) {
    && i < |s| && s[i] == '"' && !EscapedAt(s, i)
    && var rest := s[i + 1..];
       exists ws0, ms, end :: IsTail(rest, ws0, ms, end)
  }

  /** An unescaped quote with a comma, a closing brace or nothing after it, but for white space. */
  ghost predicate AtBoundary(s: string, i: nat) {
    && i < |s| && s[i] == '"' && !EscapedAt(s, i)
    && var next := i + 1;
       exists k: nat :: SpaceUpTo(s, next, k)
  }

  predicate SpaceUpTo(s: string, i: nat, k: nat) {
    i <= k <= |s| && AllSpace(s[i..k]) && (k < |s| ==> s[k] == ',' || s[k] == '}')
  }

  lemma CloserEnds(s: string, i: nat)
    requires i < |s|
    ensures IsCloser(s, i) <==> EndsValue(s, i)
  {
    OddRunIsEscaped(s, i);
    RecogniserIsGrammar(s[i + 1..]);
    hide IsTail, EscapedAt, BackslashRun, IsObjectTail;
  }

  lemma BoundaryAfter(s: string, i: nat, k: nat)
    requires SpaceUpTo(s, i, k)
    ensures IsBoundary(s[i..])
  {
    var space, next := s[i..k], s[k..];
    assert s[i..] == space + next;
    assert k < |s| ==> next[0] == s[k];
    TrimStartByIs(space, next, IsWhitespace);
  }

  lemma SpaceFound(s: string, i: nat) returns (k: nat)
    requires i <= |s| && IsBoundary(s[i..])
    ensures SpaceUpTo(s, i, k)
  {
    var next := TrimStart(s[i..]);
    k := |s| - |next|;
    TrimStartByDrops(s[i..], IsWhitespace);
    hide TrimStartBy, IsWhitespace;
    SpaceBefore(s, i, next);
    assert k < |s| ==> next[0] == s[k];
  }

  lemma SpaceBefore(s: string, i: nat, next: string)
    requires i <= |s| && |next| <= |s| - i && next == s[i..][|s| - i - |next|..]
    requires forall j :: 0 <= j < |s| - i - |next| ==> IsWhitespace(s[i..][j])
    ensures AllSpace(s[i..|s| - |next|]) && next == s[|s| - |next|..]
  {
    hide IsWhitespace;
    var space := s[i..|s| - |next|];
    forall j | 0 <= j < |space| ensures IsWhitespace(space[j]) {
      assert space[j] == s[i..][j];
    }
  }

  lemma BoundaryFound(s: string, i: nat)
    requires i <= |s|
    ensures IsBoundary(s[i..]) <==> exists k: nat :: SpaceUpTo(s, i, k)
  {
    hide IsBoundary, SpaceUpTo;
    if IsBoundary(s[i..]) {
      var k := SpaceFound(s, i);
    }
    forall k: nat | SpaceUpTo(s, i, k) ensures IsBoundary(s[i..]) {
      BoundaryAfter(s, i, k);
    }
  }

  lemma FallbackEnds(s: string, i: nat)
    requires i < |s|
    ensures IsFallback(s, i) <==> AtBoundary(s, i)
  {
    OddRunIsEscaped(s, i);
    BoundaryFound(s, i + 1);
    hide SpaceUpTo, EscapedAt, BackslashRun, IsBoundary;
  }

  /** The answer is the first unescaped quote with the rest of an object after it;
    * where there is none, the last one at a boundary; and no quote if there is none of either.
    */
  lemma AnswerExactly(s: string, r: Option<nat>)
    requires IsAnswer(s, r)
    ensures match r
            case Some(i) =>
              || (EndsValue(s, i) && forall j: nat :: EndsValue(s, j) ==> i <= j)
              || ((forall j: nat :: !EndsValue(s, j)) && AtBoundary(s, i) && forall j: nat :: AtBoundary(s, j) ==> j <= i)
            case None => forall j: nat :: !EndsValue(s, j) && !AtBoundary(s, j)
  {
    forall j: nat | j < |s| ensures IsCloser(s, j) <==> EndsValue(s, j) {
      CloserEnds(s, j);
    }
    forall j: nat | j < |s| ensures IsFallback(s, j) <==> AtBoundary(s, j) {
      FallbackEnds(s, j);
    }
    forall j: nat ensures EndsValue(s, j) ==> j < |s| {
    }
    forall j: nat ensures AtBoundary(s, j) ==> j < |s| {
    }
    hide IsCloser, IsFallback, EndsValue, AtBoundary;
  }
}
