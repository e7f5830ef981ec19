/** Where a salvaged string value ends. */
module ClosingQuote {
  import opened Basics
  import opened TextTrim
  import opened JsonText
  import opened ObjectTail

  /** Backslashes directly before position `i`. */
  function BackslashRun(s: string, i: nat): (n: nat)
    requires i <= |s|
    ensures n <= i
  {
    if i > 0 && s[i - 1] == '\\' then 1 + BackslashRun(s, i - 1) else 0
  }

  /** A quote with an even number of backslashes before it. */
  predicate IsBareQuote(s: string, i: nat)
    requires i < |s|
  {
    s[i] == '"' && BackslashRun(s, i) % 2 == 0
  }

  /** At a structural boundary: `,`, `}` or the end come next. */
  predicate IsBoundary(rest: string) {
    var next := TrimStart(rest);
    next == [] || next[0] == ',' || next[0] == '}'
  }

  predicate IsCloser(s: string, i: nat)
    requires i < |s|
  {
    IsBareQuote(s, i) && IsObjectTail(s[i + 1..])
  }

  predicate IsFallback(s: string, i: nat)
    requires i < |s|
  {
    IsBareQuote(s, i) && IsBoundary(s[i + 1..])
  }

  /** The answer: the first closer, or without one the last bare quote at a
    * structural boundary.
    */
  predicate IsAnswer(s: string, r: Option<nat>) {
    match r
    case Some(i) =>
      i < |s| && (
        || (IsCloser(s, i) && forall j :: 0 <= j < i ==> !IsCloser(s, j))
        || (&& (forall j :: 0 <= j < |s| ==> !IsCloser(s, j))
            && IsFallback(s, i)
            && forall j :: i < j < |s| ==> !IsFallback(s, j)))
    case None => forall j :: 0 <= j < |s| ==> !IsCloser(s, j) && !IsFallback(s, j)
  }

  lemma AnswerUnique(s: string, r: Option<nat>, r': Option<nat>)
    requires IsAnswer(s, r) && IsAnswer(s, r')
    ensures r == r'
  {
    hide IsCloser, IsFallback;
  }

  /** A closer is at a structural boundary. */
  lemma TailStartsAtBoundary(rest: string)
    requires IsObjectTail(rest)
    ensures IsBoundary(rest)
  {
  }

  method CountBackslashes(body: string, i: nat) returns (n: nat)
    requires i <= |body|
    ensures n == BackslashRun(body, i)
  {
    n := 0;
    var j := i;
    while j > 0 && body[j - 1] == '\\'
      invariant 0 <= j <= i
      invariant BackslashRun(body, i) == n + BackslashRun(body, j)
    {
      n := n + 1;
      j := j - 1;
    }
  }

  lemma NoBoundaryNoCloser(rest: string)
    requires !IsBoundary(rest)
    ensures !IsObjectTail(rest)
  {
    if IsObjectTail(rest) {
      TailStartsAtBoundary(rest);
    }
  }

  datatype Verdict = NoCandidate | Fallback | Closer

  /** The three tests on one position. */
  method TestQuote(body: string, i: nat) returns (v: Verdict)
    requires i < |body|
    ensures v == if IsCloser(body, i) then Closer else if IsFallback(body, i) then Fallback else NoCandidate
  {
    hide BackslashRun, IsObjectTail, TrimStart;
    if body[i] != '"' {
      return NoCandidate;
    }
    var backslashes := CountBackslashes(body, i);
    if backslashes % 2 == 1 {
      return NoCandidate;
    }
    var rest := body[i + 1..];
    var next := TrimStart(rest);
    if next != [] && next[0] != ',' && next[0] != '}' {
      NoBoundaryNoCloser(rest);
      return NoCandidate;
    }
    var tail := RecogniseTail(rest);
    return if tail then Closer else Fallback;
  }

  method StructuralClosingQuote(body: string) returns (r: Option<nat>)
    ensures IsAnswer(body, r)
  {
    hide IsCloser, IsFallback;
    var fallback: Option<nat> := None;
    for i := 0 to |body|
      invariant forall j :: 0 <= j < i ==> !IsCloser(body, j)
      invariant fallback.None? ==> forall j :: 0 <= j < i ==> !IsFallback(body, j)
      invariant fallback.Some? ==> fallback.value < i && IsFallback(body, fallback.value)
      invariant fallback.Some? ==> forall j :: fallback.value < j < i ==> !IsFallback(body, j)
    {
      var v := TestQuote(body, i);
      match v {
        case NoCandidate =>
          continue;
        case Closer =>
          return Some(i);
        case Fallback =>
          fallback := Some(i);
      }
    }
    return fallback;
  }

  // ----- the body's own closer

  /** Whether position `i` is escaped, reading from the left. */
  predicate EscapedAt(s: string, i: nat)
    requires i <= |s|
  {
    i > 0 && s[i - 1] == '\\' && !EscapedAt(s, i - 1)
  }

  /** The run of backslashes is odd exactly at the escaped positions. */
  lemma {:induction false} OddRunIsEscaped(s: string, i: nat)
    requires i <= |s|
    ensures EscapedAt(s, i) <==> BackslashRun(s, i) % 2 == 1
  {
    if i > 0 {
      OddRunIsEscaped(s, i - 1);
    }
  }

  /** A body whose quotes are all escaped and whose escapes are all complete. */
  predicate ClosedBody(body: string) {
    && (forall i :: 0 <= i < |body| && body[i] == '"' ==> EscapedAt(body, i))
    && !EscapedAt(body, |body|)
  }

  lemma {:induction false} EscapedInPrefix(s: string, t: string, i: nat)
    requires i <= |s|
    ensures EscapedAt(s + t, i) == EscapedAt(s, i)
  {
    if i > 0 {
      EscapedInPrefix(s, t, i - 1);
    }
  }

  /** Whatever the key order: a closed body followed by its quote and by a rest
    * of the object ends at its own quote.
    */
  lemma BodysOwnCloser(body: string, tail: string, r: Option<nat>)
    requires ClosedBody(body) && IsObjectTail(tail)
    requires IsAnswer(body + "\"" + tail, r)
    ensures r == Some(|body|)
  {
    hide IsAnswer, ClosedBody, IsObjectTail, IsCloser;
    var text := body + ("\"" + tail);
    assert body + "\"" + tail == text;
    OwnQuoteCloses(body, tail);
    forall j | 0 <= j < |body| ensures !IsCloser(text, j) {
      NoEarlierCloser(body, "\"" + tail, j);
    }
    FirstCloserIsAnswer(text, |body|, r);
  }

  lemma OwnQuoteCloses(body: string, tail: string)
    requires ClosedBody(body) && IsObjectTail(tail)
    ensures IsCloser(body + ("\"" + tail), |body|)
  {
    hide IsObjectTail, BackslashRun;
    var text := body + ("\"" + tail);
    assert text[|body| + 1..] == tail;
    EscapedInPrefix(body, "\"" + tail, |body|);
    OddRunIsEscaped(text, |body|);
  }

  lemma NoEarlierCloser(body: string, rest: string, j: nat)
    requires ClosedBody(body) && j < |body|
    ensures !IsCloser(body + rest, j)
  {
    hide IsObjectTail, BackslashRun;
    EscapedInPrefix(body, rest, j);
    OddRunIsEscaped(body + rest, j);
  }

  lemma FirstCloserIsAnswer(text: string, i: nat, r: Option<nat>)
    requires i < |text| && IsCloser(text, i) && (forall j :: 0 <= j < i ==> !IsCloser(text, j))
    requires IsAnswer(text, r)
    ensures r == Some(i)
  {
    hide IsCloser, IsFallback;
    AnswerUnique(text, r, Some(i));
  }

  // ----- JSON-escaped bodies are closed

  lemma {:induction false} EscapedInSuffix(s: string, t: string, i: nat)
    requires i <= |t| && !EscapedAt(s, |s|)
    ensures EscapedAt(s + t, |s| + i) == EscapedAt(t, i)
  {
    EscapedInPrefix(s, t, |s|);
    if i > 0 {
      EscapedInSuffix(s, t, i - 1);
    }
  }

  lemma ClosedConcat(a: string, b: string)
    requires ClosedBody(a) && ClosedBody(b)
    ensures ClosedBody(a + b)
  {
    forall i | 0 <= i < |a + b| && (a + b)[i] == '"' ensures EscapedAt(a + b, i) {
      if i < |a| {
        EscapedInPrefix(a, b, i);
      } else {
        EscapedInSuffix(a, b, i - |a|);
      }
    }
    EscapedInSuffix(a, b, |b|);
  }

  lemma EscapedStep(s: string, i: nat)
    requires 0 < i <= |s|
    ensures EscapedAt(s, i) <==> s[i - 1] == '\\' && !EscapedAt(s, i - 1)
  {
  }

  lemma PieceClosed(p: Piece)
    requires PieceOk(p)
    ensures ClosedBody(PieceText(p))
  {
    match p
    case Plain(c) =>
    case Escaped(c) =>
      assert EscapedAt(['\\', c], 1);
    case Unicode(hex) =>
      var s := "\\u" + hex;
      assert s[0] == '\\' && s[1] == 'u';
      EscapedStep(s, 1);
      EscapedStep(s, 2);
      assert forall i :: 2 <= i < 6 ==> s[i] == hex[i - 2];
  }

  lemma {:induction false} EscapedBodyIsClosed(body: seq<Piece>)
    requires PiecesOk(body)
    ensures ClosedBody(BodyText(body))
  {
    if body != [] {
      PieceClosed(body[0]);
      EscapedBodyIsClosed(body[1..]);
      ClosedConcat(PieceText(body[0]), BodyText(body[1..]));
    }
  }

  /** The value a model wrote as proper JSON ends at its own quote. */
  lemma EscapedBodysOwnCloser(body: seq<Piece>, tail: string, r: Option<nat>)
    requires PiecesOk(body) && IsObjectTail(tail)
    requires IsAnswer(BodyText(body) + "\"" + tail, r)
    ensures r == Some(|BodyText(body)|)
  {
    EscapedBodyIsClosed(body);
    BodysOwnCloser(BodyText(body), tail, r);
  }
}
