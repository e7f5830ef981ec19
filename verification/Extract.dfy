/** Pulling balanced blocks out of noisy text. */
module Extract {
  import opened Basics
  import opened TextLines
  import opened JsonText

  // ----- the scanner's state

  datatype Scan = Scan(depth: int, inStr: bool, escaped: bool)

  const START := Scan(0, false, false)

  function Step(st: Scan, ch: char, open: char, close: char): Scan {
    if st.inStr then
      if st.escaped then st.(escaped := false)
      else if ch == '\\' then st.(escaped := true)
      else if ch == '"' then st.(inStr := false)
      else st
    else if ch == '"' then st.(inStr := true)
    else if ch == open then st.(depth := st.depth + 1)
    else if ch == close then st.(depth := st.depth - 1)
    else st
  }

  function Run(st: Scan, s: string, open: char, close: char): Scan
    decreases |s|
  {
    if s == [] then st else Run(Step(st, s[0], open, close), s[1..], open, close)
  }

  /** Length of the shortest non-empty prefix of `s` after which the depth is 0. */
  function FirstZero(st: Scan, s: string, open: char, close: char): (n: Option<nat>)
    ensures n.Some? ==> 0 < n.value <= |s|
    decreases |s|
  {
    if s == [] then None
    else
      var next := Step(st, s[0], open, close);
      if next.depth == 0 then Some(1)
      else
        var n := FirstZero(next, s[1..], open, close);
        if n.None? then None else Some(n.value + 1)
  }

  /** Where the first balanced block starts and ends. */
  function Block(text: string, open: char, close: char): (r: Option<(nat, nat)>)
    ensures r.Some? ==> r.value.0 < r.value.1 <= |text|
  {
    var start := IndexOf(text, open);
    if start == |text| then None
    else
      var n := FirstZero(START, text[start..], open, close);
      if n.None? then None else Some((start, start + n.value))
  }

  lemma {:induction false} RunConcat(st: Scan, a: string, b: string, open: char, close: char)
    ensures Run(st, a + b, open, close) == Run(Run(st, a, open, close), b, open, close)
    decreases |a|
  {
    if a == [] {
      assert a + b == b;
    } else {
      assert (a + b)[1..] == a[1..] + b;
      RunConcat(Step(st, a[0], open, close), a[1..], b, open, close);
    }
  }

  /** `FirstZero` is the first prefix at depth 0, and there is none before it. */
  lemma {:induction false} FirstZeroIsShortest(st: Scan, s: string, open: char, close: char)
    ensures match FirstZero(st, s, open, close)
            case Some(n) =>
              && Run(st, s[..n], open, close).depth == 0
              && (forall k :: 0 < k < n ==> Run(st, s[..k], open, close).depth != 0)
            case None => forall k :: 0 < k <= |s| ==> Run(st, s[..k], open, close).depth != 0
    decreases |s|
  {
    if s != [] {
      var next := Step(st, s[0], open, close);
      FirstZeroIsShortest(next, s[1..], open, close);
      forall k | 0 < k <= |s| ensures Run(st, s[..k], open, close) == Run(next, s[1..][..k - 1], open, close) {
        assert s[..k][1..] == s[1..][..k - 1];
      }
      if next.depth != 0 {
        var n := FirstZero(next, s[1..], open, close);
        assert s[1..][..0] == [];
      }
    }
  }

  /** The scan from `start` has reached `i` in state `st`. */
  ghost predicate Reached(text: string, open: char, close: char, start: nat, i: nat, st: Scan)
    requires start <= i <= |text|
  {
    Block(text, open, close)
    == match FirstZero(st, text[i..], open, close)
       case None => None
       case Some(n) => Some((start, i + n))
  }

  lemma ReachedStep(text: string, open: char, close: char, start: nat, i: nat, st: Scan)
    requires start <= i < |text| && Reached(text, open, close, start, i, st)
    ensures var next := Step(st, text[i], open, close);
            if next.depth == 0 then Block(text, open, close) == Some((start, i + 1))
            else Reached(text, open, close, start, i + 1, next)
  {
    assert text[i..][1..] == text[i + 1..];
  }

  /** `extract_balanced`: the block, by its bounds. The depth never underflows. */
  method ExtractBalanced(text: string, open: char, close: char) returns (r: Option<(nat, nat)>)
    requires open != '"'
    ensures r == Block(text, open, close)
  {
    var start := IndexOf(text, open);
    if start == |text| {
      return None;
    }
    var depth: nat := 0;
    var inStr, escaped := false, false;
    var i := start;
    while i < |text|
      invariant start <= i <= |text|
      invariant i == start ==> depth == 0 && !inStr && !escaped
      invariant i > start ==> depth > 0
      invariant Reached(text, open, close, start, i, Scan(depth, inStr, escaped))
    {
      hide Reached, Block;
      ReachedStep(text, open, close, start, i, Scan(depth, inStr, escaped));
      var ch := text[i];
      if inStr {
        if escaped {
          escaped := false;
        } else if ch == '\\' {
          escaped := true;
        } else if ch == '"' {
          inStr := false;
        }
      } else if ch == '"' {
        inStr := true;
      } else if ch == open {
        depth := depth + 1;
      } else if ch == close {
        depth := depth - 1;
        if depth == 0 {
          return Some((start, i + 1));
        }
      }
      i := i + 1;
    }
    return None;
  }

  /** All top-level blocks of braces, in order. */
  function AllObjects(text: string): seq<string>
    decreases |text|
  {
    var b := Block(text, '{', '}');
    if b.None? then []
    else [text[b.value.0..b.value.1]] + AllObjects(text[b.value.1..])
  }

  method ExtractAllJsonObjects(text: string) returns (out: seq<string>)
    ensures out == AllObjects(text)
  {
    out := [];
    var rest := text;
    while true
      invariant out + AllObjects(rest) == AllObjects(text)
      decreases |rest|
    {
      var b := ExtractBalanced(rest, '{', '}');
      if b.None? {
        break;
      }
      hide Block;
      var end := b.value.1;
      assert out + ([rest[b.value.0..end]] + AllObjects(rest[end..]))
          == out + [rest[b.value.0..end]] + AllObjects(rest[end..]);
      out := out + [rest[b.value.0..end]];
      if end >= |rest| {
        assert rest[end..] == [];
        break;
      }
      rest := rest[end..];
    }
  }

  // ----- texts the scanner passes over

  /** The scan of `s` goes from `st` to `end` and never below depth `d`. */
  ghost predicate Holds(st: Scan, s: string, end: Scan, d: nat, open: char, close: char) {
    && Run(st, s, open, close) == end
    && forall k :: 0 <= k <= |s| ==> Run(st, s[..k], open, close).depth >= d
  }

  predicate IsBrackets(open: char, close: char) {
    (open == '{' && close == '}') || (open == '[' && close == ']')
  }

  lemma HoldsConcat(st: Scan, a: string, mid: Scan, b: string, end: Scan, d: nat, open: char, close: char)
    requires Holds(st, a, mid, d, open, close) && Holds(mid, b, end, d, open, close)
    ensures Holds(st, a + b, end, d, open, close)
  {
    RunConcat(st, a, b, open, close);
    forall k | 0 <= k <= |a + b| ensures Run(st, (a + b)[..k], open, close).depth >= d {
      if k <= |a| {
        assert (a + b)[..k] == a[..k];
      } else {
        assert (a + b)[..k] == a + b[..k - |a|];
        RunConcat(st, a, b[..k - |a|], open, close);
      }
    }
  }

  lemma HoldsOne(st: Scan, c: char, d: nat, open: char, close: char)
    requires st.depth >= d && Step(st, c, open, close).depth >= d
    ensures Holds(st, [c], Step(st, c, open, close), d, open, close)
  {
    assert [c][..0] == [] && [c][..1] == [c] && [c][1..] == [];
  }

  function Outside(d: nat): Scan { Scan(d, false, false) }

  function Inside(d: nat): Scan { Scan(d, true, false) }

  /** Characters that do not change the state. */
  lemma {:induction false} Quiet(st: Scan, s: string, d: nat, open: char, close: char)
    requires st.depth >= d
    requires forall i :: 0 <= i < |s| ==> Step(st, s[i], open, close) == st
    ensures Holds(st, s, st, d, open, close)
  {
    if s == [] {
    } else {
      Quiet(st, s[1..], d, open, close);
      HoldsOne(st, s[0], d, open, close);
      assert s == [s[0]] + s[1..];
      HoldsConcat(st, [s[0]], st, s[1..], st, d, open, close);
    }
  }

  // ----- JSON values

  lemma PieceInside(p: Piece, d: nat, open: char, close: char)
    requires PieceOk(p)
    ensures Holds(Inside(d), PieceText(p), Inside(d), d, open, close)
  {
    match p
    case Plain(c) => HoldsOne(Inside(d), c, d, open, close);
    case Escaped(c) =>
      EscapePairInside(c, d, open, close);
    case Unicode(hex) =>
      EscapePairInside('u', d, open, close);
      Quiet(Inside(d), hex, d, open, close);
      HoldsConcat(Inside(d), ['\\', 'u'], Inside(d), hex, Inside(d), d, open, close);
      assert "\\u" == ['\\', 'u'];
  }

  lemma EscapePairInside(c: char, d: nat, open: char, close: char)
    ensures Holds(Inside(d), ['\\', c], Inside(d), d, open, close)
  {
    var mid := Scan(d, true, true);
    HoldsOne(Inside(d), '\\', d, open, close);
    HoldsOne(mid, c, d, open, close);
    HoldsConcat(Inside(d), ['\\'], mid, [c], Inside(d), d, open, close);
    assert ['\\', c] == ['\\'] + [c];
  }

  lemma {:induction false} BodyInside(body: seq<Piece>, d: nat, open: char, close: char)
    requires PiecesOk(body)
    ensures Holds(Inside(d), BodyText(body), Inside(d), d, open, close)
  {
    if body == [] {
      Quiet(Inside(d), "", d, open, close);
    } else {
      PieceInside(body[0], d, open, close);
      BodyInside(body[1..], d, open, close);
      HoldsConcat(Inside(d), PieceText(body[0]), Inside(d), BodyText(body[1..]), Inside(d), d, open, close);
    }
  }

  lemma StringNeutral(body: seq<Piece>, d: nat, open: char, close: char)
    requires PiecesOk(body) && IsBrackets(open, close)
    ensures Holds(Outside(d), StringText(body), Outside(d), d, open, close)
  {
    HoldsOne(Outside(d), '"', d, open, close);
    BodyInside(body, d, open, close);
    HoldsOne(Inside(d), '"', d, open, close);
    HoldsConcat(Outside(d), "\"", Inside(d), BodyText(body), Inside(d), d, open, close);
    HoldsConcat(Outside(d), "\"" + BodyText(body), Inside(d), "\"", Outside(d), d, open, close);
  }

  /** A text with nothing of interest to the scanner in it. */
  predicate Dull(s: string) {
    forall i :: 0 <= i < |s| ==> s[i] !in {'"', '{', '}', '[', ']'}
  }

  lemma DullNeutral(s: string, d: nat, open: char, close: char)
    requires Dull(s) && IsBrackets(open, close)
    ensures Holds(Outside(d), s, Outside(d), d, open, close)
  {
    Quiet(Outside(d), s, d, open, close);
  }

  lemma DullConcat(a: string, b: string)
    requires Dull(a) && Dull(b)
    ensures Dull(a + b)
  {
  }

  lemma NumberDull(negative: bool, whole: string, frac: string, exp: string)
    requires IsInt(whole) && IsFrac(frac) && IsExp(exp)
    ensures Dull(Print(Number(negative, whole, frac, exp)))
  {
    assert Dull(whole);
    assert forall i :: 1 <= i < |frac| ==> frac[i] == frac[1..][i - 1];
    assert Dull(frac);
    assert forall i :: 1 <= i < |exp| ==> exp[i] == exp[1..][i - 1];
    assert forall i :: 2 <= i < |exp| ==> exp[i] == exp[2..][i - 2];
    assert Dull(exp);
    var sign := if negative then "-" else "";
    DullConcat(sign, whole);
    DullConcat(sign + whole, frac);
    DullConcat(sign + whole + frac, exp);
  }

  lemma ColonDull(s: string)
    requires IsColon(s)
    ensures Dull(s)
  {
    var k :| 0 <= k < |s| && s[k] == ':' && IsWs(s[..k]) && IsWs(s[k + 1..]);
    assert forall i :: k < i < |s| ==> s[i] == s[k + 1..][i - k - 1];
    assert forall i :: 0 <= i < k ==> s[i] == s[..k][i];
  }

  /** Two neutral texts in a row. */
  lemma NeutralConcat(a: string, b: string, d: nat, open: char, close: char)
    requires Holds(Outside(d), a, Outside(d), d, open, close)
    requires Holds(Outside(d), b, Outside(d), d, open, close)
    ensures Holds(Outside(d), a + b, Outside(d), d, open, close)
  {
    HoldsConcat(Outside(d), a, Outside(d), b, Outside(d), d, open, close);
  }

  /** A bracketed text, of the kind that is looked for or of the other kind. */
  lemma BracketsNeutral(s: string, d: nat, l: char, r: char, open: char, close: char)
    requires IsBrackets(open, close) && IsBrackets(l, r)
    requires Holds(Outside(d), s, Outside(d), d, open, close)
    requires Holds(Outside(d + 1), s, Outside(d + 1), d + 1, open, close)
    ensures Holds(Outside(d), [l] + s + [r], Outside(d), d, open, close)
  {
    var e := if l == open then d + 1 else d;
    HoldsOne(Outside(d), l, d, open, close);
    HoldsOne(Outside(e), r, d, open, close);
    assert Holds(Outside(e), s, Outside(e), d, open, close);
    HoldsConcat(Outside(d), [l], Outside(e), s, Outside(e), d, open, close);
    HoldsConcat(Outside(d), [l] + s, Outside(e), [r], Outside(d), d, open, close);
  }
}
