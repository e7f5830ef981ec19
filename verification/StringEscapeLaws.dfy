/** What escaping raw control characters keeps, and what it changes. */
module StringEscapeLaws {
  import opened TextLines
  import opened StringEscape

  // ----- one replaced character

  /** An escaped character is read back as one unit of a literal body. */
  lemma EscapedCharReads(c: char, t: string)
    requires c != '"' && c != '\\'
    ensures EscapeInside(EscapeChar(c) + t) == EscapeChar(c) + EscapeInside(t)
    ensures BodyLength(EscapeChar(c) + t) == |EscapeChar(c)| + BodyLength(t)
    ensures Unescape(EscapeChar(c) + t)
         == (if c < ' ' && c != '\n' && c != '\r' && c != '\t' then EscapeChar(c) else [c]) + Unescape(t)
  {
    var e := EscapeChar(c);
    if c < ' ' {
      if c == '\n' || c == '\r' || c == '\t' {
        assert (e + t)[1..] == [e[1]] + t && (e + t)[2..] == t;
      } else {
        HexChars(c, t);
      }
    } else {
      assert (e + t)[1..] == t;
    }
  }

  predicate IsPlain(c: char) {
    ' ' <= c && c != '"' && c != '\\'
  }

  lemma {:induction false} PlainRun(w: string, t: string)
    requires forall i :: 0 <= i < |w| ==> IsPlain(w[i])
    ensures EscapeInside(w + t) == w + EscapeInside(t)
    ensures BodyLength(w + t) == |w| + BodyLength(t)
    ensures Unescape(w + t) == w + Unescape(t)
  {
    if w == [] {
      assert w + t == t;
    } else {
      hide *;
      PlainRun(w[1..], t);
      Plain1(w[0], w[1..] + t);
      ConsAssoc(w, t);
      ConsAssoc(w, EscapeInside(t));
      ConsAssoc(w, Unescape(t));
    }
  }

  lemma ConsAssoc(w: string, t: string)
    requires w != []
    ensures w + t == [w[0]] + (w[1..] + t)
  {
  }

  lemma Plain1(c: char, t: string)
    requires ' ' <= c && c != '"' && c != '\\'
    ensures EscapeInside([c] + t) == [c] + EscapeInside(t)
    ensures BodyLength([c] + t) == 1 + BodyLength(t)
    ensures Unescape([c] + t) == [c] + Unescape(t)
  {
    assert ([c] + t)[1..] == t;
  }

  lemma Pair(x: char, t: string)
    ensures EscapeInside(['\\', x] + t) == ['\\', x] + EscapeInside(t)
    ensures EscapeBody(['\\', x] + t) == ['\\', x] + EscapeBody(t)
    ensures BodyLength(['\\', x] + t) == 2 + BodyLength(t)
    ensures Unescape(['\\', x] + t) == Resolve(x) + Unescape(t)
  {
    var s := ['\\', x] + t;
    assert s[1..] == [x] + t && s[2..] == t && ([x] + t)[1..] == t;
  }

  lemma HexDigitPlain(n: nat)
    requires n < 16
    ensures IsPlain(HexDigit(n))
  {
  }

  lemma HexText(c: char) returns (w: string)
    requires c < ' ' && c != '\n' && c != '\r' && c != '\t'
    ensures |w| == 4 && EscapeChar(c) == ['\\', 'u'] + w
    ensures forall i :: 0 <= i < |w| ==> IsPlain(w[i])
  {
    HexDigitPlain(c as int / 16);
    HexDigitPlain(c as int % 16);
    w := ['0', '0', HexDigit(c as int / 16), HexDigit(c as int % 16)];
  }

  lemma PairAssoc(w: string, t: string)
    ensures ['\\', 'u'] + w + t == ['\\', 'u'] + (w + t)
  {
  }

  lemma HexChars(c: char, t: string)
    requires c < ' ' && c != '\n' && c != '\r' && c != '\t'
    ensures EscapeInside(EscapeChar(c) + t) == EscapeChar(c) + EscapeInside(t)
    ensures BodyLength(EscapeChar(c) + t) == 6 + BodyLength(t)
    ensures Unescape(EscapeChar(c) + t) == EscapeChar(c) + Unescape(t)
  {
    hide EscapeChar, EscapeInside, BodyLength, Unescape;
    var w := HexText(c);
    PairAssoc(w, t);
    Pair('u', w + t);
    PlainRun(w, t);
    PairAssoc(w, EscapeInside(t));
    PairAssoc(w, Unescape(t));
  }

  // ----- idempotence

  lemma QuoteFirst(t: string)
    ensures EscapeInside("\"" + t) == "\"" + EscapeOutside(t)
  {
    assert ("\"" + t)[1..] == t;
  }

  lemma LoneBackslash()
    ensures EscapeInside("\\") == "\\"
  {
    assert "\\"[1..] == "";
  }

  lemma {:induction false} InsideIdempotent(s: string)
    ensures EscapeInside(EscapeInside(s)) == EscapeInside(s)
    decreases |s|
  {
    if s == [] {
    } else if s[0] == '"' {
      hide *;
      assert s == "\"" + s[1..];
      QuoteFirst(s[1..]);
      QuoteFirst(EscapeOutside(s[1..]));
      OutsideIdempotent(s[1..]);
    } else if s == "\\" {
      hide *;
      LoneBackslash();
    } else if s[0] == '\\' {
      hide *;
      assert s == ['\\', s[1]] + s[2..];
      InsideIdempotent(s[2..]);
      Pair(s[1], s[2..]);
      Pair(s[1], EscapeInside(s[2..]));
    } else {
      InsideIdempotent(s[1..]);
      StateSteps(s);
      hide *;
      EscapedCharReads(s[0], EscapeInside(s[1..]));
    }
  }

  /** Escaping twice is escaping once. */
  lemma {:induction false} OutsideIdempotent(s: string)
    ensures EscapeOutside(EscapeOutside(s)) == EscapeOutside(s)
    decreases |s|
  {
    if s != [] {
      var r := EscapeOutside(s);
      if s[0] == '"' {
        InsideIdempotent(s[1..]);
        assert r[1..] == EscapeInside(s[1..]);
      } else {
        OutsideIdempotent(s[1..]);
        assert r[1..] == EscapeOutside(s[1..]);
      }
    }
  }

  // ----- literal boundaries

  /** What follows the body of a literal. */
  function AfterBody(s: string): string {
    var n := BodyLength(s);
    if n < |s| then "\"" + EscapeOutside(s[n + 1..]) else ""
  }

  lemma SliceSteps(s: string, k: nat, m: nat)
    requires k + m <= |s|
    ensures s[..k + m] == s[..k] + s[k..][..m]
    ensures k + m < |s| ==> s[k..][m + 1..] == s[k + m + 1..]
  {
  }

  lemma BodySteps(s: string, k: nat)
    requires s != [] && s[0] != '"'
    requires k == (if s[0] == '\\' then 2 else 1) && k <= |s|
    ensures BodyLength(s) == k + BodyLength(s[k..])
    ensures s[..BodyLength(s)] == s[..k] + s[k..][..BodyLength(s[k..])]
    ensures AfterBody(s) == AfterBody(s[k..])
  {
    SliceSteps(s, k, BodyLength(s[k..]));
    hide EscapeOutside;
  }

  lemma PrefixPair(s: string, rest: string)
    requires |s| > 1 && s[0] == '\\'
    ensures EscapeBody(s[..2] + rest) == ['\\', s[1]] + EscapeBody(rest)
    ensures EscapeInside(s) == ['\\', s[1]] + EscapeInside(s[2..])
  {
    assert s[..2] == ['\\', s[1]];
    assert s == ['\\', s[1]] + s[2..];
    hide *;
    Pair(s[1], rest);
    Pair(s[1], s[2..]);
  }

  lemma PrefixChar(s: string, rest: string)
    requires s != [] && s[0] != '"' && s[0] != '\\'
    ensures EscapeBody(s[..1] + rest) == EscapeChar(s[0]) + EscapeBody(rest)
    ensures EscapeInside(s) == EscapeChar(s[0]) + EscapeInside(s[1..])
  {
    assert (s[..1] + rest)[1..] == rest;
  }

  /** A literal is rewritten body for body, and ends where it ended. */
  lemma {:induction false} InsideByBody(s: string)
    ensures EscapeInside(s) == EscapeBody(s[..BodyLength(s)]) + AfterBody(s)
    ensures BodyLength(EscapeInside(s)) == |EscapeBody(s[..BodyLength(s)])|
    decreases |s|
  {
    if s == [] || s[0] == '"' {
      assert s[..0] == [];
      assert s != [] ==> "\"" == [s[0]];
    } else if s == "\\" {
      assert s[..1] == s && s[1..] == "";
    } else {
      hide *;
      BodySteps(s, if s[0] == '\\' then 2 else 1);
      if s[0] == '\\' {
        InsideByBody(s[2..]);
        PrefixPair(s, s[2..][..BodyLength(s[2..])]);
        Assoc(['\\', s[1]], EscapeBody(s[2..][..BodyLength(s[2..])]), AfterBody(s[2..]));
        Pair(s[1], EscapeInside(s[2..]));
      } else {
        InsideByBody(s[1..]);
        PrefixChar(s, s[1..][..BodyLength(s[1..])]);
        Assoc(EscapeChar(s[0]), EscapeBody(s[1..][..BodyLength(s[1..])]), AfterBody(s[1..]));
        EscapedCharReads(s[0], EscapeInside(s[1..]));
      }
    }
  }

  lemma {:induction false} OutsideByQuote(s: string)
    ensures var q := IndexOf(s, '"');
            EscapeOutside(s) == s[..q] + if q < |s| then "\"" + EscapeInside(s[q + 1..]) else ""
  {
    hide EscapeOutside, EscapeInside;
    if s == [] {
      OutsideNothing();
    } else {
      OutsideStep(s);
      var q, rest := IndexOf(s, '"'), s[1..];
      if s[0] != '"' {
        OutsideByQuote(rest);
        assert q == IndexOf(rest, '"') + 1;
        hide IndexOf;
        var tail := if q < |s| then "\"" + EscapeInside(s[q + 1..]) else "";
        assert q < |s| ==> rest[q..] == s[q + 1..];
        assert EscapeOutside(rest) == rest[..q - 1] + tail;
        HeadAndRest(s, q, tail);
      } else {
        assert q == 0;
        hide IndexOf;
        assert s[..0] + ("\"" + EscapeInside(rest)) == [s[0]] + EscapeInside(rest);
      }
    }
  }

  lemma HeadAndRest(s: string, q: nat, tail: string)
    requires 0 < q <= |s|
    ensures [s[0]] + (s[1..][..q - 1] + tail) == s[..q] + tail
  {
    assert s[..q] == [s[0]] + s[1..][..q - 1];
  }

  lemma OutsideNothing()
    ensures EscapeOutside("") == ""
  {
  }

  lemma OutsideStep(s: string)
    requires s != []
    ensures EscapeOutside(s) == [s[0]] + if s[0] == '"' then EscapeInside(s[1..]) else EscapeOutside(s[1..])
  {
  }

  /** The parts of the rewritten text. */
  lemma RewrittenParts(s: string)
    ensures var q, e := IndexOf(s, '"'), EscapeOutside(s);
            && IndexOf(e, '"') == q <= |e| && e[..q] == s[..q]
            && (q == |s| <==> q == |e|)
            && (q < |s| ==> e[q + 1..] == EscapeInside(s[q + 1..]))
  {
    var q, e := IndexOf(s, '"'), EscapeOutside(s);
    OutsideByQuote(s);
    assert forall k :: 0 <= k < q ==> s[..q][k] != '"';
    assert forall k :: 0 <= k < q ==> e[k] == s[..q][k];
    IndexOfIs(e, '"', q);
  }

  lemma EscapeSpansCons(a: Span, rest: seq<Span>)
    ensures EscapeSpans([a] + rest) == [EscapeSpan(a)] + EscapeSpans(rest)
    ensures EscapeSpans([a]) == [EscapeSpan(a)]
  {
    assert ([a] + rest)[1..] == rest;
  }

  /** The rewriting changes nothing outside literals, keeps every literal's
    * boundaries, and rewrites each body on its own.
    */
  lemma {:induction false} EscapesSpanBySpan(s: string)
    ensures Spans(EscapeOutside(s)) == EscapeSpans(Spans(s))
    decreases |s|
  {
    var q := IndexOf(s, '"');
    RewrittenParts(s);
    hide EscapeOutside, EscapeInside, EscapeSpans, LiteralSpans;
    if q == |s| {
      assert EscapeOutside(s) == s;
      EscapeSpansCons(Outside(s), []);
    } else {
      EscapesLiteral(s[q + 1..]);
      EscapeSpansCons(Outside(s[..q]), LiteralSpans(s[q + 1..]));
    }
  }

  lemma {:induction false} EscapesLiteral(x: string)
    ensures LiteralSpans(EscapeInside(x)) == EscapeSpans(LiteralSpans(x))
    decreases |x|
  {
    var n := BodyLength(x);
    InsideByBody(x);
    hide EscapeOutside, EscapeInside, EscapeSpans, EscapeBody, Spans, BodyLength;
    if n == |x| {
      assert x[..n] == x && EscapeBody(x) + "" == EscapeBody(x);
      EscapeSpansCons(Unclosed(x), []);
    } else {
      var body, rest := EscapeBody(x[..n]), EscapeOutside(x[n + 1..]);
      LiteralParts(body, rest);
      EscapesSpanBySpan(x[n + 1..]);
      EscapeSpansCons(Literal(x[..n]), Spans(x[n + 1..]));
    }
  }

  lemma LiteralParts(body: string, rest: string)
    ensures var y := body + ("\"" + rest);
            y[..|body|] == body && y[|body| + 1..] == rest
  {
  }

  function SpansText(spans: seq<Span>): string {
    if spans == [] then "" else SpanText(spans[0]) + SpansText(spans[1..])
  }

  /** The spans are the whole text. */
  lemma {:induction false} SpansCover(s: string)
    ensures SpansText(Spans(s)) == s
    decreases |s|
  {
    var q := IndexOf(s, '"');
    hide LiteralSpans;
    if q == |s| {
      assert [Outside(s)][1..] == [];
    } else {
      LiteralSpansCover(s[q + 1..]);
      var rest := LiteralSpans(s[q + 1..]);
      assert ([Outside(s[..q])] + rest)[1..] == rest;
      AroundQuote(s, q);
    }
  }

  lemma AroundQuote(s: string, q: nat)
    requires q < |s| && s[q] == '"'
    ensures s == s[..q] + ("\"" + s[q + 1..])
    ensures "\"" + s == "\"" + s[..q] + "\"" + s[q + 1..]
  {
  }

  lemma {:induction false} LiteralSpansCover(s: string)
    ensures SpansText(LiteralSpans(s)) == "\"" + s
    decreases |s|
  {
    var n := BodyLength(s);
    hide Spans, BodyLength;
    if n == |s| {
      assert [Unclosed(s)][1..] == [];
    } else {
      SpansCover(s[n + 1..]);
      var rest := Spans(s[n + 1..]);
      assert ([Literal(s[..n])] + rest)[1..] == rest;
      AroundQuote(s, n);
    }
  }

  // ----- decoded values

  predicate IsOtherControl(c: char) {
    c < ' ' && c != '\n' && c != '\r' && c != '\t'
  }

  /** Raw control characters of a body, other than newline, return and tab, and
    * not directly after an escaping backslash.
    */
  function OtherControls(s: string): nat
    decreases |s|
  {
    if s == [] then 0
    else if s[0] == '\\' then if |s| == 1 then 0 else OtherControls(s[2..])
    else (if IsOtherControl(s[0]) then 1 else 0) + OtherControls(s[1..])
  }

  lemma {:induction false} DecodedLength(s: string)
    requires BodyLength(s) == |s|
    ensures |Unescape(EscapeBody(s))| == |Unescape(s)| + 5 * OtherControls(s)
    ensures OtherControls(s) == 0 ==> Unescape(EscapeBody(s)) == Unescape(s)
    decreases |s|
  {
    if s == [] || s == "\\" {
    } else if s[0] == '\\' {
      DecodedLength(s[2..]);
      Pair(s[1], EscapeBody(s[2..]));
    } else {
      DecodedLength(s[1..]);
      EscapedCharReads(s[0], EscapeBody(s[1..]));
    }
  }

  /** A literal decodes to the same value exactly when it has no raw control
    * character other than newline, return and tab: those become a `\u` escape,
    * which the lenient decoder does not resolve.
    */
  lemma DecodedValueKept(s: string)
    requires BodyLength(s) == |s|
    ensures Unescape(EscapeBody(s)) == Unescape(s) <==> OtherControls(s) == 0
  {
    DecodedLength(s);
  }

  /** One input for which the value changes. */
  lemma DecodedValueCanChange()
    ensures Unescape(EscapeBody([1 as char])) != Unescape([1 as char])
  {
    assert OtherControls([1 as char]) == 1;
    DecodedValueKept([1 as char]);
  }

  /** Raw control characters a JSON parser would refuse. */
  function RawControls(s: string): nat
    decreases |s|
  {
    if s == [] then 0
    else if s[0] == '\\' then if |s| == 1 then 0 else RawControls(s[2..])
    else (if s[0] < ' ' then 1 else 0) + RawControls(s[1..])
  }

  lemma {:induction false} PlainRunRaw(w: string, t: string)
    requires forall i :: 0 <= i < |w| ==> IsPlain(w[i])
    ensures RawControls(w + t) == RawControls(t)
  {
    if w == [] {
      assert w + t == t;
    } else {
      PlainRunRaw(w[1..], t);
      assert (w + t)[1..] == w[1..] + t;
    }
  }

  lemma PairRaw(x: char, t: string)
    ensures RawControls(['\\', x] + t) == RawControls(t)
  {
    assert (['\\', x] + t)[2..] == t;
  }

  /** No raw control character is left, but for one kept after a backslash. */
  lemma {:induction false} NoRawControlsLeft(s: string)
    ensures RawControls(EscapeBody(s)) == 0
    decreases |s|
  {
    if s == [] || s == "\\" {
    } else if s[0] == '\\' {
      NoRawControlsLeft(s[2..]);
      PairRaw(s[1], EscapeBody(s[2..]));
    } else {
      NoRawControlsLeft(s[1..]);
      var c, t := s[0], EscapeBody(s[1..]);
      if IsOtherControl(c) {
        var w := HexText(c);
        PairAssoc(w, t);
        PairRaw('u', w + t);
        PlainRunRaw(w, t);
      } else if c < ' ' {
        PairRaw(EscapeChar(c)[1], t);
      } else {
        assert ([c] + t)[1..] == t;
      }
    }
  }
}
