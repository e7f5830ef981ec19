/** The recogniser of object tails accepts exactly a grammar: white space, then
  * members with plain keys and scalar values, each after a comma, then the
  * closing brace and anything, or the end of the text.
  */
module TailGrammar {
  import opened Basics
  import opened TextTrim
  import opened JsonText
  import opened ObjectTail
  import opened ClosingQuote

  datatype Scalar = Quoted(body: string) | Bare(text: string)

  datatype Member = Member(ws1: string, key: string, ws2: string, ws3: string, value: Scalar, ws4: string)

  predicate AllSpace(s: string) {
    forall i :: 0 <= i < |s| ==> IsWhitespace(s[i])
  }

  /** Text that does not start with white space. */
  predicate Firm(s: string) {
    s != [] ==> !IsWhitespace(s[0])
  }

  predicate PlainKey(key: string) {
    '"' !in key && '\\' !in key
  }

  /** A literal that ends where the recogniser looks for its end. */
  predicate BareOk(text: string, ws: string) {
    && IsScalarLiteral(text) && Firm(text) && text[0] != '"'
    && (forall i :: 0 <= i < |text| ==> text[i] !in ",} \t\n\r")
    && (ws != [] ==> ws[0] in ",} \t\n\r")
  }

  predicate ScalarOk(v: Scalar, ws: string) {
    match v
    case Quoted(body) => ClosedBody(body)
    case Bare(text) => BareOk(text, ws)
  }

  predicate MemberOk(m: Member) {
    && AllSpace(m.ws1) && PlainKey(m.key) && AllSpace(m.ws2) && AllSpace(m.ws3)
    && ScalarOk(m.value, m.ws4) && AllSpace(m.ws4)
  }

  function Quote(body: string, after: string): string {
    "\"" + (body + ("\"" + after))
  }

  function FromValue(v: Scalar, ws: string, rest: string): string {
    match v
    case Quoted(body) => Quote(body, ws + rest)
    case Bare(text) => text + (ws + rest)
  }

  function FromColon(m: Member, rest: string): string { ":" + (m.ws3 + FromValue(m.value, m.ws4, rest)) }

  function FromKey(m: Member, rest: string): string { Quote(m.key, m.ws2 + FromColon(m, rest)) }

  function FromComma(m: Member, rest: string): string { "," + (m.ws1 + FromKey(m, rest)) }

  function MembersText(ms: seq<Member>, end: string): string {
    if ms == [] then end else FromComma(ms[0], MembersText(ms[1..], end))
  }

  /** The end of the text, or the closing brace and whatever follows it. */
  predicate IsEnd(end: string) {
    end == [] || end[0] == '}'
  }

  predicate MembersOk(ms: seq<Member>) {
    forall i :: 0 <= i < |ms| ==> MemberOk(ms[i])
  }

  /** The grammar of a tail. */
  predicate IsTail(s: string, ws0: string, ms: seq<Member>, end: string) {
    AllSpace(ws0) && MembersOk(ms) && IsEnd(end) && s == ws0 + MembersText(ms, end)
  }

  // ----- reading what the grammar writes

  lemma {:induction false} TrimSpace(ws: string, rest: string)
    requires AllSpace(ws) && Firm(rest)
    ensures TrimStart(ws + rest) == rest
  {
    if ws == [] {
      assert ws + rest == rest;
    } else {
      assert (ws + rest)[1..] == ws[1..] + rest;
      TrimSpace(ws[1..], rest);
    }
  }

  lemma {:induction false} UntilAt(s: string, stop: char -> bool, n: nat)
    requires n <= |s| && (n < |s| ==> stop(s[n]))
    requires forall i :: 0 <= i < n ==> !stop(s[i])
    ensures Until(s, stop) == n
  {
    if n > 0 {
      UntilAt(s[1..], stop, n - 1);
    }
  }

  lemma QuoteParts(body: string, after: string)
    ensures var s := Quote(body, after);
            && |s| == |body| + |after| + 2 && s[0] == '"' && s[|body| + 1] == '"'
            && s[1..] == body + ("\"" + after) && s[|body| + 2..] == after
  {
  }

  /** The close scan, entered in the middle of a body. */
  lemma {:induction false} CloseScan(s: string, k: nat, n: nat)
    requires k <= n < |s| && s[n] == '"' && !EscapedAt(s, n)
    requires forall i :: k <= i < n && s[i] == '"' ==> EscapedAt(s, i)
    ensures CloseAt(s[k..], EscapedAt(s, k)) == Some(n - k)
    decreases n - k
  {
    if k < n {
      assert s[k..][1..] == s[k + 1..];
      CloseScan(s, k + 1, n);
    }
  }

  lemma CloseAfterBody(body: string, rest: string)
    requires ClosedBody(body)
    ensures CloseAt(body + ("\"" + rest), false) == Some(|body|)
  {
    var s := body + ("\"" + rest);
    EscapedInPrefix(body, "\"" + rest, |body|);
    forall i | 0 <= i < |body| && s[i] == '"' ensures EscapedAt(s, i) {
      EscapedInPrefix(body, "\"" + rest, i);
    }
    CloseScan(s, 0, |body|);
    assert s[0..] == s;
  }

  lemma QuotedReads(body: string, ws: string, rest: string)
    requires ClosedBody(body) && AllSpace(ws) && Firm(rest)
    ensures AfterValue(Quote(body, ws + rest)) == Some(rest)
  {
    QuoteParts(body, ws + rest);
    CloseAfterBody(body, ws + rest);
    TrimSpace(ws, rest);
    hide *;
    QuotedValue(Quote(body, ws + rest), |body|);
  }

  lemma QuotedValue(s: string, e: nat)
    requires s != [] && s[0] == '"' && CloseAt(s[1..], false) == Some(e)
    ensures e + 2 <= |s| && AfterValue(s) == Some(TrimStart(s[e + 2..]))
  {
    hide CloseAt, TrimStart, Until, IsScalarLiteral;
  }

  lemma BareStart(text: string, after: string)
    requires text != []
    ensures (text + after)[0] == text[0] && (text + after)[..|text|] == text && (text + after)[|text|..] == after
  {
  }

  lemma BareUntil(text: string, ws: string, rest: string)
    requires BareOk(text, ws) && (rest != [] ==> EndsLiteral(rest[0]))
    ensures Until(text + (ws + rest), EndsLiteral) == |text|
  {
    hide IsScalarLiteral, Firm, Until;
    UntilAt(text + (ws + rest), EndsLiteral, |text|);
  }

  lemma BareReads(text: string, ws: string, rest: string)
    requires BareOk(text, ws) && AllSpace(ws) && Firm(rest) && (rest != [] ==> EndsLiteral(rest[0]))
    ensures AfterValue(text + (ws + rest)) == Some(rest)
  {
    BareUntil(text, ws, rest);
    BareStart(text, ws + rest);
    TrimSpace(ws, rest);
    hide CloseAt, AllSpace, Firm, TrimStart, Until, IsScalarLiteral, EndsLiteral;
  }

  lemma ValueReads(v: Scalar, ws: string, rest: string)
    requires ScalarOk(v, ws) && AllSpace(ws)
    requires Firm(rest) && (rest != [] ==> EndsLiteral(rest[0]))
    ensures Firm(FromValue(v, ws, rest)) && AfterValue(FromValue(v, ws, rest)) == Some(rest)
  {
    hide AfterValue, ClosedBody, AllSpace, EndsLiteral, IsScalarLiteral, Quote;
    match v
    case Quoted(body) =>
      QuotedReads(body, ws, rest);
      QuoteParts(body, ws + rest);
    case Bare(text) =>
      EmptyIsNoLiteral();
      BareReads(text, ws, rest);
      BareStart(text, ws + rest);
  }

  lemma ColonReads(m: Member, rest: string)
    requires MemberOk(m) && Firm(rest) && (rest != [] ==> EndsLiteral(rest[0]))
    ensures Firm(FromColon(m, rest)) && AfterKey(FromColon(m, rest)) == Some(rest)
  {
    var value := FromValue(m.value, m.ws4, rest);
    ValueReads(m.value, m.ws4, rest);
    hide FromValue, AfterValue, ScalarOk, AllSpace, EndsLiteral, TrimStart;
    assert FromColon(m, rest)[1..] == m.ws3 + value;
    TrimSpace(m.ws3, value);
  }

  lemma KeyUntil(key: string, after: string)
    requires PlainKey(key)
    ensures Until(key + ("\"" + after), EndsKey) == |key|
  {
    UntilAt(key + ("\"" + after), EndsKey, |key|);
  }

  lemma QuotedKeyReads(key: string, after: string)
    requires PlainKey(key)
    ensures AfterMember(Quote(key, after)) == AfterKey(TrimStart(after))
  {
    KeyUntil(key, after);
    QuoteParts(key, after);
    hide AfterKey, PlainKey, EndsKey, TrimStart, Until, Quote;
    var s := Quote(key, after);
    assert s[1..][|key|] == s[|key| + 1];
  }

  lemma KeyReads(m: Member, rest: string)
    requires MemberOk(m) && Firm(rest) && (rest != [] ==> EndsLiteral(rest[0]))
    ensures Firm(FromKey(m, rest)) && AfterMember(FromKey(m, rest)) == Some(rest)
  {
    hide FromColon, AfterKey, AfterMember, ScalarOk, AllSpace, PlainKey, EndsLiteral, TrimStart, Quote;
    var after := m.ws2 + FromColon(m, rest);
    ColonReads(m, rest);
    QuoteParts(m.key, after);
    QuotedKeyReads(m.key, after);
    TrimSpace(m.ws2, FromColon(m, rest));
  }

  /** One member, from its comma on. */
  lemma CommaReads(m: Member, rest: string)
    requires MemberOk(m) && Firm(rest) && (rest != [] ==> EndsLiteral(rest[0])) && TailFrom(rest)
    ensures var s := FromComma(m, rest);
            Firm(s) && (s != [] ==> EndsLiteral(s[0])) && TailFrom(s)
  {
    hide FromKey, AfterMember, TrimStart, ScalarOk, AllSpace, PlainKey;
    KeyReads(m, rest);
    TrimSpace(m.ws1, FromKey(m, rest));
    CommaStep(m.ws1 + FromKey(m, rest), rest);
  }

  lemma CommaStep(t: string, rest: string)
    requires AfterMember(TrimStart(t)) == Some(rest) && TailFrom(rest)
    ensures var s := "," + t; Firm(s) && EndsLiteral(s[0]) && TailFrom(s)
  {
    hide AfterMember, TrimStart;
    assert ("," + t)[1..] == t;
  }

  lemma EndReads(end: string)
    requires IsEnd(end)
    ensures Firm(end) && (end != [] ==> EndsLiteral(end[0])) && TailFrom(end)
  {
  }

  lemma {:induction false} MembersRead(ms: seq<Member>, end: string)
    requires MembersOk(ms) && IsEnd(end)
    ensures var s := MembersText(ms, end);
            Firm(s) && (s != [] ==> EndsLiteral(s[0])) && TailFrom(s)
  {
    hide MemberOk, TailFrom, FromComma, Firm, EndsLiteral, IsEnd;
    if ms == [] {
      EndReads(end);
    } else {
      MembersRead(ms[1..], end);
      CommaReads(ms[0], MembersText(ms[1..], end));
    }
  }

  // ----- writing what was read

  lemma {:induction false} SplitSpace(s: string) returns (ws: string)
    ensures AllSpace(ws) && s == ws + TrimStart(s) && Firm(TrimStart(s))
  {
    TrimStartStep(s);
    hide TrimStart, IsWhitespace;
    ws := "";
    if s != [] && IsWhitespace(s[0]) {
      var t := SplitSpace(s[1..]);
      assert s == [s[0]] + s[1..] == [s[0]] + t + TrimStart(s[1..]);
      ws := [s[0]] + t;
    }
  }

  lemma TrimStartStep(s: string)
    ensures TrimStart(s) == if s != [] && IsWhitespace(s[0]) then TrimStart(s[1..]) else s
  {
    hide IsWhitespace;
  }

  lemma {:induction false} CloseIsClosed(s: string, k: nat, e: nat)
    requires k <= |s| && CloseAt(s[k..], EscapedAt(s, k)) == Some(e)
    ensures k + e < |s| && s[k + e] == '"' && !EscapedAt(s, k + e)
    ensures forall i :: k <= i < k + e && s[i] == '"' ==> EscapedAt(s, i)
    decreases |s| - k
  {
    if k < |s| && !(s[k] == '"' && !EscapedAt(s, k)) {
      assert s[k..][1..] == s[k + 1..];
      CloseIsClosed(s, k + 1, e - 1);
    }
  }

  lemma CutAt(s: string, e: nat)
    requires e < |s| && s[e] == '"'
    ensures s == s[..e] + s[e..] && s[e..] == "\"" + s[e + 1..]
  {
  }

  lemma ClosedBefore(s: string, e: nat)
    requires e < |s| && !EscapedAt(s, e)
    requires forall i :: 0 <= i < e && s[i] == '"' ==> EscapedAt(s, i)
    ensures ClosedBody(s[..e])
  {
    var body, t := s[..e], s[e..];
    assert s == body + t;
    EscapedInPrefix(body, t, e);
    forall i | 0 <= i < e && body[i] == '"' ensures EscapedAt(body, i) {
      EscapedInPrefix(body, t, i);
    }
  }

  lemma BodyBeforeClose(s: string, e: nat)
    requires CloseAt(s, false) == Some(e)
    ensures e < |s| && s == s[..e] + ("\"" + s[e + 1..]) && ClosedBody(s[..e])
  {
    assert s[0..] == s && !EscapedAt(s, 0);
    hide ClosedBody, CloseAt, EscapedAt;
    CloseIsClosed(s, 0, e);
    ClosedBefore(s, e);
    CutAt(s, e);
  }

  lemma QuotedWritten(s: string, rest: string) returns (body: string, ws: string)
    requires s != [] && s[0] == '"' && AfterValue(s) == Some(rest)
    ensures ClosedBody(body) && AllSpace(ws) && Firm(rest) && s == Quote(body, ws + rest)
  {
    hide CloseAt, ClosedBody, AllSpace, Firm, TrimStart, Until, IsScalarLiteral;
    var e := CloseAt(s[1..], false).value;
    BodyBeforeClose(s[1..], e);
    body := s[1..][..e];
    ws := SplitSpace(s[e + 2..]);
    assert s[1..][e + 1..] == s[e + 2..];
    assert s == "\"" + s[1..];
  }

  lemma LiteralBefore(s: string, e: nat, ws: string, rest: string)
    requires Firm(s) && (s != [] ==> s[0] != '"') && e == Until(s, EndsLiteral) && IsScalarLiteral(s[..e])
    requires s[e..] == ws + rest
    ensures BareOk(s[..e], ws) && s == s[..e] + (ws + rest)
  {
    hide IsScalarLiteral, Until;
    assert s[..e] != [] by { EmptyIsNoLiteral(); }
    assert s == s[..e] + s[e..];
    assert ws != [] ==> ws[0] == s[e];
  }

  lemma EmptyIsNoLiteral()
    ensures !IsScalarLiteral([])
  {
  }

  lemma BareWritten(s: string, rest: string) returns (text: string, ws: string)
    requires Firm(s) && (s != [] ==> s[0] != '"') && AfterValue(s) == Some(rest)
    ensures BareOk(text, ws) && AllSpace(ws) && Firm(rest) && s == text + (ws + rest)
  {
    hide CloseAt, BareOk, AllSpace, Firm, TrimStart, Until, IsScalarLiteral, EndsLiteral;
    var e := Until(s, EndsLiteral);
    ws := SplitSpace(s[e..]);
    text := s[..e];
    LiteralBefore(s, e, ws, rest);
  }

  lemma ValueWritten(s: string, rest: string) returns (v: Scalar, ws: string)
    requires Firm(s) && AfterValue(s) == Some(rest)
    ensures ScalarOk(v, ws) && AllSpace(ws) && Firm(rest) && s == FromValue(v, ws, rest)
  {
    hide AfterValue, ClosedBody, BareOk, AllSpace, Firm, Quote;
    if s != [] && s[0] == '"' {
      var body, space := QuotedWritten(s, rest);
      v, ws := Quoted(body), space;
    } else {
      var text, space := BareWritten(s, rest);
      v, ws := Bare(text), space;
    }
  }

  lemma ColonWritten(s: string, rest: string) returns (ws3: string, v: Scalar, ws4: string)
    requires AfterKey(s) == Some(rest)
    ensures AllSpace(ws3) && ScalarOk(v, ws4) && AllSpace(ws4) && Firm(rest)
    ensures s == ":" + (ws3 + FromValue(v, ws4, rest))
  {
    hide AfterValue, ScalarOk, AllSpace, Firm, FromValue, TrimStart;
    ws3 := SplitSpace(s[1..]);
    v, ws4 := ValueWritten(TrimStart(s[1..]), rest);
    assert s == ":" + s[1..];
  }

  lemma KeyBefore(s: string, k: nat)
    requires s != [] && s[0] == '"' && k == Until(s[1..], EndsKey) && k < |s| - 1 && s[1..][k] == '"'
    ensures PlainKey(s[1..][..k]) && s == Quote(s[1..][..k], s[k + 2..])
  {
    hide Until;
    var t := s[1..];
    CutAt(t, k);
    assert t[k + 1..] == s[k + 2..];
    assert s == "\"" + t;
  }

  lemma KeyWritten(s: string, ws1: string, rest: string) returns (m: Member)
    requires AllSpace(ws1) && AfterMember(s) == Some(rest)
    ensures MemberOk(m) && m.ws1 == ws1 && Firm(rest) && s == FromKey(m, rest)
  {
    hide AfterKey, ScalarOk, AllSpace, Firm, FromValue, TrimStart, Until, EndsKey, PlainKey, Quote;
    var k := Until(s[1..], EndsKey);
    KeyBefore(s, k);
    var ws2 := SplitSpace(s[k + 2..]);
    var ws3, v, ws4 := ColonWritten(TrimStart(s[k + 2..]), rest);
    m := Member(ws1, s[1..][..k], ws2, ws3, v, ws4);
  }

  lemma CommaWritten(s: string) returns (m: Member, rest: string)
    requires s != [] && s[0] != '}' && TailFrom(s)
    ensures MemberOk(m) && |rest| < |s| && TailFrom(rest) && s == FromComma(m, rest)
  {
    hide AfterMember, MemberOk, FromKey, TrimStart, AllSpace;
    var t := s[1..];
    assert s == "," + t;
    rest := AfterMember(TrimStart(t)).value;
    var ws1 := SplitSpace(t);
    m := KeyWritten(TrimStart(t), ws1, rest);
  }

  lemma {:induction false} MembersWritten(s: string) returns (ms: seq<Member>, end: string)
    requires TailFrom(s)
    ensures MembersOk(ms) && IsEnd(end) && s == MembersText(ms, end)
    decreases |s|
  {
    hide MemberOk, TailFrom, FromComma;
    if IsEnd(s) {
      ms, end := [], s;
    } else {
      var m, rest := CommaWritten(s);
      var more, e := MembersWritten(rest);
      ms, end := [m] + more, e;
      assert ms[1..] == more;
    }
  }

  /** The recogniser accepts exactly the grammar. */
  lemma RecogniserIsGrammar(s: string)
    ensures IsObjectTail(s) <==> exists ws0, ms, end :: IsTail(s, ws0, ms, end)
  {
    hide TailFrom, MembersOk, IsEnd, AllSpace, MembersText, TrimStart;
    if IsObjectTail(s) {
      var ws0 := SplitSpace(s);
      var ms, end := MembersWritten(TrimStart(s));
      assert IsTail(s, ws0, ms, end);
    }
    forall ws0, ms, end | IsTail(s, ws0, ms, end) ensures IsObjectTail(s) {
      MembersRead(ms, end);
      TrimSpace(ws0, MembersText(ms, end));
    }
  }

  /** Whatever the key order: a properly escaped string value, followed by its
    * quote and any list of scalar members, ends at its own quote.
    */
  lemma SalvagedValueEndsAtItsQuote(body: seq<Piece>, ws0: string, ms: seq<Member>, end: string, r: Option<nat>)
    requires PiecesOk(body) && AllSpace(ws0) && MembersOk(ms) && IsEnd(end)
    requires IsAnswer(BodyText(body) + "\"" + (ws0 + MembersText(ms, end)), r)
    ensures r == Some(|BodyText(body)|)
  {
    hide IsAnswer, IsObjectTail, MembersOk, IsEnd, AllSpace, MembersText, PiecesOk, BodyText;
    var tail := ws0 + MembersText(ms, end);
    assert IsTail(tail, ws0, ms, end);
    RecogniserIsGrammar(tail);
    EscapedBodysOwnCloser(body, tail, r);
  }

  // ----- raw quotes inside a body

  /** A quote inside a body that a grammatical rest of the object follows. */
  predicate MimicsTheEnd(body: string, tail: string, j: nat)
    requires j < |body|
  {
    body[j] == '"' && !EscapedAt(body, j) && IsObjectTail(body[j + 1..] + ("\"" + tail))
  }

  lemma CloserInside(body: string, tail: string, j: nat)
    requires j < |body|
    ensures IsCloser(body + ("\"" + tail), j) <==> MimicsTheEnd(body, tail, j)
  {
    hide IsObjectTail, BackslashRun;
    var text := body + ("\"" + tail);
    assert text[j + 1..] == body[j + 1..] + ("\"" + tail);
    EscapedInPrefix(body, "\"" + tail, j);
    OddRunIsEscaped(text, j);
  }

  lemma OwnQuoteIs(body: string, tail: string)
    requires IsObjectTail(tail)
    ensures IsCloser(body + ("\"" + tail), |body|) <==> !EscapedAt(body, |body|)
  {
    hide IsObjectTail, BackslashRun;
    var text := body + ("\"" + tail);
    assert text[|body| + 1..] == tail;
    EscapedInPrefix(body, "\"" + tail, |body|);
    OddRunIsEscaped(text, |body|);
  }

  /** Any body, with raw quotes in it too: it ends at its own quote exactly when
    * that quote is not escaped and no quote inside mimics the end.
    */
  lemma RawBodyEndsExactlyWhen(body: string, tail: string, r: Option<nat>)
    requires IsObjectTail(tail) && IsAnswer(body + "\"" + tail, r)
    ensures r == Some(|body|)
       <==> !EscapedAt(body, |body|) && forall j :: 0 <= j < |body| ==> !MimicsTheEnd(body, tail, j)
  {
    var text := body + ("\"" + tail);
    assert body + "\"" + tail == text;
    hide IsObjectTail, IsCloser, MimicsTheEnd, IsAnswer, EscapedAt;
    OwnQuoteIs(body, tail);
    forall j | 0 <= j < |body| ensures IsCloser(text, j) <==> MimicsTheEnd(body, tail, j) {
      CloserInside(body, tail, j);
    }
    AnswerAt(text, |body|, r);
  }

  lemma AnswerAt(text: string, i: nat, r: Option<nat>)
    requires i < |text| && IsAnswer(text, r)
    requires text[i] == '"' && IsObjectTail(text[i + 1..])
    ensures r == Some(i) <==> IsCloser(text, i) && forall j :: 0 <= j < i ==> !IsCloser(text, j)
  {
    hide IsObjectTail, BackslashRun, IsCloser;
    if r == Some(i) && !IsCloser(text, i) {
      FallbackIsCloser(text, i);
    }
  }

  /** Before an object tail, a bare quote is a closer. */
  lemma FallbackIsCloser(text: string, i: nat)
    requires i < |text| && IsObjectTail(text[i + 1..])
    ensures IsFallback(text, i) ==> IsCloser(text, i)
  {
    hide IsObjectTail, BackslashRun, TrimStart;
  }

  /** The value `a","path":"b` before the member `"tool"`: cut after the `a`. */
  lemma RawEnvelopeIsMistaken(r: Option<nat>)
    requires IsAnswer("a\",\"path\":\"b" + "\"" + ",\"tool\":\"w\"}", r)
    ensures r == Some(1)
  {
    var path, tool := Member("", "path", "", "", Quoted("b"), ""), Member("", "tool", "", "", Quoted("w"), "");
    ScalarMember("path", 'b');
    ScalarMember("tool", 'w');
    var ms := [path, tool];
    hide IsAnswer, MemberOk;
    assert MembersOk(ms);
    MistakenText();
    PlainA();
    SalvagedValueEndsAtItsQuote([Plain('a')], "", ms, "}", r);
  }

  lemma ScalarMember(key: string, c: char)
    requires key == "path" || key == "tool"
    requires c == 'b' || c == 'w'
    ensures MemberOk(Member("", key, "", "", Quoted([c]), ""))
  {
    assert ClosedBody([c]) by {
      assert !EscapedAt([c], 0) && !EscapedAt([c], 1);
    }
  }

  lemma PlainA()
    ensures PiecesOk([Plain('a')]) && BodyText([Plain('a')]) == "a"
  {
    assert [Plain('a')][1..] == [];
    assert "a" + "" == "a";
  }

  lemma MemberText(key: string, c: char, rest: string)
    ensures FromComma(Member("", key, "", "", Quoted([c]), ""), rest) == ",\"" + (key + ("\":\"" + ([c] + ("\"" + rest))))
  {
    var m := Member("", key, "", "", Quoted([c]), "");
    assert "" + rest == rest;
    var value := Quote([c], rest);
    assert FromValue(m.value, "", rest) == value && "" + value == value;
    var colon := ":" + value;
    assert FromColon(m, rest) == colon && "" + colon == colon;
    var quoted := Quote(key, colon);
    assert FromKey(m, rest) == quoted && "" + quoted == quoted;
    hide FromValue, FromColon, FromKey;
    assert "\"" + colon == "\":\"" + ([c] + ("\"" + rest));
    assert "," + quoted == ",\"" + (key + ("\"" + colon));
  }

  lemma TwoMembersText(a: Member, b: Member, end: string)
    ensures MembersText([a, b], end) == FromComma(a, FromComma(b, end))
  {
    assert [a, b][1..] == [b] && [b][1..] == [];
    hide FromComma;
    assert MembersText([b], end) == FromComma(b, end);
  }

  lemma MistakenText()
    ensures var path, tool := Member("", "path", "", "", Quoted("b"), ""), Member("", "tool", "", "", Quoted("w"), "");
            "a" + "\"" + ("" + MembersText([path, tool], "}")) == "a\",\"path\":\"b" + "\"" + ",\"tool\":\"w\"}"
  {
    var path, tool := Member("", "path", "", "", Quoted("b"), ""), Member("", "tool", "", "", Quoted("w"), "");
    TwoMembersText(path, tool, "}");
    hide *;
    MemberText("tool", 'w', "}");
    MemberText("path", 'b', FromComma(tool, "}"));
  }
}
