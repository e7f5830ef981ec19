/** Escaping the raw control characters a model leaves inside JSON strings, and
  * resolving escapes leniently.
  */
module StringEscape {
  import opened TextLines

  function HexDigit(n: nat): char
    requires n < 16
  {
    if n < 10 then ('0' as int + n) as char else ('a' as int + n - 10) as char
  }

  /** What replaces one raw character of a string body. */
  function EscapeChar(c: char): string {
    if c == '\n' then "\\n"
    else if c == '\r' then "\\r"
    else if c == '\t' then "\\t"
    else if c < ' ' then "\\u00" + [HexDigit(c as int / 16), HexDigit(c as int % 16)]
    else [c]
  }

  /** The rewriting from outside a string literal. */
  function EscapeOutside(s: string): string
    decreases |s|
  {
    if s == [] then ""
    else [s[0]] + if s[0] == '"' then EscapeInside(s[1..]) else EscapeOutside(s[1..])
  }

  /** The rewriting from inside a string literal. */
  function EscapeInside(s: string): string
    decreases |s|
  {
    if s == [] then ""
    else if s[0] == '"' then [s[0]] + EscapeOutside(s[1..])
    else if s[0] == '\\' then [s[0]] + EscapeAfterBackslash(s[1..])
    else EscapeChar(s[0]) + EscapeInside(s[1..])
  }

  /** The character after a backslash is kept, whatever it is. */
  function EscapeAfterBackslash(s: string): string
    decreases |s|
  {
    if s == [] then "" else [s[0]] + EscapeInside(s[1..])
  }

  /** The rewriting in one of the three states of the scanner. */
  function EscapeIn(inStr: bool, escaped: bool, s: string): string {
    if !inStr then EscapeOutside(s) else if escaped then EscapeAfterBackslash(s) else EscapeInside(s)
  }

  method EscapeRawControlCharsInStrings(json: string) returns (out: string)
    ensures out == EscapeOutside(json)
  {
    out := "";
    var inStr, escaped := false, false;
    assert json[0..] == json;
    for i := 0 to |json|
      invariant escaped ==> inStr
      invariant out + EscapeIn(inStr, escaped, json[i..]) == EscapeOutside(json)
    {
      var ch := json[i];
      assert json[i..][0] == ch && json[i..][1..] == json[i + 1..];
      EscapeStep(out, inStr, escaped, json[i..]);
      hide EscapeIn, EscapeOutside;
      if inStr {
        if escaped {
          escaped := false;
          out := out + [ch];
          continue;
        }
        match ch {
          case '\\' =>
            escaped := true;
            out := out + [ch];
          case '"' =>
            inStr := false;
            out := out + [ch];
          case c =>
            out := out + EscapeChar(c);
        }
      } else {
        if ch == '"' {
          inStr := true;
        }
        out := out + [ch];
      }
    }
    assert json[|json|..] == [];
  }

  /** One character, in each of the scanner's states. */
  lemma EscapeStep(out: string, inStr: bool, escaped: bool, s: string)
    requires s != [] && (escaped ==> inStr)
    ensures var c := s[0];
            out + EscapeIn(inStr, escaped, s)
            == if inStr && !escaped && c != '\\' && c != '"' then
                 out + EscapeChar(c) + EscapeIn(true, false, s[1..])
               else
                 out + [c] + EscapeIn(if inStr then escaped || c == '\\' else c == '"',
                                      inStr && !escaped && c == '\\', s[1..])
  {
    hide EscapeOutside, EscapeInside, EscapeAfterBackslash, EscapeChar;
    var c := s[0];
    StateSteps(s);
    Assoc(out, [c], EscapeOutside(s[1..]));
    Assoc(out, [c], EscapeInside(s[1..]));
    Assoc(out, [c], EscapeAfterBackslash(s[1..]));
    Assoc(out, EscapeChar(c), EscapeInside(s[1..]));
  }

  lemma Assoc(x: string, y: string, z: string)
    ensures x + (y + z) == x + y + z
  {
  }

  lemma StateSteps(s: string)
    requires s != []
    ensures EscapeOutside(s) == [s[0]] + if s[0] == '"' then EscapeInside(s[1..]) else EscapeOutside(s[1..])
    ensures EscapeAfterBackslash(s) == [s[0]] + EscapeInside(s[1..])
    ensures EscapeInside(s)
         == if s[0] == '"' then [s[0]] + EscapeOutside(s[1..])
            else if s[0] == '\\' then [s[0]] + EscapeAfterBackslash(s[1..])
            else EscapeChar(s[0]) + EscapeInside(s[1..])
  {
  }

  // ----- literals

  /** Length of the literal body that starts `s`: up to its unescaped quote. */
  function BodyLength(s: string): (n: nat)
    ensures n <= |s|
    ensures n < |s| ==> s[n] == '"'
    decreases |s|
  {
    if s == [] || s[0] == '"' then 0
    else if s[0] == '\\' then if |s| == 1 then 1 else 2 + BodyLength(s[2..])
    else 1 + BodyLength(s[1..])
  }

  datatype Span = Outside(text: string) | Literal(body: string) | Unclosed(body: string)

  /** A text as the stretches outside literals and the literal bodies. */
  function Spans(s: string): seq<Span>
    decreases |s|
  {
    var q := IndexOf(s, '"');
    if q == |s| then [Outside(s)] else [Outside(s[..q])] + LiteralSpans(s[q + 1..])
  }

  /** A text that starts inside a literal. */
  function LiteralSpans(s: string): seq<Span>
    decreases |s|
  {
    var n := BodyLength(s);
    if n == |s| then [Unclosed(s)] else [Literal(s[..n])] + Spans(s[n + 1..])
  }

  function SpanText(span: Span): string {
    match span
    case Outside(text) => text
    case Literal(body) => "\"" + body + "\""
    case Unclosed(body) => "\"" + body
  }

  /** The rewriting of one literal body. */
  function EscapeBody(s: string): string
    decreases |s|
  {
    if s == [] then ""
    else if s[0] == '\\' then if |s| == 1 then "\\" else ['\\', s[1]] + EscapeBody(s[2..])
    else EscapeChar(s[0]) + EscapeBody(s[1..])
  }

  function EscapeSpan(span: Span): Span {
    match span
    case Outside(text) => Outside(text)
    case Literal(body) => Literal(EscapeBody(body))
    case Unclosed(body) => Unclosed(EscapeBody(body))
  }

  function EscapeSpans(spans: seq<Span>): seq<Span> {
    if spans == [] then [] else [EscapeSpan(spans[0])] + EscapeSpans(spans[1..])
  }

  // ----- lenient unescaping

  function Resolve(c: char): string {
    if c == 'n' then "\n" else if c == 't' then "\t" else if c == 'r' then "\r"
    else if c == '"' || c == '\\' || c == '/' then [c]
    else ['\\', c]
  }

  function Unescape(s: string): string
    decreases |s|
  {
    if s == [] then ""
    else if s[0] != '\\' then [s[0]] + Unescape(s[1..])
    else if |s| == 1 then "\\"
    else Resolve(s[1]) + Unescape(s[2..])
  }

  lemma UnescapeNothing()
    ensures Unescape("") == ""
  {
  }

  /** What is written for one character or one escape, before the rest. */
  lemma UnescapeStep(s: string, i: nat, out: string)
    requires i < |s|
    ensures out + Unescape(s[i..])
         == if s[i] != '\\' then out + [s[i]] + Unescape(s[i + 1..])
            else if i + 1 == |s| then out + "\\"
            else out + Resolve(s[i + 1]) + Unescape(s[i + 2..])
  {
    var t := s[i..];
    assert t[1..] == s[i + 1..];
    if s[i] != '\\' {
      assert out + ([s[i]] + Unescape(t[1..])) == out + [s[i]] + Unescape(t[1..]);
    } else if i + 1 < |s| {
      assert t[2..] == s[i + 2..];
      assert out + (Resolve(t[1]) + Unescape(t[2..])) == out + Resolve(t[1]) + Unescape(t[2..]);
    }
  }

  method UnescapeJsonStringLenient(s: string) returns (out: string)
    ensures out == Unescape(s)
  {
    hide Unescape;
    out := "";
    var i := 0;
    assert s[0..] == s;
    UnescapeNothing();
    while i < |s|
      invariant i <= |s|
      invariant out + Unescape(s[i..]) == Unescape(s)
    {
      var c := s[i];
      UnescapeStep(s, i, out);
      if c != '\\' {
        out := out + [c];
        i := i + 1;
        continue;
      }
      if i + 1 == |s| {
        return out + "\\";
      }
      var next := s[i + 1];
      match next {
        case 'n' => out := out + "\n";
        case 't' => out := out + "\t";
        case 'r' => out := out + "\r";
        case '"' => out := out + "\"";
        case '\\' => out := out + "\\";
        case '/' => out := out + "/";
        case other => out := out + ['\\', other];
      }
      i := i + 2;
    }
    assert s[|s|..] == [];
  }
}
