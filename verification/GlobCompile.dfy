/** Translating glob text to regex text in one pass. */
module GlobCompile {
  import opened Basics
  import opened TextLines
  import opened GlobSyntax
  import opened Regex

  datatype GlobError = EmptyPattern | UnmatchedClose | UnmatchedOpen | UnmatchedBracket

  datatype Result<+T> = Ok(value: T) | Err(error: GlobError)

  /** `regex::escape` on one character. */
  function Escape(c: char): string {
    if IsMeta(c) then ['\\', c] else [c]
  }

  /** The regex text of one token, `depth` braces being open before it. */
  function EmitToken(t: Token, depth: nat): string {
    match t
    case TStar => "[^/]*"
    case TDoubleStar => ".*"
    case TDoubleStarSlash => "(?:.*/)?"
    case TQuest => "[^/]"
    case TOpen => "(?:"
    case TClose => ")"
    case TComma => if depth > 0 then "|" else ","
    case TClass(neg, body) => "[" + (if neg then "^" else "") + body + "]"
    case TLit(c) => Escape(c)
  }

  function DepthAfter(t: Token, depth: nat): nat
    requires t.TClose? ==> depth > 0
  {
    if t.TOpen? then depth + 1 else if t.TClose? then depth - 1 else depth
  }

  function Emit(tokens: seq<Token>, depth: nat): string
    requires Balanced(tokens, depth)
  {
    if tokens == [] then ""
    else EmitToken(tokens[0], depth) + Emit(tokens[1..], DepthAfter(tokens[0], depth))
  }

  /** The anchored regex text of a well-formed pattern. */
  function Translation(pattern: string): string
    requires WellFormed(pattern)
  {
    "^" + Emit(Lex(pattern).value, 0) + "$"
  }

  // ----- the translator

  /** What is left to translate from position `i`, and what is out already. */
  ghost predicate TranslationState(pattern: string, i: nat, depth: nat, out: string)
    requires i <= |pattern|
  {
    var whole, rest := Lex(pattern), Lex(pattern[i..]);
    && (whole.Some? <==> rest.Some?)
    && (whole.Some? ==>
          && (Balanced(whole.value, 0) <==> Balanced(rest.value, depth))
          && (Balanced(whole.value, 0) ==> "^" + Emit(whole.value, 0) == out + Emit(rest.value, depth)))
  }

  lemma Advance(pattern: string, i: nat, depth: nat, out: string, t: Token, n: nat)
    requires i < |pattern| && NextToken(pattern[i..]) == Some((t, n))
    requires TranslationState(pattern, i, depth, out)
    requires t.TClose? ==> depth > 0
    ensures TranslationState(pattern, i + n, DepthAfter(t, depth), out + EmitToken(t, depth))
  {
    assert pattern[i..][n..] == pattern[i + n..];
    var whole, next := Lex(pattern), Lex(pattern[i + n..]);
    if whole.Some? {
      var rest := Lex(pattern[i..]).value;
      assert rest[0] == t && rest[1..] == next.value;
      if Balanced(whole.value, 0) {
        assert out + (EmitToken(t, depth) + Emit(next.value, DepthAfter(t, depth)))
            == out + EmitToken(t, depth) + Emit(next.value, DepthAfter(t, depth));
      }
    }
  }

  /** The closing position of a class whose body starts at `start`. */
  method FindClassEnd(chars: string, start: nat) returns (j: nat)
    requires start <= |chars|
    ensures var n := ClassBody(chars[start..]);
            if n.None? then j >= |chars| else j == start + n.value
  {
    j := start;
    if j < |chars| && chars[j] == ']' {
      j := j + 1;
    }
    while j < |chars| && chars[j] != ']'
      invariant start <= j <= |chars|
      invariant j == start < |chars| ==> chars[start] != ']'
      invariant forall k :: start < k < j ==> chars[k] != ']'
    {
      j := j + 1;
    }
    ClassBodyAt(chars, start, j);
  }

  lemma ClassBodyAt(chars: string, start: nat, j: nat)
    requires start <= j <= |chars|
    requires j < |chars| ==> chars[j] == ']' && j > start
    requires forall k :: start < k < j ==> chars[k] != ']'
    ensures var n := ClassBody(chars[start..]);
            if j < |chars| then n == Some(j - start) else n.None?
  {
    var s := chars[start..];
    if j < |chars| {
      IndexOfIs(s[1..], ']', j - start - 1);
    } else if s != [] {
      IndexOfIs(s[1..], ']', |s| - 1);
    }
  }

  lemma BracketToken(chars: string, i: nat, start: nat)
    requires i < |chars| && chars[i] == '['
    requires start == if Negated(chars[i + 1..]) then i + 2 else i + 1
    ensures NextToken(chars[i..])
         == match ClassBody(chars[start..])
            case None => None
            case Some(n) => Some((TClass(start == i + 2, chars[start..start + n]), start + n + 1 - i))
  {
    var s := chars[i..];
    assert s[1..] == chars[i + 1..] && s[start - i..] == chars[start..];
    var n := ClassBody(chars[start..]);
    if n.Some? {
      assert s[start - i..start - i + n.value] == chars[start..start + n.value];
    }
  }

  lemma ClassText(neg: bool, body: string)
    ensures EmitToken(TClass(neg, body), 0) == (if neg then "[^" else "[") + body + "]"
  {
    assert "[" + "^" == "[^" && "[" + "" == "[";
  }

  /** What the translator does at a `[`: the class text and the position after it. */
  method TranslateClass(chars: string, i: nat) returns (r: Option<(string, nat)>)
    requires i < |chars| && chars[i] == '['
    ensures match NextToken(chars[i..])
            case None => r.None?
            case Some((t, n)) => t.TClass? && r == Some((EmitToken(t, 0), i + n))
  {
    var start := i + 1;
    if start < |chars| && (chars[start] == '!' || chars[start] == '^') {
      start := start + 1;
    }
    BracketToken(chars, i, start);
    hide NextToken, ClassBody;
    var j := FindClassEnd(chars, start);
    if j >= |chars| {
      return None;
    }
    var text := "[";
    var k := i + 1;
    if chars[k] == '!' {
      text := text + "^";
      k := k + 1;
    }
    if chars[i + 1] == '^' {
      assert chars[k..j] == "^" + chars[start..j];
      assert text + ("^" + chars[start..j]) == "[^" + chars[start..j];
    }
    ClassText(start == i + 2, chars[start..j]);
    return Some((text + chars[k..j] + "]", j + 1));
  }

  /** One turn of the translator's loop: the text put out and the new position. */
  method TranslateAt(chars: string, i: nat, depth: nat) returns (r: Result<(string, nat)>)
    requires i < |chars|
    ensures match NextToken(chars[i..])
            case None => r == Err(UnmatchedBracket)
            case Some((t, n)) =>
              if t.TClose? && depth == 0 then r == Err(UnmatchedClose)
              else r == Ok((EmitToken(t, depth), i + n))
  {
    match chars[i] {
      case '*' =>
        if i + 1 < |chars| && chars[i + 1] == '*' {
          if i + 2 < |chars| && chars[i + 2] == '/' {
            return Ok(("(?:.*/)?", i + 3));
          }
          return Ok((".*", i + 2));
        }
        return Ok(("[^/]*", i + 1));
      case '?' =>
        return Ok(("[^/]", i + 1));
      case '{' =>
        return Ok(("(?:", i + 1));
      case '}' =>
        if depth == 0 {
          return Err(UnmatchedClose);
        }
        return Ok((")", i + 1));
      case ',' =>
        return Ok((if depth > 0 then "|" else Escape(','), i + 1));
      case '[' =>
        var cls := TranslateClass(chars, i);
        if cls.None? {
          return Err(UnmatchedBracket);
        }
        return Ok(cls.value);
      case c =>
        return Ok((Escape(c), i + 1));
    }
  }

  lemma TurnFails(pattern: string, i: nat, depth: nat, out: string)
    requires i < |pattern| && TranslationState(pattern, i, depth, out)
    ensures match NextToken(pattern[i..])
            case None => Lex(pattern).None?
            case Some((t, n)) => t.TClose? && depth == 0 ==> !WellFormed(pattern)
    ensures Lex(pattern).None? ==> !WellFormed(pattern)
  {
  }

  lemma AtEnd(pattern: string, depth: nat, out: string)
    requires pattern != [] && TranslationState(pattern, |pattern|, depth, out)
    ensures Lex(pattern).Some?
    ensures WellFormed(pattern) <==> depth == 0
    ensures WellFormed(pattern) ==> Translation(pattern) == out + "$"
  {
    assert pattern[|pattern|..] == [];
    assert out + "" == out;
  }

  /** The whole translation: `Ok` exactly for the well-formed patterns. */
  method GlobToRegex(pattern: string) returns (r: Result<string>)
    ensures r.Ok? <==> WellFormed(pattern)
    ensures r.Ok? ==> r.value == Translation(pattern)
    ensures r == Err(EmptyPattern) <==> pattern == []
    ensures r == Err(UnmatchedBracket) ==> Lex(pattern).None?
    ensures r == Err(UnmatchedOpen) ==> Lex(pattern).Some?
  {
    hide *;
    AtStart(pattern);
    if pattern == [] {
      return Err(EmptyPattern);
    }
    var out := "^";
    var depth: nat := 0;
    var i: nat := 0;
    while i < |pattern|
      invariant i <= |pattern|
      invariant TranslationState(pattern, i, depth, out)
      decreases |pattern| - i
    {
      TurnFails(pattern, i, depth, out);
      var turn := TranslateAt(pattern, i, depth);
      if turn.Err? {
        return Err(turn.error);
      }
      ghost var t, n := NextToken(pattern[i..]).value.0, NextToken(pattern[i..]).value.1;
      BraceTokens(pattern[i..], depth);
      Advance(pattern, i, depth, out, t, n);
      depth := if pattern[i] == '{' then depth + 1 else if pattern[i] == '}' then depth - 1 else depth;
      out := out + turn.value.0;
      i := turn.value.1;
    }
    AtEnd(pattern, depth, out);
    if depth != 0 {
      return Err(UnmatchedOpen);
    }
    return Ok(out + "$");
  }

  lemma AtStart(pattern: string)
    ensures pattern == [] ==> !WellFormed(pattern)
    ensures TranslationState(pattern, 0, 0, "^")
  {
    assert pattern[0..] == pattern;
  }

  lemma BraceTokens(s: string, depth: nat)
    requires s != [] && NextToken(s).Some?
    requires NextToken(s).value.0.TClose? ==> depth > 0
    ensures var t := NextToken(s).value.0;
            && (t.TClose? <==> s[0] == '}')
            && DepthAfter(t, depth) == if s[0] == '{' then depth + 1 else if s[0] == '}' then depth - 1 else depth
  {
  }
}
