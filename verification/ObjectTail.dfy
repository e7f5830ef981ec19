/** Is this text how an object could go on and end, once a value is closed? */
module ObjectTail {
  import opened Basics
  import opened Decimal
  import opened TextTrim

  // ----- scalars

  function DropSign(s: string): string {
    if s != [] && (s[0] == '+' || s[0] == '-') then s[1..] else s
  }

  /** Length of the run of digits that starts `s`. */
  function DigitRun(s: string): (n: nat)
    ensures n <= |s| && AllDigits(s[..n])
  {
    if s == [] || !IsDigit(s[0]) then 0
    else
      var n := 1 + DigitRun(s[1..]);
      assert forall i :: 1 <= i < n ==> s[..n][i] == s[1..][..n - 1][i - 1];
      n
  }

  predicate IsExponent(s: string) {
    s == [] || ((s[0] == 'e' || s[0] == 'E') && DropSign(s[1..]) != [] && AllDigits(DropSign(s[1..])))
  }

  /** Digits with at most one point and at least one digit, then an exponent. */
  predicate IsDecimal(s: string) {
    var n := DigitRun(s);
    var rest := s[n..];
    if rest != [] && rest[0] == '.' then
      var m := DigitRun(rest[1..]);
      n + m > 0 && IsExponent(rest[1 + m..])
    else n > 0 && IsExponent(rest)
  }

  /** What `str::parse::<f64>` accepts. */
  predicate ParsesAsF64(s: string) {
    var u := DropSign(s);
    LowerAll(u) in {"inf", "infinity", "nan"} || IsDecimal(u)
  }

  predicate IsScalarLiteral(s: string) {
    s != [] && (s == "true" || s == "false" || s == "null" || ParsesAsF64(s))
  }

  predicate EndsLiteral(c: char) {
    c in {',', '}', ' ', '\t', '\n', '\r'}
  }

  /** Index of the first character that satisfies `stop`, or the length. */
  function Until(s: string, stop: char -> bool): (n: nat)
    ensures n <= |s|
    ensures n < |s| ==> stop(s[n])
    ensures forall i :: 0 <= i < n ==> !stop(s[i])
  {
    if s == [] || stop(s[0]) then 0 else 1 + Until(s[1..], stop)
  }

  predicate EndsKey(c: char) {
    c == '"' || c == '\\'
  }

  /** The first unescaped quote of a string body. */
  function CloseAt(s: string, escaped: bool): (k: Option<nat>)
    ensures k.Some? ==> k.value < |s| && s[k.value] == '"'
    decreases |s|
  {
    if s == [] then None
    else if !escaped && s[0] == '"' then Some(0)
    else
      match CloseAt(s[1..], !escaped && s[0] == '\\')
      case None => None
      case Some(k) => Some(k + 1)
  }

  // ----- the recogniser

  /** What is left, trimmed, after the member that starts `s`. */
  function AfterMember(s: string): (r: Option<string>)
    ensures r.Some? ==> |r.value| < |s|
  {
    if s == [] || s[0] != '"' then None
    else
      var k := Until(s[1..], EndsKey);
      if k == |s| - 1 || s[1..][k] != '"' then None
      else AfterKey(TrimStart(s[k + 2..]))
  }

  function AfterKey(s: string): (r: Option<string>)
    ensures r.Some? ==> |r.value| < |s|
  {
    if s == [] || s[0] != ':' then None else AfterValue(TrimStart(s[1..]))
  }

  function AfterValue(s: string): (r: Option<string>)
    ensures r.Some? ==> |r.value| < |s|
  {
    if s != [] && s[0] == '"' then
      match CloseAt(s[1..], false)
      case None => None
      case Some(e) => Some(TrimStart(s[e + 2..]))
    else
      var e := Until(s, EndsLiteral);
      if IsScalarLiteral(s[..e]) then Some(TrimStart(s[e..])) else None
  }

  predicate TailFrom(rest: string)
    decreases |rest|
  {
    if rest == [] || rest[0] == '}' then true
    else if rest[0] != ',' then false
    else
      match AfterMember(TrimStart(rest[1..]))
      case None => false
      case Some(r) => TailFrom(r)
  }

  predicate IsObjectTail(s: string) {
    TailFrom(TrimStart(s))
  }

  method FindClose(s: string) returns (end: Option<nat>)
    ensures end == CloseAt(s, false)
  {
    var escaped := false;
    var k := 0;
    assert s[0..] == s;
    while k < |s|
      invariant k <= |s|
      invariant CloseAt(s, false)
             == match CloseAt(s[k..], escaped) case None => None case Some(j) => Some(k + j)
    {
      assert s[k..][1..] == s[k + 1..];
      if escaped {
        escaped := false;
      } else if s[k] == '\\' {
        escaped := true;
      } else if s[k] == '"' {
        return Some(k);
      }
      k := k + 1;
    }
    return None;
  }

  method ReadValue(value: string) returns (r: Option<string>)
    ensures r == AfterValue(value)
  {
    hide Until, IsScalarLiteral, CloseAt, TrimStart;
    if value != [] && value[0] == '"' {
      var end := FindClose(value[1..]);
      if end.None? {
        return None;
      }
      return Some(TrimStart(value[end.value + 2..]));
    }
    var end := Until(value, EndsLiteral);
    if !IsScalarLiteral(value[..end]) {
      return None;
    }
    return Some(TrimStart(value[end..]));
  }

  method ReadMember(member: string) returns (r: Option<string>)
    ensures r == AfterMember(member)
  {
    hide Until, AfterValue, TrimStart, EndsKey;
    if member == [] || member[0] != '"' {
      return None;
    }
    var keyEnd := Until(member[1..], EndsKey);
    if keyEnd == |member| - 1 || member[1..][keyEnd] != '"' {
      return None;
    }
    var colon := TrimStart(member[keyEnd + 2..]);
    if colon == [] || colon[0] != ':' {
      return None;
    }
    r := ReadValue(TrimStart(colon[1..]));
  }

  /** `is_object_tail`: one member after the other, until one cannot be read. */
  method RecogniseTail(s: string) returns (b: bool)
    ensures b == IsObjectTail(s)
  {
    var rest := TrimStart(s);
    while true
      invariant TailFrom(rest) == IsObjectTail(s)
      decreases |rest|
    {
      hide AfterMember;
      if rest == [] || rest[0] == '}' {
        return true;
      }
      if rest[0] != ',' {
        return false;
      }
      var after := ReadMember(TrimStart(rest[1..]));
      if after.None? {
        return false;
      }
      rest := after.value;
    }
  }
}
