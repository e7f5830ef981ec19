/** The part of the regular expression syntax that globs are translated to, read
  * with its real precedence (repetition, then concatenation, then alternation)
  * and anchors, and the search it stands for.
  */
module Regex {
  import opened Basics
  import opened TextLines
  import opened GlobSyntax

  datatype Re = REnd | RCons(head: RAtom, tail: Re)

  datatype RAtom =
    | Caret
    | Dollar
    | Dot
    | RLit(c: char)
    | RClass(neg: bool, body: string)
    | RStar(a: RAtom)
    | RPlus(a: RAtom)
    | ROpt(a: RAtom)
    | Group(alts: RAlts)

  datatype RAlts = ROne(re: Re) | RMore(re: Re, rest: RAlts)

  datatype Read<+T> = Bad | Read(value: T, rest: string)

  /** Characters `regex::escape` puts a backslash before. */
  predicate IsMeta(c: char) {
    c in {'\\', '.', '+', '*', '?', '(', ')', '|', '[', ']', '{', '}', '^', '$', '#', '&', '-', '~'}
  }

  function Append(a: Re, b: Re): Re {
    match a
    case REnd => b
    case RCons(h, t) => RCons(h, Append(t, b))
  }

  // ----- reading

  function ReadAlts(s: string): (r: Read<RAlts>)
    ensures r.Read? ==> |r.rest| <= |s|
    decreases |s|, 3
  {
    var re := ReadConcat(s);
    if re.Bad? then Bad
    else if re.rest != [] && re.rest[0] == '|' then
      var more := ReadAlts(re.rest[1..]);
      if more.Bad? then Bad else Read(RMore(re.value, more.value), more.rest)
    else Read(ROne(re.value), re.rest)
  }

  function ReadConcat(s: string): (r: Read<Re>)
    ensures r.Read? ==> |r.rest| <= |s|
    decreases |s|, 2
  {
    if s == [] || s[0] == '|' || s[0] == ')' then Read(REnd, s)
    else
      var a := ReadPiece(s);
      if a.Bad? then Bad
      else
        var t := ReadConcat(a.rest);
        if t.Bad? then Bad else Read(RCons(a.value, t.value), t.rest)
  }

  /** An atom with its repetition operators. */
  function ReadPiece(s: string): (r: Read<RAtom>)
    requires s != []
    ensures r.Read? ==> |r.rest| < |s|
    decreases |s|, 1
  {
    var a := ReadAtom(s);
    if a.Bad? then Bad else ReadPostfix(a.value, a.rest)
  }

  /** The `?` of a lazy repetition does not change what is matched. */
  function SkipLazy(s: string): (r: string)
    ensures |r| <= |s|
  {
    if s != [] && s[0] == '?' then s[1..] else s
  }

  predicate IsPostfix(c: char) {
    c == '*' || c == '+' || c == '?' || c == '{'
  }

  function ReadPostfix(a: RAtom, s: string): (r: Read<RAtom>)
    ensures r.Read? ==> |r.rest| <= |s|
    decreases |s|
  {
    if s == [] || !IsPostfix(s[0]) then Read(a, s)
    else match s[0]
      case '*' => ReadPostfix(RStar(a), SkipLazy(s[1..]))
      case '+' => ReadPostfix(RPlus(a), SkipLazy(s[1..]))
      case '?' => ReadPostfix(ROpt(a), SkipLazy(s[1..]))
      case _ => Bad
  }

  function ReadAtom(s: string): (r: Read<RAtom>)
    requires s != []
    ensures r.Read? ==> |r.rest| < |s|
    decreases |s|, 0
  {
    match s[0]
    case '^' => Read(Caret, s[1..])
    case '$' => Read(Dollar, s[1..])
    case '.' => Read(Dot, s[1..])
    case '\\' => if |s| > 1 && IsMeta(s[1]) then Read(RLit(s[1]), s[2..]) else Bad
    case '[' => ReadClass(s[1..])
    case '(' =>
      if |s| > 2 && s[1] == '?' && s[2] != ':' then Bad
      else
        var alts := ReadAlts(if |s| > 2 && s[1] == '?' then s[3..] else s[1..]);
        if alts.Bad? || alts.rest == [] || alts.rest[0] != ')' then Bad
        else Read(Group(alts.value), alts.rest[1..])
    case c => if IsPostfix(c) || c == '|' || c == ')' then Bad else Read(RLit(c), s[1..])
  }

  /** What opens a class after its `[`: a caret, and a `]` that is a member. */
  function OpenerLength(s: string): (k: nat)
    ensures k <= |s|
  {
    var caret := if s != [] && s[0] == '^' then 1 else 0;
    if caret < |s| && s[caret] == ']' then caret + 1 else caret
  }

  function Further(k: nat, n: Option<nat>): (r: Option<nat>)
    ensures r.Some? <==> n.Some?
    ensures n.Some? ==> r.value == k + n.value
  {
    match n
    case None => None
    case Some(m) => Some(k + m)
  }

  /** How many characters an escape names when it has no braces. */
  function NameLength(c: char): nat {
    if c == 'x' then 2 else if c == 'u' then 4 else if c == 'U' then 8 else 1
  }

  predicate IsNamed(c: char) {
    c == 'x' || c == 'u' || c == 'U' || c == 'p' || c == 'P'
  }

  /** No digits and no property hold any of these. */
  predicate PlainName(name: string) {
    '[' !in name && ']' !in name && '\\' !in name
  }

  /** Length of the escape at the start of `s`, a code point or a property by name
    * included; more than there is when it is cut off or has no possible name.
    */
  function EscapeLength(s: string): nat
    requires s != []
  {
    if |s| > 1 && IsNamed(s[1]) then
      var n := if |s| > 2 && s[2] == '{' then 4 + IndexOf(s[3..], '}') else 2 + NameLength(s[1]);
      if n <= |s| && PlainName(s[2..n]) then n else |s| + 1
    else 2
  }

  function PointLength(s: string): (n: nat)
    requires s != []
    ensures n > 0
  {
    if s[0] == '\\' then EscapeLength(s) else 1
  }

  /** A dash makes a range with what comes after it, but for `]` and another dash. */
  predicate RangeGoesOn(s: string) {
    |s| > 1 && s[0] == '-' && s[1] != ']' && s[1] != '-'
  }

  predicate IsOperator(s: string) {
    |s| > 1 && s[0] == s[1] && (s[0] == '&' || s[0] == '-' || s[0] == '~')
  }

  /** The operator, the range or the single member at the start of `s`. The end of a
    * range is taken as it stands, also when it is a bracket.
    */
  function ItemLength(s: string): (n: nat)
    requires s != []
    ensures n > 0
  {
    if IsOperator(s) then 2
    else
      var n := PointLength(s);
      if n < |s| && RangeGoesOn(s[n..]) then n + 1 + PointLength(s[n + 1..]) else n
  }

  /** Where the `]` of the class that `s` is inside of is, with `depth` more classes
    * open in it: an item that would start with a bracket opens or closes a class.
    * (Dashes after an opener are members, not operators; that changes nothing here.)
    */
  function ClassEnd(s: string, depth: nat): (n: Option<nat>)
    ensures n.Some? ==> n.value < |s|
    decreases |s|
  {
    if s == [] then None
    else if s[0] == '[' then
      var k := 1 + OpenerLength(s[1..]);
      Further(k, ClassEnd(s[k..], depth + 1))
    else if s[0] == ']' then
      if depth == 0 then Some(0) else Further(1, ClassEnd(s[1..], depth - 1))
    else
      var k := ItemLength(s);
      if k > |s| then None else Further(k, ClassEnd(s[k..], depth))
  }

  /** A class after its `[`; what it holds is opaque. */
  function ReadClass(s: string): (r: Read<RAtom>)
    ensures r.Read? ==> |r.rest| <= |s|
  {
    var neg := s != [] && s[0] == '^';
    var start, k := if neg then 1 else 0, OpenerLength(s);
    var n := ClassEnd(s[k..], 0);
    if n.None? then Bad else Read(RClass(neg, s[start..k + n.value]), s[k + n.value + 1..])
  }

  predicate ReValid(re: Re, sets: ClassSets) {
    re.RCons? ==> AtomValid(re.head, sets) && ReValid(re.tail, sets)
  }

  predicate AtomValid(a: RAtom, sets: ClassSets) {
    match a
    case RClass(_, body) => sets.valid(body)
    case RStar(b) => AtomValid(b, sets)
    case RPlus(b) => AtomValid(b, sets)
    case ROpt(b) => AtomValid(b, sets)
    case Group(alts) => AltsValid(alts, sets)
    case _ => true
  }

  predicate AltsValid(alts: RAlts, sets: ClassSets) {
    match alts
    case ROne(re) => ReValid(re, sets)
    case RMore(re, rest) => ReValid(re, sets) && AltsValid(rest, sets)
  }

  /** A whole pattern; none when it is refused. */
  function ReadRegex(s: string, sets: ClassSets): Option<RAlts> {
    var r := ReadAlts(s);
    if r.Bad? || r.rest != [] || !AltsValid(r.value, sets) then None else Some(r.value)
  }

  // ----- matching `s` from position `i` to position `j`

  ghost predicate MatchRe(re: Re, s: string, i: nat, j: nat, sets: ClassSets)
    requires i <= j <= |s|
    decreases re, j - i, 0
  {
    match re
    case REnd => i == j
    case RCons(a, t) => exists k :: i <= k <= j && MatchAtom(a, s, i, k, sets) && MatchRe(t, s, k, j, sets)
  }

  ghost predicate MatchAtom(a: RAtom, s: string, i: nat, j: nat, sets: ClassSets)
    requires i <= j <= |s|
    decreases a, j - i, 0
  {
    match a
    case Caret => i == j == 0
    case Dollar => i == j == |s|
    case Dot => j == i + 1 && s[i] != '\n'
    case RLit(c) => j == i + 1 && s[i] == c
    case RClass(neg, body) => j == i + 1 && sets.names(body, s[i]) != neg
    case RStar(b) => MatchStar(b, s, i, j, sets)
    case RPlus(b) => exists k :: i <= k <= j && MatchAtom(b, s, i, k, sets) && MatchStar(b, s, k, j, sets)
    case ROpt(b) => i == j || MatchAtom(b, s, i, j, sets)
    case Group(alts) => MatchAlts(alts, s, i, j, sets)
  }

  ghost predicate MatchStar(a: RAtom, s: string, i: nat, j: nat, sets: ClassSets)
    requires i <= j <= |s|
    decreases a, j - i, 1
  {
    i == j || exists k :: i < k <= j && MatchAtom(a, s, i, k, sets) && MatchStar(a, s, k, j, sets)
  }

  ghost predicate MatchAlts(alts: RAlts, s: string, i: nat, j: nat, sets: ClassSets)
    requires i <= j <= |s|
    decreases alts, j - i, 0
  {
    match alts
    case ROne(re) => MatchRe(re, s, i, j, sets)
    case RMore(re, rest) => MatchRe(re, s, i, j, sets) || MatchAlts(rest, s, i, j, sets)
  }

  /** `is_match`: some stretch of `s` is matched. */
  ghost predicate IsMatch(alts: RAlts, s: string, sets: ClassSets) {
    exists i, j :: 0 <= i <= j <= |s| && MatchAlts(alts, s, i, j, sets)
  }
}
