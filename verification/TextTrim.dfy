/** Trimming, as `str::trim` and `trim_start_matches` do it, ASCII case and substrings. */
module TextTrim {

  /** The characters of the Unicode property White_Space. */
  predicate IsWhitespace(c: char) {
    var n := c as int;
    || 0x09 <= n <= 0x0D || n == 0x20 || n == 0x85 || n == 0xA0 || n == 0x1680
    || 0x2000 <= n <= 0x200A || n == 0x2028 || n == 0x2029 || n == 0x202F || n == 0x205F || n == 0x3000
  }

  function TrimStartBy(s: string, drop: char -> bool): (r: string)
    ensures |r| <= |s| && r == s[|s| - |r|..]
    ensures r != [] ==> !drop(r[0])
  {
    if s != [] && drop(s[0]) then TrimStartBy(s[1..], drop) else s
  }

  function TrimEndBy(s: string, drop: char -> bool): (r: string)
    ensures |r| <= |s| && r == s[..|r|]
    ensures r != [] ==> !drop(r[|r| - 1])
  {
    if s != [] && drop(s[|s| - 1]) then TrimEndBy(s[..|s| - 1], drop) else s
  }

  function TrimStart(s: string): string { TrimStartBy(s, IsWhitespace) }

  function Trim(s: string): string { TrimEndBy(TrimStart(s), IsWhitespace) }

  function Lower(c: char): char {
    if 'A' <= c <= 'Z' then (c as int + 32) as char else c
  }

  /** `to_ascii_lowercase`. */
  function LowerAll(s: string): string {
    seq(|s|, i requires 0 <= i < |s| => Lower(s[i]))
  }

  /** `q` starts at some position of `s`. */
  predicate Contains(s: string, q: string)
    decreases |s|
  {
    q <= s || (s != [] && Contains(s[1..], q))
  }

  // ----- what is trimmed, and what a text contains

  lemma {:induction false} TrimStartByDrops(s: string, drop: char -> bool)
    ensures forall i :: 0 <= i < |s| - |TrimStartBy(s, drop)| ==> drop(s[i])
  {
    if s != [] && drop(s[0]) {
      TrimStartByDrops(s[1..], drop);
    }
  }

  lemma {:induction false} TrimEndByDrops(s: string, drop: char -> bool)
    ensures forall i :: |TrimEndBy(s, drop)| <= i < |s| ==> drop(s[i])
  {
    if s != [] && drop(s[|s| - 1]) {
      TrimEndByDrops(s[..|s| - 1], drop);
    }
  }

  predicate All(s: string, p: char -> bool) {
    forall i :: 0 <= i < |s| ==> p(s[i])
  }

  /** Neither end satisfies `p`. */
  predicate Bare(s: string, p: char -> bool) {
    s != [] ==> !p(s[0]) && !p(s[|s| - 1])
  }

  lemma {:induction false} TrimStartByIs(a: string, t: string, drop: char -> bool)
    requires All(a, drop) && (t != [] ==> !drop(t[0]))
    ensures TrimStartBy(a + t, drop) == t
  {
    if a == [] {
      assert a + t == t;
    } else {
      assert (a + t)[1..] == a[1..] + t;
      TrimStartByIs(a[1..], t, drop);
    }
  }

  lemma {:induction false} TrimEndByIs(t: string, b: string, drop: char -> bool)
    requires All(b, drop) && (t != [] ==> !drop(t[|t| - 1]))
    ensures TrimEndBy(t + b, drop) == t
  {
    if b == [] {
      assert t + b == t;
    } else {
      var n := |b| - 1;
      assert (t + b)[..|t| + n] == t + b[..n] && (t + b)[|t| + n] == b[n];
      TrimEndByIs(t, b[..n], drop);
    }
  }

  /** What is between two runs that are dropped. */
  lemma TrimBothIs(a: string, t: string, b: string, drop: char -> bool)
    requires All(a, drop) && All(b, drop) && Bare(t, drop)
    ensures TrimEndBy(TrimStartBy(a + t + b, drop), drop) == t
  {
    hide All;
    assert a + t + b == a + (t + b);
    if t == [] {
      AllConcat(a, b, drop);
      assert t + b == b && a + (t + b) == a + b && (a + b) + [] == a + b;
      TrimStartByIs(a + b, [], drop);
    } else {
      TrimStartByIs(a, t + b, drop);
      TrimEndByIs(t, b, drop);
    }
  }

  lemma AllConcat(a: string, b: string, p: char -> bool)
    requires All(a, p) && All(b, p)
    ensures All(a + b, p)
  {
  }

  /** Any text is what is left of it between two runs that are dropped. */
  lemma TrimBothSplits(s: string, drop: char -> bool) returns (a: string, b: string)
    ensures var t := TrimEndBy(TrimStartBy(s, drop), drop);
            s == a + t + b && All(a, drop) && All(b, drop) && Bare(t, drop)
  {
    hide *;
    var u := TrimStartBy(s, drop);
    var t := TrimEndBy(u, drop);
    a := StartDropped(s, drop);
    b := EndDropped(u, drop);
    SameStart(u, t, b, drop);
    assert a + (t + b) == a + t + b;
  }

  lemma StartDropped(s: string, drop: char -> bool) returns (a: string)
    ensures s == a + TrimStartBy(s, drop) && All(a, drop)
  {
    TrimStartByDrops(s, drop);
    a := s[..|s| - |TrimStartBy(s, drop)|];
  }

  lemma EndDropped(s: string, drop: char -> bool) returns (b: string)
    ensures s == TrimEndBy(s, drop) + b && All(b, drop)
  {
    TrimEndByDrops(s, drop);
    b := s[|TrimEndBy(s, drop)|..];
  }

  lemma SameStart(u: string, t: string, b: string, drop: char -> bool)
    requires u == t + b && (u != [] ==> !drop(u[0])) && (t != [] ==> !drop(t[|t| - 1]))
    ensures Bare(t, drop)
  {
    assert t != [] ==> t[0] == u[0];
  }

  /** Trimming takes away white space at both ends, and nothing else. */
  lemma TrimBounds(s: string) returns (a: nat, b: nat)
    ensures a <= b <= |s| && Trim(s) == s[a..b]
    ensures forall i :: 0 <= i < |s| && !(a <= i < b) ==> IsWhitespace(s[i])
  {
    var t, n := TrimStart(s), |Trim(s)|;
    a := |s| - |t|;
    b := a + n;
    TrimStartByDrops(s, IsWhitespace);
    TrimEndByDrops(t, IsWhitespace);
    assert t == s[a..] && n <= |t| && Trim(s) == t[..n];
    assert forall i :: n <= i < |t| ==> IsWhitespace(t[i]);
    hide *;
    PrefixOfSuffix(s, a, n);
    forall i | b <= i < |s| ensures IsWhitespace(s[i]) {
      assert s[i] == t[i - a];
    }
  }

  lemma PrefixOfSuffix(s: string, a: nat, n: nat)
    requires a + n <= |s|
    ensures s[a..][..n] == s[a..a + n]
  {
  }

  lemma TrimEnds(s: string)
    requires Trim(s) != []
    ensures var t := Trim(s); !IsWhitespace(t[0]) && !IsWhitespace(t[|t| - 1])
  {
    hide IsWhitespace;
    var u := TrimStart(s);
    assert Trim(s)[0] == u[0];
  }

  lemma LowerKeepsWhitespace(c: char)
    ensures IsWhitespace(Lower(c)) == IsWhitespace(c)
  {
  }

  predicate OccursAt(s: string, q: string, i: int) {
    0 <= i <= |s| - |q| && s[i..i + |q|] == q
  }

  lemma {:induction false} ContainsMeans(s: string, q: string)
    ensures Contains(s, q) <==> exists i :: OccursAt(s, q, i)
    decreases |s|
  {
    OccursFirst(s, q);
    if s != [] {
      ContainsMeans(s[1..], q);
      forall i: int ensures OccursAt(s, q, i) <==> (i == 0 && q <= s) || OccursAt(s[1..], q, i - 1) {
        OccursLater(s, q, i);
      }
      if i :| OccursAt(s[1..], q, i) {
        assert OccursAt(s, q, i + 1);
      }
    }
    hide OccursAt;
  }

  lemma OccursFirst(s: string, q: string)
    ensures OccursAt(s, q, 0) <==> q <= s
    ensures s == [] ==> forall i :: OccursAt(s, q, i) ==> i == 0
  {
    if |q| <= |s| {
      assert s[0..0 + |q|] == s[..|q|];
    }
  }

  lemma OccursLater(s: string, q: string, i: int)
    requires s != []
    ensures OccursAt(s, q, i) <==> (i == 0 && q <= s) || OccursAt(s[1..], q, i - 1)
  {
    OccursFirst(s, q);
    if 0 < i <= |s| - |q| {
      assert s[1..][i - 1..i - 1 + |q|] == s[i..i + |q|];
    }
  }

  lemma SliceOfSlice(s: string, a: int, b: int, c: int, d: int)
    requires 0 <= a <= b <= |s| && 0 <= c <= d <= b - a
    ensures s[a..b][c..d] == s[a + c..a + d]
  {
    var x, y := s[a..b], s[a + c..a + d];
    assert |x[c..d]| == |y|;
    forall j | 0 <= j < |y| ensures x[c..d][j] == y[j] {
      assert x[c..d][j] == x[c + j] == s[a + (c + j)];
    }
  }

  lemma ContainsTransitive(s: string, t: string, q: string)
    requires Contains(s, t) && Contains(t, q)
    ensures Contains(s, q)
  {
    hide Contains;
    ContainsMeans(s, t);
    ContainsMeans(t, q);
    ContainsMeans(s, q);
    var i :| OccursAt(s, t, i);
    var j :| OccursAt(t, q, j);
    SliceOfSlice(s, i, i + |t|, j, j + |q|);
    assert OccursAt(s, q, i + j);
  }

  lemma LowerSlice(s: string, a: nat, b: nat)
    requires a <= b <= |s|
    ensures |LowerAll(s)| == |s| && LowerAll(s[a..b]) == LowerAll(s)[a..b]
  {
    assert forall i :: 0 <= i < b - a ==> s[a..b][i] == s[a + i];
  }

  /** A text without white space at its ends is found in the trimmed text too. */
  lemma FoundTrimmed(s: string, query: string)
    requires Contains(LowerAll(s), LowerAll(Trim(query)))
    ensures Contains(LowerAll(Trim(s)), LowerAll(Trim(query)))
  {
    hide *;
    var a, b := TrimBounds(s);
    var l, q := LowerAll(s), LowerAll(Trim(query));
    LowerSlice(s, a, b);
    ContainsMeans(l, q);
    ContainsMeans(l[a..b], q);
    var i :| OccursAt(l, q, i);
    OccursBounds(l, q, i);
    if q != [] {
      EndsInside(s, query, i, a, b);
      OccursInside(l, q, i, a, b);
    } else {
      NothingOccurs(l[a..b], q);
    }
  }

  lemma OccursBounds(s: string, q: string, i: int)
    requires OccursAt(s, q, i)
    ensures 0 <= i <= |s| - |q| && forall j :: 0 <= j < |q| ==> s[i + j] == q[j]
  {
    var w := s[i..i + |q|];
    forall j | 0 <= j < |q| ensures s[i + j] == q[j] {
      assert w[j] == s[i + j];
    }
  }

  lemma NothingOccurs(s: string, q: string)
    requires q == []
    ensures OccursAt(s, q, 0)
  {
  }

  lemma EndsInside(s: string, query: string, i: int, a: nat, b: nat)
    requires LowerAll(Trim(query)) != [] && OccursAt(LowerAll(s), LowerAll(Trim(query)), i)
    requires forall k :: 0 <= k < |s| && !(a <= k < b) ==> IsWhitespace(s[k])
    ensures a <= i && i + |LowerAll(Trim(query))| <= b
  {
    var t, q, l := Trim(query), LowerAll(Trim(query)), LowerAll(s);
    var n := |q|;
    OccursBounds(l, q, i);
    assert q[0] == Lower(t[0]) && q[n - 1] == Lower(t[n - 1]);
    assert l[i + 0] == Lower(s[i]) && l[i + (n - 1)] == Lower(s[i + n - 1]);
    assert |t| == n && |l| == |s|;
    hide *;
    TrimEnds(query);
    InsideBounds(s, a, b, i, t[0], q[0]);
    InsideBounds(s, a, b, i + n - 1, t[n - 1], q[n - 1]);
  }

  lemma OccursInside(l: string, q: string, i: int, a: nat, b: nat)
    requires OccursAt(l, q, i) && a <= i && i + |q| <= b <= |l|
    ensures OccursAt(l[a..b], q, i - a)
  {
    SliceOfSlice(l, a, b, i - a, i - a + |q|);
  }

  lemma InsideBounds(s: string, a: nat, b: nat, i: int, c: char, lower: char)
    requires 0 <= i < |s| && Lower(s[i]) == lower == Lower(c) && !IsWhitespace(c)
    requires forall k :: 0 <= k < |s| && !(a <= k < b) ==> IsWhitespace(s[k])
    ensures a <= i < b
  {
    LowerKeepsWhitespace(c);
    LowerKeepsWhitespace(s[i]);
  }

  lemma TrimmedIsFound(s: string)
    ensures Contains(LowerAll(s), LowerAll(Trim(s)))
  {
    hide Contains, Trim, LowerAll;
    var a, b := TrimBounds(s);
    var l, q := LowerAll(s), LowerAll(Trim(s));
    LowerSlice(s, a, b);
    ContainsMeans(l, q);
    assert OccursAt(l, q, a);
  }
}
