/** Globs on paths: concatenated trees, what lies under a match, components. */
module PathGlobs {
  import opened TextLines
  import opened GlobSyntax
  import opened GlobConcat
  import opened GlobMeaning

  // ----- matching concatenated trees

  lemma {:induction false} AppendGMatches(a: Glob, b: Glob, p: string, sets: ClassSets)
    ensures Matches(AppendG(a, b), p, sets)
       <==> exists k :: 0 <= k <= |p| && Matches(a, p[..k], sets) && Matches(b, p[k..], sets)
    decreases a, 0
  {
    match a
    case GEnd =>
      assert p[0..] == p && p[..0] == [];
      if Matches(b, p, sets) {
        assert Matches(a, p[..0], sets) && Matches(b, p[0..], sets);
      }
    case GCons(h, t) =>
      assert AppendG(a, b) == GCons(h, AppendG(t, b));
      hide *;
      if Matches(AppendG(a, b), p, sets) {
        var k := AppendGSplits(h, t, b, p, sets);
      }
      if exists k :: 0 <= k <= |p| && Matches(a, p[..k], sets) && Matches(b, p[k..], sets) {
        var k: nat :| k <= |p| && Matches(a, p[..k], sets) && Matches(b, p[k..], sets);
        AppendGJoins(h, t, b, p, k, sets);
      }
  }

  lemma {:induction false} AppendGSplits(h: Atom, t: Glob, b: Glob, p: string, sets: ClassSets) returns (k: nat)
    requires Matches(GCons(h, AppendG(t, b)), p, sets)
    ensures k <= |p| && Matches(GCons(h, t), p[..k], sets) && Matches(b, p[k..], sets)
    decreases t, 3
  {
    hide *;
    var m := GlobSplitAt(GCons(h, AppendG(t, b)), p, sets);
    var n := TailSplits(t, b, p[m..], sets);
    k := m + n;
    TailIsLater(h, t, b, p, m, n, sets);
  }

  lemma {:induction false} TailSplits(t: Glob, b: Glob, q: string, sets: ClassSets) returns (n: nat)
    requires Matches(AppendG(t, b), q, sets)
    ensures n <= |q| && Matches(t, q[..n], sets) && Matches(b, q[n..], sets)
    decreases t, 2
  {
    hide *;
    AppendGMatches(t, b, q, sets);
    n :| 0 <= n <= |q| && Matches(t, q[..n], sets) && Matches(b, q[n..], sets);
  }

  lemma TailIsLater(h: Atom, t: Glob, b: Glob, p: string, m: nat, n: nat, sets: ClassSets)
    requires m + n <= |p| && AtomMatches(h, p[..m], sets)
    requires Matches(t, p[m..][..n], sets) && Matches(b, p[m..][n..], sets)
    ensures Matches(GCons(h, t), p[..m + n], sets) && Matches(b, p[m + n..], sets)
  {
    hide *;
    var k := m + n;
    assert p[..k][..m] == p[..m] && p[..k][m..] == p[m..][..n] && p[m..][n..] == p[k..];
    GlobJoinAt(GCons(h, t), p[..k], m, sets);
  }

  lemma {:induction false} AppendGJoins(h: Atom, t: Glob, b: Glob, p: string, k: nat, sets: ClassSets)
    requires k <= |p| && Matches(GCons(h, t), p[..k], sets) && Matches(b, p[k..], sets)
    ensures Matches(GCons(h, AppendG(t, b)), p, sets)
    decreases t, 1
  {
    hide *;
    var m := GlobSplitAt(GCons(h, t), p[..k], sets);
    AppendGMatches(t, b, p[m..], sets);
    assert p[..k][..m] == p[..m] && p[..k][m..] == p[m..][..k - m] && p[m..][k - m..] == p[k..];
    GlobJoinAt(GCons(h, AppendG(t, b)), p, m, sets);
  }

  // ----- the pieces the entry patterns are made of

  /** `/` and then anything. */
  const Below: Glob := GCons(Lit('/'), GCons(DoubleStarSlash, GCons(Star, GEnd)))

  /** Any path is some whole segments and a last one. */
  lemma LastSegment(p: string) returns (k: nat)
    ensures k <= |p| && '/' !in p[k..] && (k == 0 || p[k - 1] == '/')
  {
    k := |p|;
    while k > 0 && p[k - 1] != '/'
      invariant k <= |p| && '/' !in p[k..]
    {
      k := k - 1;
      assert p[k..] == [p[k]] + p[k + 1..];
    }
  }

  lemma AnySegments(p: string, sets: ClassSets)
    ensures Matches(GCons(DoubleStarSlash, GCons(Star, GEnd)), p, sets)
  {
    var k := LastSegment(p);
    var q := p[k..];
    assert q[..|q|] == q && q[|q|..] == [];
    GlobJoinAt(GCons(Star, GEnd), q, |q|, sets);
    assert k > 0 ==> p[..k][k - 1] == '/';
    GlobJoinAt(GCons(DoubleStarSlash, GCons(Star, GEnd)), p, k, sets);
  }

  lemma BelowMatches(p: string, sets: ClassSets)
    ensures Matches(Below, p, sets) <==> p != [] && p[0] == '/'
  {
    if Matches(Below, p, sets) {
      var k := GlobSplitAt(Below, p, sets);
      assert p[..k] == ['/'];
      assert p[0] == p[..k][0];
    }
    if p != [] && p[0] == '/' {
      AnySegments(p[1..], sets);
      assert p[..1] == ['/'];
      GlobJoinAt(Below, p, 1, sets);
    }
  }

  /** At the start of the path or just after a slash. */
  predicate StartsSegment(p: string, a: nat)
    requires a <= |p|
  {
    a == 0 || p[a - 1] == '/'
  }

  /** At the end of the path or just before a slash. */
  predicate EndsSegment(p: string, b: nat)
    requires b <= |p|
  {
    b == |p| || p[b] == '/'
  }

  lemma AnyDepthMatches(g: Glob, p: string, sets: ClassSets)
    ensures Matches(GCons(DoubleStarSlash, g), p, sets)
       <==> exists a :: 0 <= a <= |p| && StartsSegment(p, a) && Matches(g, p[a..], sets)
  {
    hide Matches;
    if Matches(GCons(DoubleStarSlash, g), p, sets) {
      var a := GlobSplitAt(GCons(DoubleStarSlash, g), p, sets);
      assert a > 0 ==> p[..a][a - 1] == p[a - 1];
      assert StartsSegment(p, a);
    }
    if exists a :: 0 <= a <= |p| && StartsSegment(p, a) && Matches(g, p[a..], sets) {
      var a: nat :| a <= |p| && StartsSegment(p, a) && Matches(g, p[a..], sets);
      assert a > 0 ==> p[..a][a - 1] == p[a - 1];
      GlobJoinAt(GCons(DoubleStarSlash, g), p, a, sets);
    }
  }

  /** `g` matches the path itself or something the path lies under. */
  ghost predicate AtOrUnder(g: Glob, p: string, sets: ClassSets) {
    exists b :: 0 <= b <= |p| && EndsSegment(p, b) && Matches(g, p[..b], sets)
  }

  lemma AtOrUnderMatches(g: Glob, p: string, sets: ClassSets)
    ensures Matches(g, p, sets) || Matches(AppendG(g, Below), p, sets) <==> AtOrUnder(g, p, sets)
  {
    hide Matches, Below;
    AppendGMatches(g, Below, p, sets);
    assert p[..|p|] == p;
    if Matches(g, p, sets) {
      assert EndsSegment(p, |p|) && Matches(g, p[..|p|], sets);
    }
    if Matches(AppendG(g, Below), p, sets) {
      var k: nat :| k <= |p| && Matches(g, p[..k], sets) && Matches(Below, p[k..], sets);
      BelowMatches(p[k..], sets);
      assert EndsSegment(p, k);
    }
    if AtOrUnder(g, p, sets) {
      var b: nat :| b <= |p| && EndsSegment(p, b) && Matches(g, p[..b], sets);
      if b < |p| {
        BelowMatches(p[b..], sets);
        assert Matches(g, p[..b], sets) && Matches(Below, p[b..], sets);
      }
    }
  }

  // ----- components

  /** The `/`-components of a path. */
  function Split(p: string): (cs: seq<string>)
    decreases |p|
  {
    var k := IndexOf(p, '/');
    if k == |p| then [p] else [p[..k]] + Split(p[k + 1..])
  }

  /** `p[a..b]` is a whole component. */
  predicate ComponentAt(p: string, a: nat, b: nat) {
    a <= b <= |p| && StartsSegment(p, a) && EndsSegment(p, b) && '/' !in p[a..b]
  }

  function Part(p: string, a: nat, b: nat): string
    requires a <= b <= |p|
  {
    p[a..b]
  }

  lemma ComponentShift(p: string, c: nat, a: nat, b: nat)
    requires 0 < c <= |p| && p[c - 1] == '/' && a <= b <= |p| - c
    ensures Part(p[c..], a, b) == Part(p, a + c, b + c)
    ensures ComponentAt(p[c..], a, b) <==> ComponentAt(p, a + c, b + c)
  {
    assert p[c..][a..b] == p[a + c..b + c];
    assert a > 0 ==> p[c..][a - 1] == p[a + c - 1];
    assert b < |p| - c ==> p[c..][b] == p[b + c];
  }

  /** Up to the first slash there is one component, and others start after it. */
  lemma FirstComponent(p: string)
    ensures ComponentAt(p, 0, IndexOf(p, '/')) && Part(p, 0, IndexOf(p, '/')) == p[..IndexOf(p, '/')]
  {
    var k := IndexOf(p, '/');
    assert p[0..k] == p[..k];
  }

  lemma AfterFirstComponent(p: string, a: nat, b: nat)
    requires ComponentAt(p, a, b)
    ensures (a == 0 && b == IndexOf(p, '/')) || IndexOf(p, '/') < a
  {
    var k := IndexOf(p, '/');
    assert forall i :: 0 <= i < k ==> p[..k][i] == p[i];
    assert forall i :: 0 <= i < k ==> p[i] != '/';
    assert forall i :: a <= i < b ==> p[a..b][i - a] == p[i];
  }

  lemma SplitStep(p: string)
    ensures |Split(p)| > 0 && Split(p)[0] == p[..IndexOf(p, '/')]
    ensures IndexOf(p, '/') == |p| ==> |Split(p)| == 1
  {
    assert p[..|p|] == p;
  }

  lemma SplitLater(p: string, i: nat)
    requires IndexOf(p, '/') < |p|
    ensures |Split(p)| == |Split(p[IndexOf(p, '/') + 1..])| + 1
    ensures i + 1 < |Split(p)| ==> Split(p)[i + 1] == Split(p[IndexOf(p, '/') + 1..])[i]
  {
  }

  lemma ComponentBounds(p: string, a: nat, b: nat)
    requires ComponentAt(p, a, b)
    ensures a <= b <= |p|
  {
  }

  /** Every component is listed, and everything listed is a component. */
  lemma {:induction false} ComponentIsListed(p: string, a: nat, b: nat) returns (i: nat)
    requires ComponentAt(p, a, b)
    ensures a <= b <= |p| && i < |Split(p)| && Split(p)[i] == Part(p, a, b)
    decreases |p|
  {
    hide *;
    var k: nat := IndexOf(p, '/');
    ComponentBounds(p, a, b);
    AfterFirstComponent(p, a, b);
    SplitStep(p);
    FirstComponent(p);
    if a == 0 {
      i := 0;
    } else {
      var c: nat, d: nat := a - k - 1, b - k - 1;
      ComponentShift(p, k + 1, c, d);
      i := ComponentIsListed(p[k + 1..], c, d);
      SplitLater(p, i);
      i := i + 1;
    }
  }

  lemma {:induction false} ListedIsComponent(p: string, i: nat) returns (a: nat, b: nat)
    requires i < |Split(p)|
    ensures a <= b <= |p| && Split(p)[i] == Part(p, a, b)
    ensures ComponentAt(p, a, b)
    decreases |p|
  {
    hide *;
    var k := IndexOf(p, '/');
    FirstComponent(p);
    SplitStep(p);
    a, b := 0, k;
    if i > 0 {
      SplitLater(p, i - 1);
      a, b := ListedIsComponent(p[k + 1..], i - 1);
      ComponentShift(p, k + 1, a, b);
      a, b := a + k + 1, b + k + 1;
    }
  }
}
