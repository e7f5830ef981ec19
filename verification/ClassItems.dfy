/** The items of a class of a regular expression, by the texts they are written with. */
module ClassItems {
  import opened TextLines
  import opened Regex

  /** The digits or the property an escape names stop at none of these. */
  predicate NoBrackets(w: string) {
    forall i :: 0 <= i < |w| ==> w[i] != '[' && w[i] != ']' && w[i] != '\\'
  }

  /** An escape: of one character, of a code point by two, four or eight digits, of a
    * property by one letter, or of either by a name in braces.
    */
  predicate EscapeText(w: string) {
    && |w| >= 2 && w[0] == '\\'
    && if w[1] !in "xuUpP" then |w| == 2
       else
         && |w| >= 3 && NoBrackets(w[2..])
         && if w[2] == '{' then w[|w| - 1] == '}' && '}' !in w[3..|w| - 1]
            else |w| == (match w[1] case 'x' => 4 case 'u' => 6 case 'U' => 10 case _ => 3)
  }

  /** A single member. */
  predicate PointText(w: string) {
    EscapeText(w) || (|w| == 1 && w[0] != '\\')
  }

  /** A dash after a member makes a range of it. */
  predicate MakesRange(s: string) {
    |s| >= 2 && s[0] == '-' && s[1] !in "]-"
  }

  /** An operator, a member or a range. */
  ghost predicate ItemText(s: string, n: nat)
    requires n <= |s|
  {
    if |s| >= 2 && s[..2] in ["&&", "--", "~~"] then n == 2
    else
      || (PointText(s[..n]) && !MakesRange(s[n..]))
      || exists k :: 0 < k < n && IsRange(s, k, n)
  }

  /** A range of the member that ends at `k`. */
  predicate IsRange(s: string, k: nat, n: nat)
    requires k < n <= |s|
  {
    PointText(s[..k]) && MakesRange(s[k..]) && PointText(s[k + 1..n])
  }

  lemma BracketsPlain(w: string)
    ensures NoBrackets(w) <==> PlainName(w)
  {
  }

  lemma BraceCloses(s: string, n: nat)
    requires 3 < n <= |s|
    ensures 4 + IndexOf(s[3..], '}') == n <==> s[n - 1] == '}' && '}' !in s[3..n - 1]
  {
    var t, i := s[3..], IndexOf(s[3..], '}');
    assert t[n - 4] == s[n - 1] && t[..n - 4] == s[3..n - 1];
    assert i == n - 4 ==> t[..i] == s[3..n - 1];
    if s[n - 1] == '}' && '}' !in s[3..n - 1] {
      assert forall k :: 0 <= k < n - 4 ==> t[k] == s[3..n - 1][k];
      IndexOfIs(t, '}', n - 4);
    }
  }

  lemma EscapeExactly(s: string, n: nat)
    requires s != [] && s[0] == '\\' && 0 < n <= |s|
    ensures EscapeLength(s) == n <==> EscapeText(s[..n])
  {
    var w := s[..n];
    assert forall i :: 0 <= i < n ==> w[i] == s[i];
    if n >= 3 && IsNamed(s[1]) {
      assert w[2..] == s[2..n];
      BracketsPlain(w[2..]);
      hide IndexOf, PlainName, NoBrackets;
      if s[2] == '{' && n > 3 {
        assert w[3..n - 1] == s[3..n - 1];
        BraceCloses(s, n);
      }
    }
  }

  /** The member at the start of a text. */
  lemma PointExactly(s: string, n: nat)
    requires s != [] && 0 < n <= |s|
    ensures PointLength(s) == n <==> PointText(s[..n])
  {
    assert s[..n][0] == s[0];
    if s[0] == '\\' {
      EscapeExactly(s, n);
    }
  }

  lemma OperatorIs(s: string)
    ensures IsOperator(s) <==> |s| >= 2 && s[..2] in ["&&", "--", "~~"]
  {
    if |s| >= 2 {
      assert s[..2] == [s[0], s[1]];
    }
  }

  /** The item at the start of a text, be it an operator, a member or a range. */
  lemma ItemExactly(s: string, n: nat)
    requires s != [] && 0 < n <= |s|
    ensures ItemLength(s) == n <==> ItemText(s, n)
  {
    OperatorIs(s);
    var k := PointLength(s);
    hide PointLength, PointText, IsOperator;
    if !(|s| >= 2 && s[..2] in ["&&", "--", "~~"]) {
      PointExactly(s, n);
      if k < n {
        PointExactly(s, k);
        RangeEnd(s, k, n);
      }
      forall j: nat | 0 < j < n && IsRange(s, j, n) ensures j == k {
        PointExactly(s, j);
      }
    }
  }

  lemma RangeEnd(s: string, k: nat, n: nat)
    requires 0 < k < n <= |s| && PointText(s[..k])
    ensures RangeGoesOn(s[k..]) <==> MakesRange(s[k..])
    ensures MakesRange(s[k..]) ==> k + 1 < |s|
    ensures MakesRange(s[k..]) ==> (IsRange(s, k, n) <==> k + 1 + PointLength(s[k + 1..]) == n)
  {
    if MakesRange(s[k..]) {
      var t := s[k + 1..];
      hide PointLength, PointText;
      if k + 1 < n {
        PointExactly(t, n - k - 1);
        assert t[..n - k - 1] == s[k + 1..n];
      } else {
        NothingIsNoPoint();
        assert s[k + 1..n] == [];
      }
    }
  }

  lemma NothingIsNoPoint()
    ensures !PointText([])
  {
  }
}
