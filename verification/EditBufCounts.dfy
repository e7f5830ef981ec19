/** What the line-ending counts of a buffer count, place by place. */
module EditBufCounts {
  import opened TextTrim
  import opened EditBuf

  /** From position `i` on: how often `pat` occurs, overlaps and all. */
  function Places(s: string, pat: string, i: nat): nat
    requires i <= |s|
    decreases |s| - i
  {
    if i == |s| then 0 else (if OccursAt(s, pat, i) then 1 else 0) + Places(s, pat, i + 1)
  }

  predicate BareAt(s: string, i: nat)
    requires i < |s|
  {
    s[i] == '\n' && (i == 0 || s[i - 1] != '\r')
  }

  /** From position `i` on: how many newlines have no carriage return before them. */
  function BareNewlines(s: string, i: nat): nat
    requires i <= |s|
    decreases |s| - i
  {
    if i == |s| then 0 else (if BareAt(s, i) then 1 else 0) + BareNewlines(s, i + 1)
  }

  /** A pattern that ends in its only newline does not overlap itself. */
  predicate EndsInItsNewline(pat: string) {
    pat != [] && pat[|pat| - 1] == '\n' && '\n' !in pat[..|pat| - 1]
  }

  lemma NoOverlap(s: string, pat: string, i: nat, k: nat)
    requires EndsInItsNewline(pat) && OccursAt(s, pat, i) && i < k < i + |pat|
    ensures !OccursAt(s, pat, k)
  {
    var n := |pat|;
    OccursChar(s, pat, i, n - 1);
    OccursChar(s, pat, k, i + n - 1 - k);
    hide OccursAt;
    assert pat[i + n - 1 - k] == pat[..n - 1][i + n - 1 - k];
  }

  lemma OccursChar(s: string, pat: string, k: nat, at: nat)
    requires at < |pat|
    ensures OccursAt(s, pat, k) ==> k + at < |s| && s[k + at] == pat[at]
  {
    if OccursAt(s, pat, k) {
      assert s[k..k + |pat|][at] == s[k + at];
    }
  }

  lemma {:induction false} NoneBetween(s: string, pat: string, i: nat, k: nat)
    requires EndsInItsNewline(pat) && OccursAt(s, pat, i) && i < k <= i + |pat|
    ensures Places(s, pat, k) == Places(s, pat, i + |pat|)
    decreases i + |pat| - k
  {
    if k < i + |pat| {
      NoOverlap(s, pat, i, k);
      NoneBetween(s, pat, i, k + 1);
    }
  }

  lemma {:induction false} CountPlaces(s: string, pat: string, i: nat)
    requires EndsInItsNewline(pat) && i <= |s|
    ensures Count(s[i..], pat) == Places(s, pat, i)
    decreases |s| - i
  {
    hide EndsInItsNewline;
    if i < |s| {
      CountStep(s, pat, i);
      hide Count, OccursAt;
      if OccursAt(s, pat, i) {
        InText(s, pat, i);
        NoneBetween(s, pat, i, i + 1);
        CountPlaces(s, pat, i + |pat|);
      } else {
        CountPlaces(s, pat, i + 1);
      }
    }
  }

  lemma InText(s: string, pat: string, i: nat)
    requires EndsInItsNewline(pat) && OccursAt(s, pat, i)
    ensures |pat| > 0 && i + |pat| <= |s|
  {
  }

  lemma CountStep(s: string, pat: string, i: nat)
    requires EndsInItsNewline(pat) && i < |s|
    ensures pat != []
    ensures if OccursAt(s, pat, i) then i + |pat| <= |s| && Count(s[i..], pat) == 1 + Count(s[i + |pat|..], pat)
            else Count(s[i..], pat) == Count(s[i + 1..], pat)
  {
    var t := s[i..];
    assert pat <= t <==> OccursAt(s, pat, i) by {
      assert |pat| <= |t| ==> t[..|pat|] == s[i..i + |pat|];
    }
    assert t[1..] == s[i + 1..];
    if OccursAt(s, pat, i) {
      assert t[|pat|..] == s[i + |pat|..];
    }
  }

  lemma OccursShort(s: string, i: nat)
    requires i < |s|
    ensures OccursAt(s, "\n", i) <==> s[i] == '\n'
    ensures OccursAt(s, "\r\n", i) <==> s[i] == '\r' && i + 1 < |s| && s[i + 1] == '\n'
  {
    assert s[i..i + 1] == [s[i]];
    if i + 1 < |s| {
      assert s[i..i + 2] == [s[i], s[i + 1]];
    }
  }

  lemma {:induction false} BareIs(s: string, i: nat)
    requires i <= |s|
    ensures Places(s, "\n", i)
         == Places(s, "\r\n", i) + BareNewlines(s, i)
          + if 0 < i < |s| && s[i] == '\n' && s[i - 1] == '\r' then 1 else 0
    decreases |s| - i
  {
    if i < |s| {
      BareIs(s, i + 1);
      OccursShort(s, i);
      hide OccursAt;
    }
  }

  /** A buffer reads as CRLF when more of its newlines have a carriage return before
    * them than not, and as mixed when there are newlines of either kind.
    */
  lemma ReadsExactly(text: string)
    ensures Count(text, "\r\n") == Places(text, "\r\n", 0) && Count(text, "\n") == Places(text, "\n", 0)
    ensures Count(text, "\r\r\n") == Places(text, "\r\r\n", 0)
    ensures BareLfs(text) == BareNewlines(text, 0)
    ensures DominantEnding(text) == CrLf <==> Places(text, "\r\n", 0) > BareNewlines(text, 0)
    ensures IsMixed(text) <==> Places(text, "\r\n", 0) > 0 && BareNewlines(text, 0) > 0
  {
    assert text[0..] == text;
    CountPlaces(text, "\n", 0);
    CountPlaces(text, "\r\n", 0);
    CountPlaces(text, "\r\r\n", 0);
    BareIs(text, 0);
    hide Count, Places, BareNewlines;
  }
}
