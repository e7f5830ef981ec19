/** What the text primitives compute: lines, joined texts, ASCII case, text order. */
module TextMeaning {
  import opened OrderedSort
  import opened TextLines
  import opened TextTrim

  // ----- lines

  /** Rows, each with its newline. */
  function Terminated(rows: seq<string>): string {
    if rows == [] then "" else rows[0] + ("\n" + Terminated(rows[1..]))
  }

  function Stripped(rows: seq<string>): seq<string> {
    seq(|rows|, i requires 0 <= i < |rows| => StripCr(rows[i]))
  }

  predicate AreRows(rows: seq<string>) {
    forall i :: 0 <= i < |rows| ==> '\n' !in rows[i]
  }

  /** A text is rows that end in a newline and a last piece without one: its lines
    * are the rows without a carriage return at their end, and that piece as it is
    * if there is anything in it.
    */
  lemma {:induction false} LinesExactly(rows: seq<string>, last: string)
    requires AreRows(rows) && '\n' !in last
    ensures Lines(Terminated(rows) + last) == Stripped(rows) + if last == "" then [] else [last]
  {
    if rows == [] {
      assert "" + last == last;
      OnlyPiece(last);
    } else {
      LinesExactly(rows[1..], last);
      hide StripCr, Lines;
      FirstRow(rows, last);
      LinesCons(rows[0], Terminated(rows[1..]) + last);
      FirstStripped(rows);
    }
  }

  lemma FirstRow(rows: seq<string>, last: string)
    requires rows != []
    ensures Terminated(rows) + last == rows[0] + ("\n" + (Terminated(rows[1..]) + last))
  {
    var row, rest := rows[0], Terminated(rows[1..]);
    assert Terminated(rows) == row + ("\n" + rest);
    hide Terminated;
    assert row + ("\n" + rest) + last == row + ("\n" + (rest + last));
  }

  lemma FirstStripped(rows: seq<string>)
    requires rows != []
    ensures Stripped(rows) == [StripCr(rows[0])] + Stripped(rows[1..])
  {
    hide StripCr;
  }

  lemma OnlyPiece(s: string)
    requires '\n' !in s
    ensures Lines(s) == if s == "" then [] else [s]
  {
    IndexOfIs(s, '\n', |s|);
  }

  /** Every text is one of these. */
  lemma {:induction false} EveryTextHasRows(s: string) returns (rows: seq<string>, last: string)
    ensures AreRows(rows) && '\n' !in last && s == Terminated(rows) + last
    decreases |s|
  {
    var k := IndexOf(s, '\n');
    if k == |s| {
      rows, last := [], s;
      assert s[..k] == s && "" + s == s;
    } else {
      var more: seq<string>;
      more, last := EveryTextHasRows(s[k + 1..]);
      rows := [s[..k]] + more;
      assert s == s[..k] + ("\n" + s[k + 1..]);
      hide IndexOf, Terminated;
      assert rows[1..] == more;
      FirstRow(rows, last);
      MoreRows(s[..k], more);
    }
  }

  lemma MoreRows(row: string, rows: seq<string>)
    requires '\n' !in row && AreRows(rows)
    ensures AreRows([row] + rows)
  {
  }

  // ----- joining

  /** A separator stands between two parts, and nowhere else. */
  lemma {:induction false} JoinAppends(parts: seq<string>, part: string, sep: string)
    ensures Join(parts + [part], sep) == if parts == [] then part else Join(parts, sep) + (sep + part)
  {
    if |parts| <= 1 {
      assert parts != [] ==> (parts + [part])[1..] == [part];
    } else {
      assert (parts + [part])[1..] == parts[1..] + [part];
      JoinAppends(parts[1..], part, sep);
      assert parts[0] + sep + (Join(parts[1..], sep) + (sep + part)) == parts[0] + sep + Join(parts[1..], sep) + (sep + part);
    }
  }

  // ----- case

  const CAPITALS := "ABCDEFGHIJKLMNOPQRSTUVWXYZ"
  const SMALL := "abcdefghijklmnopqrstuvwxyz"

  /** The letters of ASCII lose their case, and no other character changes. */
  lemma LowerExactly(s: string, i: nat)
    requires i < |s|
    ensures |LowerAll(s)| == |s|
    ensures forall k: nat :: k < 26 && s[i] == CAPITALS[k] ==> LowerAll(s)[i] == SMALL[k]
    ensures s[i] !in CAPITALS ==> LowerAll(s)[i] == s[i]
  {
    assert LowerAll(s)[i] == Lower(s[i]);
    hide LowerAll;
    forall k: nat | k < 26 && s[i] == CAPITALS[k] ensures Lower(s[i]) == SMALL[k] {
      Letters(k);
    }
    if 'A' <= s[i] <= 'Z' {
      CapitalAt(s[i]);
    }
  }

  lemma Letters(k: nat)
    requires k < 26
    ensures CAPITALS[k] == ('A' as int + k) as char && SMALL[k] == ('a' as int + k) as char
  {
  }

  lemma CapitalAt(c: char)
    requires 'A' <= c <= 'Z'
    ensures c in CAPITALS
  {
    var k: nat := c as int - 'A' as int;
    Letters(k);
    assert CAPITALS[k] == c;
  }

  // ----- order

  /** The texts agree on their first `n` characters, and then one ends or has the smaller one. */
  predicate LeAfter(a: string, b: string, n: nat) {
    && n <= |a| && n <= |b| && a[..n] == b[..n]
    && (n == |a| || (n < |b| && a[n] < b[n]))
  }

  /** Texts are compared at the first place they differ in. */
  lemma {:induction false} TextLeExactly(a: string, b: string)
    ensures TextLe(a, b) <==> exists n: nat :: LeAfter(a, b, n)
  {
    if a == [] {
      assert LeAfter(a, b, 0);
    } else if b != [] {
      if a[0] == b[0] {
        TextLeExactly(a[1..], b[1..]);
        if n: nat :| LeAfter(a[1..], b[1..], n) {
          assert a[..n + 1] == [a[0]] + a[1..][..n] && b[..n + 1] == [b[0]] + b[1..][..n];
          assert LeAfter(a, b, n + 1);
        }
        if n: nat :| LeAfter(a, b, n) {
          assert a[1..][..n - 1] == a[..n][1..] && b[1..][..n - 1] == b[..n][1..];
          assert LeAfter(a[1..], b[1..], n - 1);
        }
      } else if a[0] < b[0] {
        assert LeAfter(a, b, 0);
      } else {
        FirstOrdered(a, b);
      }
    }
  }

  lemma FirstOrdered(a: string, b: string)
    requires a != [] && b != []
    ensures (exists n: nat :: LeAfter(a, b, n)) ==> a[0] <= b[0]
  {
    if n: nat :| LeAfter(a, b, n) {
      assert n > 0 ==> a[0] == a[..n][0] && b[0] == b[..n][0];
    }
  }
}
