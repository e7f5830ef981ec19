/** Lists of names without duplicates, in order. */
module NameLists {
  import opened OrderedSort

  predicate NoDuplicates(xs: seq<string>) {
    forall i, j :: 0 <= i < j < |xs| ==> xs[i] != xs[j]
  }

  predicate StrictlySorted(xs: seq<string>) {
    forall i, j :: 0 <= i < j < |xs| ==> TextLe(xs[i], xs[j]) && xs[i] != xs[j]
  }

  lemma AddFresh(seen: seq<string>, n: string)
    requires NoDuplicates(seen) && n !in seen
    ensures NoDuplicates(seen + [n])
  {
  }

  lemma {:induction false} FilterNoDuplicates(xs: seq<string>, keep: string -> bool)
    requires NoDuplicates(xs)
    ensures NoDuplicates(Filter(xs, keep))
  {
    if xs != [] {
      assert forall i :: 0 <= i < |xs[1..]| ==> xs[1..][i] == xs[i + 1];
      FilterNoDuplicates(xs[1..], keep);
      var rest := Filter(xs[1..], keep);
      forall j | 0 <= j < |rest| ensures rest[j] != xs[0] {
        assert rest[j] in rest;
      }
    }
  }

  lemma DistinctInMultiset(xs: seq<string>, i: nat, j: nat)
    requires i < j < |xs| && xs[i] == xs[j]
    ensures multiset(xs)[xs[i]] >= 2
  {
    assert xs == xs[..j] + [xs[j]] + xs[j + 1..];
    assert xs[i] in xs[..j];
    assert multiset(xs) == multiset(xs[..j]) + multiset{xs[j]} + multiset(xs[j + 1..]);
  }

  lemma {:induction false} OnceEach(xs: seq<string>, x: string)
    requires NoDuplicates(xs)
    ensures multiset(xs)[x] <= 1
  {
    if xs != [] {
      assert forall i :: 0 <= i < |xs[1..]| ==> xs[1..][i] == xs[i + 1];
      OnceEach(xs[1..], x);
      assert xs == [xs[0]] + xs[1..];
      assert xs[0] !in xs[1..];
    }
  }

  lemma SortStrict(xs: seq<string>)
    requires NoDuplicates(xs)
    ensures StrictlySorted(Sort(xs, TextLe))
  {
    hide TextLe;
    var ys := Sort(xs, TextLe);
    TextOrder();
    SortSorts(xs, TextLe);
    SortPermutes(xs, TextLe);
    forall i, j | 0 <= i < j < |ys| ensures ys[i] != ys[j] {
      OnceEach(xs, ys[i]);
      if ys[i] == ys[j] {
        DistinctInMultiset(ys, i, j);
      }
    }
  }

  /** The members and the order fix the list. */
  lemma {:induction false} StrictlySortedUnique(xs: seq<string>, ys: seq<string>)
    requires StrictlySorted(xs) && StrictlySorted(ys)
    requires forall b :: b in xs <==> b in ys
    ensures xs == ys
  {
    hide TextLe;
    if xs != [] {
      assert xs[0] in ys;
    }
    if ys != [] {
      assert ys[0] in xs;
    }
    if xs != [] && ys != [] {
      if xs[0] != ys[0] {
        TextLeAntisymmetric(xs[0], ys[0]);
      }
      forall b ensures b in xs[1..] <==> b in ys[1..] {
        assert b in xs <==> b == xs[0] || b in xs[1..];
        assert b in ys <==> b == ys[0] || b in ys[1..];
        assert xs[0] !in xs[1..] && ys[0] !in ys[1..];
      }
      StrictlySortedUnique(xs[1..], ys[1..]);
      assert xs == [xs[0]] + xs[1..] && ys == [ys[0]] + ys[1..];
    }
  }

  // ----- the distinct names of a list, in order of first occurrence

  function Firsts(xs: seq<string>): (r: seq<string>)
    ensures forall x :: x in r <==> x in xs
    ensures NoDuplicates(r)
  {
    if xs == [] then []
    else
      var r := Firsts(xs[..|xs| - 1]);
      assert xs == xs[..|xs| - 1] + [xs[|xs| - 1]];
      if xs[|xs| - 1] in r then r else r + [xs[|xs| - 1]]
  }

  /** Where a name first stands. */
  function FirstAt(xs: seq<string>, x: string): (i: nat)
    requires x in xs
    ensures i < |xs| && xs[i] == x && forall k :: 0 <= k < i ==> xs[k] != x
  {
    if xs[0] == x then 0 else 1 + FirstAt(xs[1..], x)
  }

  lemma FirstAtInit(xs: seq<string>, x: string)
    requires xs != [] && x in xs[..|xs| - 1]
    ensures x in xs && FirstAt(xs, x) == FirstAt(xs[..|xs| - 1], x)
  {
    var init := xs[..|xs| - 1];
    hide FirstAt;
    assert forall k :: 0 <= k < |init| ==> init[k] == xs[k];
    assert xs[FirstAt(init, x)] == x;
  }

  /** Names stand in the order they first occurred in. */
  lemma {:induction false} FirstsInOrder(xs: seq<string>, i: nat, j: nat)
    requires i < j < |Firsts(xs)|
    ensures Firsts(xs)[i] in xs && Firsts(xs)[j] in xs
    ensures FirstAt(xs, Firsts(xs)[i]) < FirstAt(xs, Firsts(xs)[j])
  {
    var init, r := xs[..|xs| - 1], Firsts(xs[..|xs| - 1]);
    var a, b := Firsts(xs)[i], Firsts(xs)[j];
    assert a in Firsts(xs) && b in Firsts(xs);
    assert a == r[i] && a in r;
    FirstAtInit(xs, a);
    if j < |r| {
      assert b == r[j] && b in r;
      FirstAtInit(xs, b);
      FirstsInOrder(init, i, j);
    } else {
      LastIsFirst(xs, b);
    }
  }

  lemma LastIsFirst(xs: seq<string>, x: string)
    requires xs != [] && xs[|xs| - 1] == x && x !in xs[..|xs| - 1]
    ensures x in xs && FirstAt(xs, x) == |xs| - 1
  {
    assert x in xs;
    forall i | 0 <= i < |xs| - 1 ensures xs[i] != x {
      assert xs[i] in xs[..|xs| - 1];
    }
  }
}
