/** Stable sorting by an integer key, characterised completely
  * (`StableSortUnique`): there is only one sorted arrangement that keeps
  * elements of equal key in their original order.
  */
module StableSort {
  import opened OrderedSort

  ghost predicate SortedBy<T>(xs: seq<T>, key: T -> int) {
    forall i, j :: 0 <= i < j < |xs| ==> key(xs[i]) <= key(xs[j])
  }

  /** The subsequence of `xs` whose key is `k`. */
  function WithKey<T(!new)>(xs: seq<T>, key: T -> int, k: int): (ys: seq<T>)
    ensures forall y :: y in ys <==> y in xs && key(y) == k
  {
    if xs == [] then []
    else if key(xs[0]) == k then [xs[0]] + WithKey(xs[1..], key, k)
    else WithKey(xs[1..], key, k)
  }

  function KeyOrder<T>(key: T -> int): (T, T) -> bool {
    (x, y) => key(x) <= key(y)
  }

  function SortBy<T>(xs: seq<T>, key: T -> int): seq<T> {
    Sort(xs, KeyOrder(key))
  }

  lemma {:induction false} WithKeyIsFilter<T(!new)>(xs: seq<T>, key: T -> int, k: int)
    ensures WithKey(xs, key, k) == Filter(xs, x => key(x) == k)
  {
    if xs != [] {
      WithKeyIsFilter(xs[1..], key, k);
    }
  }

  /** The sort is sorted, a permutation, and stable. */
  lemma SortByIsStable<T(!new)>(xs: seq<T>, key: T -> int)
    ensures SortedBy(SortBy(xs, key), key)
    ensures multiset(SortBy(xs, key)) == multiset(xs)
    ensures forall k :: WithKey(SortBy(xs, key), key, k) == WithKey(xs, key, k)
  {
    var le := KeyOrder(key);
    SortSorts(xs, le);
    SortPermutes(xs, le);
    assert SortedBy(SortBy(xs, key), key) by {
      var ys := SortBy(xs, key);
      forall i, j | 0 <= i < j < |ys| ensures key(ys[i]) <= key(ys[j]) {
        assert le(ys[i], ys[j]);
      }
    }
    forall k ensures WithKey(SortBy(xs, key), key, k) == WithKey(xs, key, k) {
      WithKeyIsFilter(xs, key, k);
      WithKeyIsFilter(SortBy(xs, key), key, k);
      SortStable(xs, le, x => key(x) == k);
    }
  }

  lemma {:induction false} WithKeyConcat<T(!new)>(xs: seq<T>, ys: seq<T>, key: T -> int, k: int)
    ensures WithKey(xs + ys, key, k) == WithKey(xs, key, k) + WithKey(ys, key, k)
  {
    if xs == [] {
      assert xs + ys == ys;
    } else {
      assert (xs + ys)[1..] == xs[1..] + ys;
      WithKeyConcat(xs[1..], ys, key, k);
    }
  }

  lemma {:induction false} WithKeyAll<T(!new)>(xs: seq<T>, key: T -> int, k: int)
    requires forall x :: x in xs ==> key(x) == k
    ensures WithKey(xs, key, k) == xs
  {
    if xs != [] {
      WithKeyAll(xs[1..], key, k);
    }
  }

  lemma {:induction false} WithKeyNone<T(!new)>(xs: seq<T>, key: T -> int, k: int)
    requires forall x :: x in xs ==> key(x) != k
    ensures WithKey(xs, key, k) == []
  {
    if xs != [] {
      WithKeyNone(xs[1..], key, k);
    }
  }

  lemma SameHead<T(!new)>(xs: seq<T>, ys: seq<T>, key: T -> int)
    requires SortedBy(xs, key) && SortedBy(ys, key)
    requires forall k :: WithKey(xs, key, k) == WithKey(ys, key, k)
    requires xs != []
    ensures ys != [] && ys[0] == xs[0]
  {
    var k := key(xs[0]);
    assert xs[0] in WithKey(xs, key, k);
    assert xs[0] in WithKey(ys, key, k);
    var l := key(ys[0]);
    assert ys[0] in WithKey(ys, key, l);
    assert ys[0] in WithKey(xs, key, l);
    assert k == l;
  }

  /** Sortedness and stability determine the arrangement. */
  lemma {:induction false} StableSortUnique<T(!new)>(xs: seq<T>, ys: seq<T>, key: T -> int)
    requires SortedBy(xs, key) && SortedBy(ys, key)
    requires forall k :: WithKey(xs, key, k) == WithKey(ys, key, k)
    ensures xs == ys
  {
    if xs == [] {
      if ys != [] {
        SameHead(ys, xs, key);
      }
    } else {
      SameHead(xs, ys, key);
      forall k ensures WithKey(xs[1..], key, k) == WithKey(ys[1..], key, k) {
        TailKeys(xs, key, k);
        TailKeys(ys, key, k);
      }
      StableSortUnique(xs[1..], ys[1..], key);
      assert xs == [xs[0]] + xs[1..] && ys == [ys[0]] + ys[1..];
    }
  }

  lemma TailKeys<T(!new)>(xs: seq<T>, key: T -> int, k: int)
    requires xs != []
    ensures key(xs[0]) == k ==> WithKey(xs, key, k) != []
    ensures WithKey(xs[1..], key, k) == if key(xs[0]) == k then WithKey(xs, key, k)[1..] else WithKey(xs, key, k)
  {
  }
}
