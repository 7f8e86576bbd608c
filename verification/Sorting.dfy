/** Sorting by a key, largest first, keeping equal elements in the order they came. */
module Sorting {

  function InsertDesc<T>(x: T, xs: seq<T>, key: T -> int): seq<T> {
    if xs == [] || key(x) >= key(xs[0]) then [x] + xs
    else [xs[0]] + InsertDesc(x, xs[1..], key)
  }

  function SortDesc<T>(xs: seq<T>, key: T -> int): seq<T> {
    if xs == [] then [] else InsertDesc(xs[0], SortDesc(xs[1..], key), key)
  }

  ghost predicate SortedDesc<T>(xs: seq<T>, key: T -> int) {
    forall i, j :: 0 <= i < j < |xs| ==> key(xs[i]) >= key(xs[j])
  }

  lemma {:induction false} InsertPermutes<T>(x: T, xs: seq<T>, key: T -> int)
    ensures multiset(InsertDesc(x, xs, key)) == multiset{x} + multiset(xs)
  {
    if xs != [] && key(x) < key(xs[0]) {
      InsertPermutes(x, xs[1..], key);
      assert xs == [xs[0]] + xs[1..];
    }
  }

  lemma {:induction false} SortPermutes<T>(xs: seq<T>, key: T -> int)
    ensures multiset(SortDesc(xs, key)) == multiset(xs)
  {
    if xs != [] {
      SortPermutes(xs[1..], key);
      InsertPermutes(xs[0], SortDesc(xs[1..], key), key);
      assert xs == [xs[0]] + xs[1..];
    }
  }

  lemma InsertUnfold<T>(x: T, xs: seq<T>, key: T -> int)
    ensures InsertDesc(x, xs, key) ==
            if xs == [] || key(x) >= key(xs[0]) then [x] + xs
            else [xs[0]] + InsertDesc(x, xs[1..], key)
  {
  }

  lemma {:induction false} InsertSorts<T>(x: T, xs: seq<T>, key: T -> int)
    requires SortedDesc(xs, key)
    ensures SortedDesc(InsertDesc(x, xs, key), key)
  {
    hide *;
    InsertUnfold(x, xs, key);
    SortedTail(xs, key);
    if xs == [] || key(x) >= key(xs[0]) {
      SortedCons(x, xs, key);
    } else {
      var rest := InsertDesc(x, xs[1..], key);
      InsertSorts(x, xs[1..], key);
      InsertPermutes(x, xs[1..], key);
      forall k | 0 <= k < |rest|
        ensures key(xs[0]) >= key(rest[k])
      {
        assert rest[k] in multiset(rest);
        assert rest[k] in multiset{x} + multiset(xs[1..]);
        if rest[k] != x {
          assert rest[k] in xs[1..];
        }
      }
      SortedCons(xs[0], rest, key);
    }
  }

  lemma SortedTail<T>(xs: seq<T>, key: T -> int)
    requires SortedDesc(xs, key)
    ensures xs != [] ==> SortedDesc(xs[1..], key)
    ensures forall k :: 0 <= k < |xs| ==> key(xs[0]) >= key(xs[k])
    ensures xs != [] ==> forall y :: y in xs[1..] ==> key(xs[0]) >= key(y)
  {
  }

  lemma SortedCons<T>(x: T, xs: seq<T>, key: T -> int)
    requires SortedDesc(xs, key) && forall k :: 0 <= k < |xs| ==> key(x) >= key(xs[k])
    ensures SortedDesc([x] + xs, key)
  {
  }

  lemma {:induction false} SortSorts<T>(xs: seq<T>, key: T -> int)
    ensures SortedDesc(SortDesc(xs, key), key)
  {
    if xs != [] {
      SortSorts(xs[1..], key);
      InsertSorts(xs[0], SortDesc(xs[1..], key), key);
    }
  }

  /** The elements with one key, in order. */
  function WithKey<T>(xs: seq<T>, key: T -> int, v: int): seq<T> {
    if xs == [] then []
    else (if key(xs[0]) == v then [xs[0]] else []) + WithKey(xs[1..], key, v)
  }

  lemma WithKeyCons<T>(x: T, xs: seq<T>, key: T -> int, v: int)
    ensures WithKey([x] + xs, key, v) == if key(x) == v then [x] + WithKey(xs, key, v) else WithKey(xs, key, v)
  {
    assert ([x] + xs)[1..] == xs;
  }

  lemma {:induction false} InsertIsStable<T>(x: T, xs: seq<T>, key: T -> int, v: int)
    ensures WithKey(InsertDesc(x, xs, key), key, v) == WithKey([x] + xs, key, v)
  {
    hide *;
    InsertUnfold(x, xs, key);
    if xs != [] && key(x) < key(xs[0]) {
      var rest := xs[1..];
      InsertIsStable(x, rest, key, v);
      WithKeyCons(xs[0], InsertDesc(x, rest, key), key, v);
      WithKeyCons(x, rest, key, v);
      WithKeyCons(x, xs, key, v);
      WithKeyCons(xs[0], rest, key, v);
      assert xs == [xs[0]] + rest;
    }
  }

  /** Elements with equal keys stay in the order they came. */
  lemma {:induction false} SortIsStable<T>(xs: seq<T>, key: T -> int, v: int)
    ensures WithKey(SortDesc(xs, key), key, v) == WithKey(xs, key, v)
  {
    if xs != [] {
      SortIsStable(xs[1..], key, v);
      InsertIsStable(xs[0], SortDesc(xs[1..], key), key, v);
      WithKeyCons(xs[0], SortDesc(xs[1..], key), key, v);
      WithKeyCons(xs[0], xs[1..], key, v);
      assert xs == [xs[0]] + xs[1..];
    }
  }

  lemma SortKeepsMembers<T>(xs: seq<T>, key: T -> int, x: T)
    ensures x in SortDesc(xs, key) <==> x in xs
    ensures |SortDesc(xs, key)| == |xs|
  {
    SortPermutes(xs, key);
    assert x in SortDesc(xs, key) <==> x in multiset(SortDesc(xs, key));
    assert |multiset(SortDesc(xs, key))| == |SortDesc(xs, key)|;
    assert |multiset(xs)| == |xs|;
  }

  /** Only the keys of the elements matter. */
  lemma {:induction false} InsertKeyAgrees<T>(x: T, xs: seq<T>, key: T -> int, key': T -> int)
    requires key(x) == key'(x) && forall k :: 0 <= k < |xs| ==> key(xs[k]) == key'(xs[k])
    ensures InsertDesc(x, xs, key) == InsertDesc(x, xs, key')
  {
    if xs != [] && key(x) < key(xs[0]) {
      InsertKeyAgrees(x, xs[1..], key, key');
    }
  }

  lemma {:induction false} SortKeyAgrees<T>(xs: seq<T>, key: T -> int, key': T -> int)
    requires forall k :: 0 <= k < |xs| ==> key(xs[k]) == key'(xs[k])
    ensures SortDesc(xs, key) == SortDesc(xs, key')
  {
    if xs != [] {
      SortKeyAgrees(xs[1..], key, key');
      var rest := SortDesc(xs[1..], key);
      forall k | 0 <= k < |rest|
        ensures key(rest[k]) == key'(rest[k])
      {
        SortKeepsMembers(xs[1..], key, rest[k]);
        var p :| 0 <= p < |xs[1..]| && xs[1..][p] == rest[k];
        assert xs[p + 1] == rest[k];
      }
      InsertKeyAgrees(xs[0], rest, key, key');
    }
  }
}
