/** The standard library's stable sort by an integer key, as an insertion sort, with the two
  * facts that pin it down. */
module Sorting {

  function Insert<T>(key: T -> int, x: T, sorted: seq<T>): seq<T> {
    if |sorted| == 0 || key(x) < key(sorted[0]) then [x] + sorted
    else [sorted[0]] + Insert(key, x, sorted[1..])
  }

  function SortByKey<T>(key: T -> int, xs: seq<T>): seq<T> {
    if |xs| == 0 then []
    else Insert(key, xs[|xs| - 1], SortByKey(key, xs[..|xs| - 1]))
  }

  ghost predicate InOrder<T>(key: T -> int, xs: seq<T>) {
    forall i, j :: 0 <= i < j < |xs| ==> key(xs[i]) <= key(xs[j])
  }

  // The elements of one key, in list order.
  function WithKey<T>(key: T -> int, xs: seq<T>, k: int): seq<T> {
    if |xs| == 0 then []
    else (if key(xs[0]) == k then [xs[0]] else []) + WithKey(key, xs[1..], k)
  }

  lemma {:induction false} WithKeyAppend<T>(key: T -> int, xs: seq<T>, x: T, k: int)
    ensures WithKey(key, xs + [x], k) == WithKey(key, xs, k) + if key(x) == k then [x] else []
  {
    if |xs| == 0 {
      assert xs + [x] == [x] && [x][1..] == [];
    } else {
      WithKeyAppend(key, xs[1..], x, k);
      assert (xs + [x])[1..] == xs[1..] + [x];
    }
  }

  lemma {:induction false} NoneAbove<T>(key: T -> int, xs: seq<T>, k: int)
    requires forall i :: 0 <= i < |xs| ==> key(xs[i]) > k
    ensures WithKey(key, xs, k) == []
  {
    if |xs| > 0 {
      NoneAbove(key, xs[1..], k);
    }
  }

  lemma {:induction false} InsertAdds<T>(key: T -> int, x: T, sorted: seq<T>)
    ensures multiset(Insert(key, x, sorted)) == multiset(sorted) + multiset{x}
  {
    if !(|sorted| == 0 || key(x) < key(sorted[0])) {
      InsertAdds(key, x, sorted[1..]);
      assert sorted == [sorted[0]] + sorted[1..];
    }
  }

  lemma {:induction false} InsertKeepsOrder<T>(key: T -> int, x: T, sorted: seq<T>)
    requires InOrder(key, sorted)
    ensures InOrder(key, Insert(key, x, sorted))
  {
    if !(|sorted| == 0 || key(x) < key(sorted[0])) {
      var rest := Insert(key, x, sorted[1..]);
      InsertKeepsOrder(key, x, sorted[1..]);
      InsertAdds(key, x, sorted[1..]);
      forall i | 0 <= i < |rest|
        ensures key(rest[i]) >= key(sorted[0])
      {
        assert rest[i] in multiset(rest);
        assert rest[i] == x || rest[i] in sorted[1..];
      }
    }
  }

  lemma {:induction false} InsertIsStable<T>(key: T -> int, x: T, sorted: seq<T>, k: int)
    requires InOrder(key, sorted)
    ensures WithKey(key, Insert(key, x, sorted), k) == WithKey(key, sorted + [x], k)
  {
    WithKeyAppend(key, sorted, x, k);
    if |sorted| == 0 || key(x) < key(sorted[0]) {
      assert ([x] + sorted)[1..] == sorted;
      if key(x) == k {
        NoneAbove(key, sorted, k);
      }
    } else {
      InsertIsStable(key, x, sorted[1..], k);
      WithKeyAppend(key, sorted[1..], x, k);
      assert ([sorted[0]] + Insert(key, x, sorted[1..]))[1..] == Insert(key, x, sorted[1..]);
    }
  }

  /** The result is in key order, a permutation, and stable: elements of one key keep their order. */
  lemma {:induction false} SortIsStable<T>(key: T -> int, xs: seq<T>)
    ensures InOrder(key, SortByKey(key, xs))
    ensures multiset(SortByKey(key, xs)) == multiset(xs)
    ensures forall k :: WithKey(key, SortByKey(key, xs), k) == WithKey(key, xs, k)
  {
    if |xs| > 0 {
      var front, last := xs[..|xs| - 1], xs[|xs| - 1];
      SortIsStable(key, front);
      assert xs == front + [last];
      InsertKeepsOrder(key, last, SortByKey(key, front));
      InsertAdds(key, last, SortByKey(key, front));
      forall k
        ensures WithKey(key, SortByKey(key, xs), k) == WithKey(key, xs, k)
      {
        InsertIsStable(key, last, SortByKey(key, front), k);
        WithKeyAppend(key, front, last, k);
        WithKeyAppend(key, SortByKey(key, front), last, k);
      }
    }
  }

  lemma {:induction false} WithKeyNonEmpty<T>(key: T -> int, xs: seq<T>, k: int)
    ensures WithKey(key, xs, k) != [] <==> exists i :: 0 <= i < |xs| && key(xs[i]) == k
  {
    if |xs| > 0 {
      WithKeyNonEmpty(key, xs[1..], k);
      if i :| 0 <= i < |xs| && key(xs[i]) == k {
        if i > 0 {
          assert key(xs[1..][i - 1]) == k;
        }
      }
      if i :| 0 <= i < |xs| - 1 && key(xs[1..][i]) == k {
        assert key(xs[i + 1]) == k;
      }
    }
  }

  // Two ordered lists that agree key by key start with the same element.
  lemma {:induction false} SameHead<T>(key: T -> int, a: seq<T>, b: seq<T>)
    requires InOrder(key, a) && InOrder(key, b) && |a| > 0
    requires forall k :: WithKey(key, a, k) == WithKey(key, b, k)
    ensures |b| > 0 && a[0] == b[0]
  {
    var d := key(a[0]);
    assert WithKey(key, a, d)[0] == a[0];
    WithKeyNonEmpty(key, b, d);
    var i :| 0 <= i < |b| && key(b[i]) == d;
    var e := key(b[0]);
    assert WithKey(key, b, e)[0] == b[0];
    WithKeyNonEmpty(key, a, e);
    var j :| 0 <= j < |a| && key(a[j]) == e;
  }

  /** Order and stability leave only one result, so any stable sort computes SortByKey. */
  lemma {:induction false} StableSortIsUnique<T>(key: T -> int, a: seq<T>, b: seq<T>)
    requires InOrder(key, a) && InOrder(key, b)
    requires forall k :: WithKey(key, a, k) == WithKey(key, b, k)
    ensures a == b
    decreases |a|
  {
    if |a| == 0 && |b| == 0 {
    } else {
      if |a| > 0 {
        SameHead(key, a, b);
      } else {
        SameHead(key, b, a);
      }
      forall k
        ensures WithKey(key, a[1..], k) == WithKey(key, b[1..], k)
      {
        assert WithKey(key, a, k) == WithKey(key, b, k);
        if key(a[0]) == k {
          assert WithKey(key, a, k)[1..] == WithKey(key, a[1..], k);
          assert WithKey(key, b, k)[1..] == WithKey(key, b[1..], k);
        } else {
          assert WithKey(key, a, k) == WithKey(key, a[1..], k);
          assert WithKey(key, b, k) == WithKey(key, b[1..], k);
        }
      }
      StableSortIsUnique(key, a[1..], b[1..]);
      assert a == [a[0]] + a[1..] && b == [b[0]] + b[1..];
    }
  }
}
