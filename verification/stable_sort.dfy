/** Python's `sorted(xs, key=f)`: ascending by key, and stable, so that
    elements with equal keys keep their original relative order. */
module StableSort {
  import opened Dedup

  predicate SortedBy<T>(s: seq<T>, key: T -> int)
  {
    forall i, j :: 0 <= i < j < |s| ==> key(s[i]) <= key(s[j])
  }

  /** The elements of `s` whose key is `v`, in order. */
  function WithKey<T>(s: seq<T>, key: T -> int, v: int): seq<T>
  {
    if |s| == 0 then []
    else (if key(s[0]) == v then [s[0]] else []) + WithKey(s[1..], key, v)
  }

  /** Insert `x` before the first element whose key is not smaller. */
  function InsertBy<T>(x: T, s: seq<T>, key: T -> int): seq<T>
  {
    if |s| == 0 || key(x) <= key(s[0]) then [x] + s
    else [s[0]] + InsertBy(x, s[1..], key)
  }

  lemma {:induction false} InsertSorted<T>(x: T, s: seq<T>, key: T -> int)
    requires SortedBy(s, key)
    ensures SortedBy(InsertBy(x, s, key), key)
    ensures |InsertBy(x, s, key)| == |s| + 1
    ensures |s| > 0 ==> InsertBy(x, s, key)[0] == x || InsertBy(x, s, key)[0] == s[0]
  {
    if |s| > 0 && key(x) > key(s[0]) {
      var t := InsertBy(x, s[1..], key);
      InsertSorted(x, s[1..], key);
      assert SortedBy(t, key);
      assert |s| > 1 ==> key(s[0]) <= key(s[1]);
      assert key(s[0]) <= key(t[0]);
    }
  }

  /** Insertion adds exactly one element. */
  lemma {:induction false} InsertPermutes<T>(x: T, s: seq<T>, key: T -> int)
    ensures multiset(InsertBy(x, s, key)) == multiset(s) + multiset{x}
  {
    if |s| > 0 && key(x) > key(s[0]) {
      InsertPermutes(x, s[1..], key);
      assert s == [s[0]] + s[1..];
    }
  }

  lemma WithKeyCons<T>(h: T, t: seq<T>, key: T -> int, v: int)
    ensures WithKey([h] + t, key, v) == (if key(h) == v then [h] else []) + WithKey(t, key, v)
  {
    assert ([h] + t)[1..] == t;
  }

  lemma {:induction false} InsertWithKey<T>(x: T, s: seq<T>, key: T -> int, v: int)
    requires SortedBy(s, key)
    ensures WithKey(InsertBy(x, s, key), key, v)
            == (if key(x) == v then [x] else []) + WithKey(s, key, v)
  {
    if |s| == 0 || key(x) <= key(s[0]) {
      WithKeyCons(x, s, key, v);
    } else {
      var xs: seq<T> := if key(x) == v then [x] else [];
      var hs: seq<T> := if key(s[0]) == v then [s[0]] else [];
      var t := InsertBy(x, s[1..], key);
      InsertWithKey(x, s[1..], key, v);
      WithKeyCons(s[0], t, key, v);
      WithKeyCons(s[0], s[1..], key, v);
      assert s == [s[0]] + s[1..];
      assert hs == [] || xs == [];
      assert hs + (xs + WithKey(s[1..], key, v)) == xs + (hs + WithKey(s[1..], key, v));
    }
  }

  /** The stable insertion sort that `sorted` amounts to. */
  function SortBy<T>(s: seq<T>, key: T -> int): (r: seq<T>)
    ensures SortedBy(r, key)
    ensures |r| == |s|
    ensures forall v :: WithKey(r, key, v) == WithKey(s, key, v)
  {
    if |s| == 0 then []
    else
      var rest := SortBy(s[1..], key);
      InsertSorted(s[0], rest, key);
      forall v ensures WithKey(InsertBy(s[0], rest, key), key, v) == WithKey(s, key, v) {
        InsertWithKey(s[0], rest, key, v);
      }
      InsertBy(s[0], rest, key)
  }

  /** Sorting preserves the multiset of elements. */
  lemma {:induction false} SortPermutes<T>(s: seq<T>, key: T -> int)
    ensures multiset(SortBy(s, key)) == multiset(s)
  {
    if |s| > 0 {
      var rest := SortBy(s[1..], key);
      SortPermutes(s[1..], key);
      InsertPermutes(s[0], rest, key);
      ConsMultiset(s);
      assert SortBy(s, key) == InsertBy(s[0], rest, key);
    }
  }

  lemma ConsMultiset<T>(s: seq<T>)
    requires |s| > 0
    ensures multiset(s) == multiset{s[0]} + multiset(s[1..])
  {
    assert s == [s[0]] + s[1..];
  }

  /** When all keys are equal, as for target axes that are not intrinsic
      axes, sorting leaves the sequence as it is. */
  lemma {:induction false} SortConstantKey<T>(s: seq<T>, key: T -> int, c: int)
    requires forall i :: 0 <= i < |s| ==> key(s[i]) == c
    ensures SortBy(s, key) == s
  {
    if |s| > 0 {
      SortConstantKey(s[1..], key, c);
      assert SortBy(s[1..], key) == s[1..];
      assert s == [s[0]] + s[1..];
    }
  }

  /** Two elements with key `v` come in the same order in `s` as among
      the elements of `s` with key `v`. */
  lemma {:induction false} WithKeyOrder<T>(s: seq<T>, key: T -> int, v: int, x: T, y: T)
    requires x in s && y in s && x != y && key(x) == v && key(y) == v
    ensures FirstIndex(s, x) < FirstIndex(s, y) <==>
      FirstIndex(WithKey(s, key, v), x) < FirstIndex(WithKey(s, key, v), y)
  {
    var w := WithKey(s, key, v);
    var w' := WithKey(s[1..], key, v);
    assert s == [s[0]] + s[1..];
    WithKeyCons(s[0], s[1..], key, v);
    if s[0] == x || s[0] == y {
      assert w == [s[0]] + w';
    } else {
      assert x in s[1..] && y in s[1..];
      WithKeyOrder(s[1..], key, v, x, y);
      if key(s[0]) == v {
        assert w == [s[0]] + w';
        assert w[1..] == w';
      } else {
        assert w == w';
      }
    }
  }

  /** Stability, stated on positions: sorting keeps the relative order of
      two different elements with equal keys. */
  lemma SortKeepsTieOrder<T>(s: seq<T>, key: T -> int, x: T, y: T)
    requires x in s && y in s && x != y && key(x) == key(y)
    ensures FirstIndex(SortBy(s, key), x) < FirstIndex(SortBy(s, key), y) <==> FirstIndex(s, x) < FirstIndex(s, y)
  {
    var r := SortBy(s, key);
    SortPermutes(s, key);
    assert x in multiset(s) && y in multiset(s);
    assert x in r && y in r;
    WithKeyOrder(s, key, key(x), x, y);
    WithKeyOrder(r, key, key(x), x, y);
  }
}
