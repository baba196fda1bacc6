/** First-of-class deduplication, as done by a loop that keeps a `visited`
    set of keys and appends an element only when its key is new.

    It is used twice: to keep one bit-vector per class of equivalent
    unfold choices (key: the per-axis name grouping; elements with an
    empty selection are skipped without being recorded), and to keep the
    first occurrence of every target axis (key: the axis itself). */
module Dedup {

  /** The loop as written: scan left to right, skip elements that are not
      kept or whose key was already seen, record the key of every element
      that is appended. */
  function DedupBy<T, K(==)>(s: seq<T>, keep: T -> bool, key: T -> K, seen: set<K>): seq<T>
  {
    if |s| == 0 then []
    else if keep(s[0]) && key(s[0]) !in seen then
      [s[0]] + DedupBy(s[1..], keep, key, seen + {key(s[0])})
    else
      DedupBy(s[1..], keep, key, seen)
  }

  /** Position `j` holds the first kept element of its class. */
  ghost predicate FirstOfClass<T, K>(s: seq<T>, keep: T -> bool, key: T -> K, j: int)
    requires 0 <= j < |s|
  {
    keep(s[j]) && forall k :: 0 <= k < j && keep(s[k]) ==> key(s[k]) != key(s[j])
  }

  /** Reference definition: the elements of `s[..n]` that are the first kept
      member of their class, in their original order. */
  ghost function Firsts<T, K>(s: seq<T>, keep: T -> bool, key: T -> K, n: nat): seq<T>
    requires n <= |s|
  {
    if n == 0 then []
    else Firsts(s, keep, key, n - 1) + (if FirstOfClass(s, keep, key, n - 1) then [s[n - 1]] else [])
  }

  /** The keys recorded after scanning `s[..n]`. */
  ghost function SeenIn<T, K>(s: seq<T>, keep: T -> bool, key: T -> K, n: nat): set<K>
    requires n <= |s|
  {
    set k | 0 <= k < n && keep(s[k]) :: key(s[k])
  }

  lemma {:induction false} DedupFrom<T, K>(s: seq<T>, keep: T -> bool, key: T -> K, n: nat)
    requires n <= |s|
    ensures Firsts(s, keep, key, n) + DedupBy(s[n..], keep, key, SeenIn(s, keep, key, n))
            == Firsts(s, keep, key, |s|)
    decreases |s| - n
  {
    if n == |s| {
      assert s[n..] == [];
    } else {
      var seen := SeenIn(s, keep, key, n);
      var rest := s[n..];
      assert rest[0] == s[n];
      assert rest[1..] == s[n + 1..];
      var first := FirstOfClass(s, keep, key, n);
      assert first <==> keep(s[n]) && key(s[n]) !in seen by {
        if keep(s[n]) && key(s[n]) in seen {
          var k :| 0 <= k < n && keep(s[k]) && key(s[k]) == key(s[n]);
        }
      }
      var seen' := SeenIn(s, keep, key, n + 1);
      if keep(s[n]) {
        assert seen' == seen + {key(s[n])};
      } else {
        assert seen' == seen;
      }
      DedupFrom(s, keep, key, n + 1);
      if first {
        assert DedupBy(rest, keep, key, seen) == [s[n]] + DedupBy(s[n + 1..], keep, key, seen');
        assert Firsts(s, keep, key, n + 1) == Firsts(s, keep, key, n) + [s[n]];
      } else {
        assert seen' == seen;
        assert DedupBy(rest, keep, key, seen) == DedupBy(s[n + 1..], keep, key, seen');
        assert Firsts(s, keep, key, n + 1) == Firsts(s, keep, key, n);
      }
    }
  }

  /** The loop computes the reference definition. */
  lemma DedupIsFirsts<T, K>(s: seq<T>, keep: T -> bool, key: T -> K)
    ensures DedupBy(s, keep, key, {}) == Firsts(s, keep, key, |s|)
  {
    assert SeenIn(s, keep, key, 0) == {};
    assert s[0..] == s;
    DedupFrom(s, keep, key, 0);
  }

  /** The i-th retained element is the first of its class, at a position
      this lemma returns. */
  lemma {:induction false} FirstsSoundAt<T, K>(s: seq<T>, keep: T -> bool, key: T -> K, n: nat, i: nat) returns (j: nat)
    requires n <= |s| && i < |Firsts(s, keep, key, n)|
    ensures j < n && Firsts(s, keep, key, n)[i] == s[j] && FirstOfClass(s, keep, key, j)
  {
    assert n > 0;
    var p := Firsts(s, keep, key, n - 1);
    assert Firsts(s, keep, key, n) == p + (if FirstOfClass(s, keep, key, n - 1) then [s[n - 1]] else []);
    if i < |p| {
      j := FirstsSoundAt(s, keep, key, n - 1, i);
      assert Firsts(s, keep, key, n)[i] == p[i];
    } else {
      j := n - 1;
    }
  }

  /** Every retained element is a kept element of the input. */
  lemma FirstsSound<T, K>(s: seq<T>, keep: T -> bool, key: T -> K, n: nat)
    requires n <= |s|
    ensures forall i :: 0 <= i < |Firsts(s, keep, key, n)| ==> keep(Firsts(s, keep, key, n)[i]) && Firsts(s, keep, key, n)[i] in s
  {
    forall i | 0 <= i < |Firsts(s, keep, key, n)|
      ensures keep(Firsts(s, keep, key, n)[i]) && Firsts(s, keep, key, n)[i] in s
    {
      var j := FirstsSoundAt(s, keep, key, n, i);
    }
  }

  /** Retained elements belong to pairwise different classes. */
  lemma {:induction false} FirstsDistinct<T, K>(s: seq<T>, keep: T -> bool, key: T -> K, n: nat)
    requires n <= |s|
    ensures forall i, j :: 0 <= i < j < |Firsts(s, keep, key, n)| ==> key(Firsts(s, keep, key, n)[i]) != key(Firsts(s, keep, key, n)[j])
  {
    if n > 0 {
      FirstsDistinct(s, keep, key, n - 1);
      var p := Firsts(s, keep, key, n - 1);
      if FirstOfClass(s, keep, key, n - 1) {
        var r := p + [s[n - 1]];
        forall i | 0 <= i < |p|
          ensures key(p[i]) != key(s[n - 1])
        {
          var j := FirstsSoundAt(s, keep, key, n - 1, i);
          assert keep(s[j]) && j < n - 1;
        }
        forall i, j | 0 <= i < j < |r|
          ensures key(r[i]) != key(r[j])
        {
          if j < |p| {
            assert r[i] == p[i] && r[j] == p[j];
          } else {
            assert r[i] == p[i] && r[j] == s[n - 1];
          }
        }
      }
    }
  }

  /** Every kept input element has its class represented. */
  lemma {:induction false} FirstsComplete<T, K>(s: seq<T>, keep: T -> bool, key: T -> K, n: nat)
    requires n <= |s|
    ensures forall j :: 0 <= j < n && keep(s[j]) ==> exists i :: 0 <= i < |Firsts(s, keep, key, n)| && key(Firsts(s, keep, key, n)[i]) == key(s[j])
  {
    if n == 0 {
      assert Firsts(s, keep, key, n) == [];
    } else {
      FirstsComplete(s, keep, key, n - 1);
      var p := Firsts(s, keep, key, n - 1);
      assert Firsts(s, keep, key, n) == p + (if FirstOfClass(s, keep, key, n - 1) then [s[n - 1]] else []);
      forall j | 0 <= j < n && keep(s[j])
        ensures exists i :: 0 <= i < |Firsts(s, keep, key, n)| && key(Firsts(s, keep, key, n)[i]) == key(s[j])
      {
        var i: nat;
        if j < n - 1 {
          i :| 0 <= i < |p| && key(p[i]) == key(s[j]);
        } else if FirstOfClass(s, keep, key, j) {
          i := |p|;
        } else {
          var k :| 0 <= k < j && keep(s[k]) && key(s[k]) == key(s[j]);
          i :| 0 <= i < |p| && key(p[i]) == key(s[k]);
        }
        assert 0 <= i < |Firsts(s, keep, key, n)| && key(Firsts(s, keep, key, n)[i]) == key(s[j]);
      }
    }
  }

  /** Every element that is the first of its class is retained. */
  lemma {:induction false} FirstsKeepFirsts<T, K>(s: seq<T>, keep: T -> bool, key: T -> K, n: nat)
    requires n <= |s|
    ensures forall j :: 0 <= j < n && FirstOfClass(s, keep, key, j) ==> exists i :: 0 <= i < |Firsts(s, keep, key, n)| && Firsts(s, keep, key, n)[i] == s[j]
  {
    if n == 0 {
      assert Firsts(s, keep, key, n) == [];
    } else {
      FirstsKeepFirsts(s, keep, key, n - 1);
      var p := Firsts(s, keep, key, n - 1);
      assert Firsts(s, keep, key, n) == p + (if FirstOfClass(s, keep, key, n - 1) then [s[n - 1]] else []);
      forall j | 0 <= j < n && FirstOfClass(s, keep, key, j)
        ensures exists i :: 0 <= i < |Firsts(s, keep, key, n)| && Firsts(s, keep, key, n)[i] == s[j]
      {
        if j < n - 1 {
          var i :| 0 <= i < |p| && p[i] == s[j];
          assert Firsts(s, keep, key, n)[i] == s[j];
        } else {
          var i := |p|;
          assert 0 <= i < |Firsts(s, keep, key, n)| && Firsts(s, keep, key, n)[i] == s[j];
        }
      }
    }
  }

  /** Index of the first occurrence of `x` in `s`, or `|s|` when absent. */
  function FirstIndex<T(==)>(s: seq<T>, x: T): nat
  {
    if |s| == 0 then 0 else if s[0] == x then 0 else 1 + FirstIndex(s[1..], x)
  }

  lemma {:induction false} FirstIndexAt<T>(s: seq<T>, j: nat)
    requires j < |s|
    requires forall k :: 0 <= k < j ==> s[k] != s[j]
    ensures FirstIndex(s, s[j]) == j
  {
    if j > 0 {
      assert s[0] != s[j];
      assert s[1..][j - 1] == s[j];
      FirstIndexAt(s[1..], j - 1);
    }
  }

  /** An element of `s` sits at its first index. */
  lemma {:induction false} FirstIndexIn<T>(s: seq<T>, x: T)
    requires x in s
    ensures FirstIndex(s, x) < |s| && s[FirstIndex(s, x)] == x
  {
    if s[0] != x {
      assert s == [s[0]] + s[1..];
      FirstIndexIn(s[1..], x);
    }
  }

  /** Every element is kept when deduplicating plain values. */
  predicate KeepAll<T>(x: T)
  {
    true
  }

  /** Plain values are their own class. */
  function Identity<T>(x: T): T
  {
    x
  }

  /** With every element kept and identity as key, the retained elements
      appear in the order of their first occurrences. */
  lemma {:induction false} FirstsOrdered<T>(s: seq<T>, n: nat)
    requires n <= |s|
    ensures forall i :: 0 <= i < |Firsts(s, KeepAll, Identity, n)| ==> FirstIndex(s, Firsts(s, KeepAll, Identity, n)[i]) < n
    ensures forall i, j :: 0 <= i < j < |Firsts(s, KeepAll, Identity, n)| ==>
      FirstIndex(s, Firsts(s, KeepAll, Identity, n)[i]) < FirstIndex(s, Firsts(s, KeepAll, Identity, n)[j])
  {
    if n > 0 {
      FirstsOrdered(s, n - 1);
      var p := Firsts(s, KeepAll, Identity, n - 1);
      var r := Firsts(s, KeepAll, Identity, n);
      forall i | 0 <= i < |r|
        ensures FirstIndex(s, r[i]) < n
      {
        var j := FirstsSoundAt(s, KeepAll, Identity, n, i);
        FirstIndexAt(s, j);
      }
      if FirstOfClass(s, KeepAll, Identity, n - 1) {
        FirstIndexAt(s, n - 1);
        forall i, j | 0 <= i < j < |r|
          ensures FirstIndex(s, r[i]) < FirstIndex(s, r[j])
        {
          assert r[i] == p[i];
          if j < |p| {
            assert r[j] == p[j];
          } else {
            assert r[j] == s[n - 1];
          }
        }
      } else {
        assert r == p;
      }
    }
  }

  /** Keep the first occurrence of every element, in order (the
      `visited` loop applied to plain values). */
  function Unique<T(==)>(s: seq<T>): (r: seq<T>)
    ensures forall i :: 0 <= i < |s| ==> s[i] in r
    ensures forall i :: 0 <= i < |r| ==> r[i] in s
    ensures forall i, j :: 0 <= i < j < |r| ==> r[i] != r[j]
    ensures forall i, j :: 0 <= i < j < |r| ==> FirstIndex(s, r[i]) < FirstIndex(s, r[j])
  {
    UniqueMembers(s);
    UniqueDistinct(s);
    UniqueOrdered(s);
    DedupBy(s, KeepAll, Identity, {})
  }

  lemma UniqueMembers<T>(s: seq<T>)
    ensures forall i :: 0 <= i < |s| ==> s[i] in DedupBy(s, KeepAll, Identity, {})
    ensures forall i :: 0 <= i < |DedupBy(s, KeepAll, Identity, {})| ==> DedupBy(s, KeepAll, Identity, {})[i] in s
  {
    DedupIsFirsts(s, KeepAll, Identity);
    FirstsSound(s, KeepAll, Identity, |s|);
    FirstsComplete(s, KeepAll, Identity, |s|);
    var r := DedupBy(s, KeepAll, Identity, {});
    forall i | 0 <= i < |s| ensures s[i] in r {
      assert KeepAll(s[i]);
      var k :| 0 <= k < |r| && Identity(r[k]) == Identity(s[i]);
    }
  }

  lemma UniqueDistinct<T>(s: seq<T>)
    ensures forall i, j :: 0 <= i < j < |DedupBy(s, KeepAll, Identity, {})| ==>
      DedupBy(s, KeepAll, Identity, {})[i] != DedupBy(s, KeepAll, Identity, {})[j]
  {
    DedupIsFirsts(s, KeepAll, Identity);
    FirstsDistinct(s, KeepAll, Identity, |s|);
  }

  lemma UniqueOrdered<T>(s: seq<T>)
    ensures forall i, j :: 0 <= i < j < |DedupBy(s, KeepAll, Identity, {})| ==>
      FirstIndex(s, DedupBy(s, KeepAll, Identity, {})[i]) < FirstIndex(s, DedupBy(s, KeepAll, Identity, {})[j])
  {
    DedupIsFirsts(s, KeepAll, Identity);
    FirstsOrdered(s, |s|);
  }
}
