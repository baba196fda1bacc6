/** A Python dictionary filled by a sequence of assignments `d[k] = v`:
    a later assignment to the same key overwrites an earlier one. */
module Dicts {

  /** The dictionary obtained by assigning the pairs of `pairs` in order. */
  function DictOf<K(==), V>(pairs: seq<(K, V)>): (m: map<K, V>)
    ensures m.Keys == set i | 0 <= i < |pairs| :: pairs[i].0
    ensures forall i :: 0 <= i < |pairs| && LastFor(pairs, i) ==> m[pairs[i].0] == pairs[i].1
  {
    if |pairs| == 0 then map[]
    else
      var init := pairs[..|pairs| - 1];
      var last := pairs[|pairs| - 1];
      var prev := DictOf(init);
      KeysStep(pairs, prev);
      ValuesStep(pairs, init, prev);
      prev[last.0 := last.1]
  }

  /** Assigning the last pair adds its key to the keys of the prefix. */
  lemma KeysStep<K, V>(pairs: seq<(K, V)>, prev: map<K, V>)
    requires |pairs| > 0
    requires prev.Keys == set i | 0 <= i < |pairs| - 1 :: pairs[i].0
    ensures prev[pairs[|pairs| - 1].0 := pairs[|pairs| - 1].1].Keys == set i | 0 <= i < |pairs| :: pairs[i].0
  {
    var n := |pairs| - 1;
    var full := set i | 0 <= i < |pairs| :: pairs[i].0;
    assert full == (set i | 0 <= i < n :: pairs[i].0) + {pairs[n].0};
  }

  /** Assigning the last pair keeps every value of the prefix whose key it does not overwrite. */
  lemma ValuesStep<K, V>(pairs: seq<(K, V)>, init: seq<(K, V)>, prev: map<K, V>)
    requires |pairs| > 0
    requires prev.Keys == set i | 0 <= i < |pairs| - 1 :: pairs[i].0
    requires init == pairs[..|pairs| - 1]
    requires forall i :: 0 <= i < |init| && LastFor(init, i) ==> prev[init[i].0] == init[i].1
    ensures forall i :: 0 <= i < |pairs| && LastFor(pairs, i) ==> prev[pairs[|pairs| - 1].0 := pairs[|pairs| - 1].1][pairs[i].0] == pairs[i].1
  {
    var n := |pairs| - 1;
    forall i | 0 <= i < |pairs| && LastFor(pairs, i)
      ensures prev[pairs[n].0 := pairs[n].1][pairs[i].0] == pairs[i].1
    {
      if i < n {
        assert pairs[n].0 != pairs[i].0;
        assert init[i] == pairs[i];
        assert LastFor(init, i);
      }
    }
  }

  /** Pair `i` is the last assignment to its key. */
  predicate LastFor<K(==), V>(pairs: seq<(K, V)>, i: int)
    requires 0 <= i < |pairs|
  {
    forall j :: i < j < |pairs| ==> pairs[j].0 != pairs[i].0
  }
}
