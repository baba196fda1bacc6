/** The unfold choice space (`UnfoldChoiceGenerator`): which unfold levels
    are merged, as a bit-vector with one bit per level, with one
    representative kept per class of equivalent vectors, and the encoding
    of the kept vectors as dense integer ids used by the search. */
module UnfoldChoice {
  import opened Base
  import opened Axes
  import opened Dedup
  import opened Dicts

  type Bit = b: int | 0 <= b <= 1
  type BitVec = seq<Bit>

  /** One item of the intrinsic-axis -> candidate-target-axes map, in the
      map's iteration order. Level `i` of the map is the i-th candidate of
      every intrinsic axis. */
  datatype Entry = Entry(key: Axis, candidates: seq<Axis>)

  datatype ConstructError =
    | LengthMismatch   // the length assertion fails
    | IndexOutOfRange  // `tuples[0]` or `tuples[i]` is out of range

  /** Above this many levels only singletons and the all-ones vector are tried. */
  const MaxExhaustiveLevels: nat := 10

  /** The moves of the local search over ids. */
  const Directions: seq<int> := [1, 0, -1]

  function Keys(m: seq<Entry>): (r: seq<Axis>)
    ensures |r| == |m| && forall k :: 0 <= k < |m| ==> r[k] == m[k].key
  {
    seq(|m|, k requires 0 <= k < |m| => m[k].key)
  }

  function Lists(m: seq<Entry>): (r: seq<seq<Axis>>)
    ensures |r| == |m| && forall k :: 0 <= k < |m| ==> r[k] == m[k].candidates
  {
    seq(|m|, k requires 0 <= k < |m| => m[k].candidates)
  }

  // ---------------------------------------------------------------------
  // Length check

  /** The length loop: `num_items` starts at 0 and the assertion
      `num_items == len(lst)` is only evaluated while `num_items` is not 0.
      Returns the final `num_items`, or `None` when the assertion fails. */
  function CheckLengths(lists: seq<seq<Axis>>, numItems: nat): Option<nat>
  {
    if |lists| == 0 then Some(numItems)
    else if numItems != 0 && numItems != |lists[0]| then None
    else CheckLengths(lists[1..], |lists[0]|)
  }

  /** The length compared against at step `j`: the previous list's length. */
  function Previous(lists: seq<seq<Axis>>, numItems: nat, j: nat): nat
    requires j < |lists|
  {
    if j == 0 then numItems else |lists[j - 1]|
  }

  /** The check fails exactly when some list follows a non-empty list of a
      different length; when it passes it yields the last list's length. */
  lemma {:induction false} CheckLengthsSpec(lists: seq<seq<Axis>>, numItems: nat)
    ensures CheckLengths(lists, numItems).None? <==>
      exists j :: 0 <= j < |lists| && Previous(lists, numItems, j) != 0 && |lists[j]| != Previous(lists, numItems, j)
    ensures CheckLengths(lists, numItems).Some? ==>
      CheckLengths(lists, numItems).value == (if |lists| == 0 then numItems else |lists[|lists| - 1]|)
  {
    if |lists| > 0 {
      var rest := lists[1..];
      CheckLengthsSpec(rest, |lists[0]|);
      forall j | 1 <= j < |lists|
        ensures Previous(lists, numItems, j) == Previous(rest, |lists[0]|, j - 1)
      {
      }
      if CheckLengths(lists, numItems).None? && !(numItems != 0 && numItems != |lists[0]|) {
        var j :| 0 <= j < |rest| && Previous(rest, |lists[0]|, j) != 0 && |rest[j]| != Previous(rest, |lists[0]|, j);
        assert Previous(lists, numItems, j + 1) != 0 && |lists[j + 1]| != Previous(lists, numItems, j + 1);
      }
      if |rest| > 0 {
        assert rest[|rest| - 1] == lists[|lists| - 1];
      }
    }
  }

  /** Candidate lists of one common length always pass; when no list is
      empty, they pass only if they all have one length. */
  lemma EqualLengthsPass(lists: seq<seq<Axis>>)
    ensures (|lists| > 0 && forall k :: 0 <= k < |lists| ==> |lists[k]| == |lists[0]|) ==>
      CheckLengths(lists, 0) == Some(|lists[0]|)
    ensures (forall k :: 0 <= k < |lists| ==> |lists[k]| > 0) ==>
      (CheckLengths(lists, 0).Some? <==> forall k :: 0 <= k < |lists| ==> |lists[k]| == |lists[0]|)
  {
    CheckLengthsSpec(lists, 0);
    if forall k :: 0 <= k < |lists| ==> |lists[k]| > 0 {
      if CheckLengths(lists, 0).Some? {
        forall k | 0 <= k < |lists|
          ensures |lists[k]| == |lists[0]|
        {
          var j := 0;
          while j < k
            invariant j <= k && |lists[j]| == |lists[0]|
          {
            assert Previous(lists, 0, j + 1) == |lists[j]|;
            j := j + 1;
          }
        }
      }
    }
  }

  // ---------------------------------------------------------------------
  // Levels and the equivalence of bit-vectors

  function MinLen(lists: seq<seq<Axis>>): (r: nat)
    requires |lists| > 0
    ensures forall k :: 0 <= k < |lists| ==> r <= |lists[k]|
    ensures exists k :: 0 <= k < |lists| && r == |lists[k]|
  {
    if |lists| == 1 then |lists[0]|
    else
      var m := MinLen(lists[1..]);
      if |lists[0]| <= m then |lists[0]| else m
  }

  /** `zip(*lists)`: level `i` holds the i-th candidate of every list; it
      stops at the shortest list, and is empty when there are no lists. */
  function Zip(lists: seq<seq<Axis>>): (r: seq<seq<Axis>>)
    ensures |r| == (if |lists| == 0 then 0 else MinLen(lists))
    ensures forall i :: 0 <= i < |r| ==> |r[i]| == |lists|
    ensures forall i, k :: 0 <= i < |r| && 0 <= k < |lists| ==> r[i][k] == lists[k][i]
  {
    if |lists| == 0 then []
    else
      seq(MinLen(lists), i requires 0 <= i < MinLen(lists) =>
        seq(|lists|, k requires 0 <= k < |lists| => lists[k][i]))
  }

  /** A bit-vector selects something when one of its bits is set. */
  predicate Selects(bits: BitVec)
  {
    1 in bits
  }

  /** Canonical form of a bit-vector: for every key position, the set of
      names of the candidates at the selected levels. Sorting the names of
      such a set is a canonical representation of it, so two vectors have
      the same sorted name tuples exactly when they have the same form. */
  function Canon(bits: BitVec, levels: seq<seq<Axis>>): seq<set<string>>
  {
    if |levels| == 0 then []
    else
      seq(|levels[0]|, k requires 0 <= k < |levels[0]| =>
        set i | 0 <= i < |bits| && i < |levels| && bits[i] == 1 && k < |levels[i]| :: levels[i][k].name)
  }

  function CanonKey(levels: seq<seq<Axis>>): BitVec -> seq<set<string>>
  {
    bits => Canon(bits, levels)
  }

  /** `unify_helper` applied to every candidate in order: skip vectors that
      select nothing, keep a vector when its form has not been seen. */
  function Unify(cands: seq<BitVec>, levels: seq<seq<Axis>>): seq<BitVec>
  {
    DedupBy(cands, Selects, CanonKey(levels), {})
  }

  /** `unify_helper` indexes `tuples[0]` and `tuples[i]` for every set bit. */
  predicate UnifyInRange(cands: seq<BitVec>, levels: seq<seq<Axis>>)
  {
    (|cands| > 0 ==> |levels| > 0) &&
    forall v, i :: v in cands && 0 <= i < |v| && v[i] == 1 ==> i < |levels|
  }

  /** The kept vectors select something, have pairwise different forms, are
      exactly the first candidate of each class in candidate order, and
      every selecting candidate has its class represented. */
  lemma UnifySpec(cands: seq<BitVec>, levels: seq<seq<Axis>>)
    ensures var r := Unify(cands, levels);
      && (forall i :: 0 <= i < |r| ==> Selects(r[i]))
      && (forall i, j :: 0 <= i < j < |r| ==> Canon(r[i], levels) != Canon(r[j], levels))
      && (forall i, j :: 0 <= i < j < |r| ==> r[i] != r[j])
      && r == Firsts(cands, Selects, CanonKey(levels), |cands|)
      && (forall j :: 0 <= j < |cands| && Selects(cands[j]) ==>
            exists i :: 0 <= i < |r| && Canon(r[i], levels) == Canon(cands[j], levels))
  {
    UnifyKeeps(cands, levels);
    UnifyClasses(cands, levels);
    UnifyComplete(cands, levels);
  }

  /** Every kept vector selects something. */
  lemma UnifyKeeps(cands: seq<BitVec>, levels: seq<seq<Axis>>)
    ensures forall i :: 0 <= i < |Unify(cands, levels)| ==> Selects(Unify(cands, levels)[i])
    ensures Unify(cands, levels) == Firsts(cands, Selects, CanonKey(levels), |cands|)
  {
    DedupIsFirsts(cands, Selects, CanonKey(levels));
    FirstsSound(cands, Selects, CanonKey(levels), |cands|);
    var r := Unify(cands, levels);
    assert forall i :: 0 <= i < |r| ==> Selects(r[i]);
  }

  /** Kept vectors have pairwise distinct canonical forms, hence are
      pairwise distinct. */
  lemma UnifyClasses(cands: seq<BitVec>, levels: seq<seq<Axis>>)
    ensures forall i, j :: 0 <= i < j < |Unify(cands, levels)| ==>
      Canon(Unify(cands, levels)[i], levels) != Canon(Unify(cands, levels)[j], levels)
    ensures forall i, j :: 0 <= i < j < |Unify(cands, levels)| ==> Unify(cands, levels)[i] != Unify(cands, levels)[j]
  {
    var key := CanonKey(levels);
    DedupIsFirsts(cands, Selects, key);
    FirstsDistinct(cands, Selects, key, |cands|);
    var r := Unify(cands, levels);
    forall i, j | 0 <= i < j < |r|
      ensures Canon(r[i], levels) != Canon(r[j], levels)
    {
      assert key(r[i]) != key(r[j]);
    }
  }

  /** Every selecting candidate's class is represented. */
  lemma UnifyComplete(cands: seq<BitVec>, levels: seq<seq<Axis>>)
    ensures forall j :: 0 <= j < |cands| && Selects(cands[j]) ==>
      exists i :: 0 <= i < |Unify(cands, levels)| && Canon(Unify(cands, levels)[i], levels) == Canon(cands[j], levels)
  {
    var key := CanonKey(levels);
    DedupIsFirsts(cands, Selects, key);
    FirstsComplete(cands, Selects, key, |cands|);
    var r := Unify(cands, levels);
    forall j | 0 <= j < |cands| && Selects(cands[j])
      ensures exists i :: 0 <= i < |r| && Canon(r[i], levels) == Canon(cands[j], levels)
    {
      var i :| 0 <= i < |r| && key(r[i]) == key(cands[j]);
    }
  }


  // ---------------------------------------------------------------------
  // Candidates of the large branch

  /** Every candidate of the level has the extent of its intrinsic axis. */
  predicate ExactLevel(level: seq<Axis>, keys: seq<Axis>)
  {
    forall k :: 0 <= k < |level| && k < |keys| ==> level[k].extent == keys[k].extent
  }

  function Singleton(i: nat, n: nat): (r: BitVec)
    ensures |r| == n && forall j :: 0 <= j < n ==> (r[j] == 1 <==> j == i)
  {
    seq(n, j => if j == i then 1 else 0)
  }

  function AllOnes(n: nat): (r: BitVec)
    ensures |r| == n && forall j :: 0 <= j < n ==> r[j] == 1
  {
    seq(n, j => 1)
  }

  /** Indices below `n` of the exact levels, in increasing order. */
  function ExactLevels(levels: seq<seq<Axis>>, keys: seq<Axis>, n: nat): (r: seq<nat>)
    requires n <= |levels|
    ensures forall p, q :: 0 <= p < q < |r| ==> r[p] < r[q]
    ensures forall i: nat :: i in r <==> (i < n && ExactLevel(levels[i], keys))
  {
    if n == 0 then []
    else
      var prefix := ExactLevels(levels, keys, n - 1);
      assert forall p :: 0 <= p < |prefix| ==> prefix[p] in prefix;
      prefix + (if ExactLevel(levels[n - 1], keys) then [n - 1] else [])
  }

  function Range(n: nat): (r: seq<nat>)
    ensures |r| == n && forall p :: 0 <= p < n ==> r[p] == p
  {
    seq(n, p => p)
  }

  /** The levels whose singleton is tried: the exact levels, or every level
      when none is exact; increasing. */
  function ChosenLevels(levels: seq<seq<Axis>>, keys: seq<Axis>, n: nat): (r: seq<nat>)
    ensures forall p, q :: 0 <= p < q < |r| ==> r[p] < r[q]
    ensures (exists i :: 0 <= i < |levels| && ExactLevel(levels[i], keys)) ==>
      forall i: nat :: i in r <==> (i < |levels| && ExactLevel(levels[i], keys))
    ensures (forall i :: 0 <= i < |levels| ==> !ExactLevel(levels[i], keys)) ==>
      forall i: nat :: i in r <==> i < n
  {
    var exact := ExactLevels(levels, keys, |levels|);
    if |exact| == 0 then
      var r := Range(n);
      forall i: nat
        ensures i in r <==> i < n
      {
        if i < n {
          assert r[i] == i;
        }
      }
      r
    else
      assert exact[0] in exact;
      exact
  }

  /** The candidates when there are too many levels: the singletons of the
      chosen levels in increasing order, then the all-ones vector. */
  function LargeCandidates(levels: seq<seq<Axis>>, keys: seq<Axis>, n: nat): (r: seq<BitVec>)
    ensures var chosen := ChosenLevels(levels, keys, n);
      && |r| == |chosen| + 1
      && (forall p :: 0 <= p < |chosen| ==> r[p] == Singleton(chosen[p], n))
      && r[|r| - 1] == AllOnes(n)
  {
    var chosen := ChosenLevels(levels, keys, n);
    seq(|chosen|, p requires 0 <= p < |chosen| => Singleton(chosen[p], n)) + [AllOnes(n)]
  }

  // ---------------------------------------------------------------------
  // Construction

  datatype Generator = Generator(unfolds: seq<BitVec>)

  /** Levels of an axis map: `zip` of its candidate lists. */
  function LevelsOf(axisMap: seq<Entry>): seq<seq<Axis>>
  {
    Zip(Lists(axisMap))
  }

  /** The vectors handed to `unify_helper` for `num_items` levels. */
  function CandidatesFor(axisMap: seq<Entry>, biProduct: nat -> seq<BitVec>, numItems: nat): seq<BitVec>
  {
    if numItems <= MaxExhaustiveLevels then biProduct(numItems)
    else LargeCandidates(LevelsOf(axisMap), Keys(axisMap), numItems)
  }

  /** `UnfoldChoiceGenerator(axis_map, unify)`; `biProduct(n)` stands for the
      list of 0/1 vectors of length `n` that `bi_product` returns. */
  function NewGenerator(axisMap: seq<Entry>, biProduct: nat -> seq<BitVec>, unify: bool): (r: Result<Generator, ConstructError>)
    ensures r == Err(LengthMismatch) <==> CheckLengths(Lists(axisMap), 0).None?
    ensures r == Err(IndexOutOfRange) <==>
      && CheckLengths(Lists(axisMap), 0).Some? && unify
      && !UnifyInRange(CandidatesFor(axisMap, biProduct, CheckLengths(Lists(axisMap), 0).value), LevelsOf(axisMap))
    ensures r.Ok? && unify ==>
      && (forall u :: u in r.value.unfolds ==> Selects(u))
      && (forall i, j :: 0 <= i < j < |r.value.unfolds| ==>
            Canon(r.value.unfolds[i], LevelsOf(axisMap)) != Canon(r.value.unfolds[j], LevelsOf(axisMap)))
    ensures r.Ok? && !unify ==> r.value.unfolds == biProduct(CheckLengths(Lists(axisMap), 0).value)
  {
    match CheckLengths(Lists(axisMap), 0)
    case None => Err(LengthMismatch)
    case Some(numItems) =>
      if !unify then Ok(Generator(biProduct(numItems)))
      else
        var levels := LevelsOf(axisMap);
        var cands := CandidatesFor(axisMap, biProduct, numItems);
        if !UnifyInRange(cands, levels) then Err(IndexOutOfRange)
        else
          UnifySpec(cands, levels);
          Ok(Generator(Unify(cands, levels)))
  }

  /** A map whose candidate lists all have one length n > 0 constructs,
      with or without unification, provided `bi_product` yields vectors
      of length n. */
  lemma GeneratorConstructs(axisMap: seq<Entry>, biProduct: nat -> seq<BitVec>, n: nat)
    requires |axisMap| > 0 && n > 0
    requires forall k :: 0 <= k < |axisMap| ==> |axisMap[k].candidates| == n
    requires forall v :: v in biProduct(n) ==> |v| == n
    ensures CheckLengths(Lists(axisMap), 0) == Some(n)
    ensures NewGenerator(axisMap, biProduct, true).Ok? && NewGenerator(axisMap, biProduct, false).Ok?
  {
    var lists := Lists(axisMap);
    EqualLengthsPass(lists);
    assert |lists[0]| == n;
    var levels := LevelsOf(axisMap);
    assert |levels| == n;
    var cands := CandidatesFor(axisMap, biProduct, n);
    forall v | v in cands
      ensures |v| == n
    {
      if n > MaxExhaustiveLevels {
        var chosen := ChosenLevels(levels, Keys(axisMap), n);
        var p :| 0 <= p < |cands| && cands[p] == v;
        if p < |chosen| {
          assert v == Singleton(chosen[p], n);
        } else {
          assert v == AllOnes(n);
        }
      }
    }
    assert UnifyInRange(cands, levels);
  }

  /** With unification, the generator holds the first vector of every class
      of selecting candidates, in candidate order, and nothing else. */
  lemma GeneratorKeepsFirsts(axisMap: seq<Entry>, biProduct: nat -> seq<BitVec>)
    requires NewGenerator(axisMap, biProduct, true).Ok?
    ensures var numItems := CheckLengths(Lists(axisMap), 0).value;
      var cands := CandidatesFor(axisMap, biProduct, numItems);
      var levels := LevelsOf(axisMap);
      var us := NewGenerator(axisMap, biProduct, true).value.unfolds;
      && us == Firsts(cands, Selects, CanonKey(levels), |cands|)
      && (forall j :: 0 <= j < |cands| && Selects(cands[j]) ==>
            exists i :: 0 <= i < |us| && Canon(us[i], levels) == Canon(cands[j], levels))
  {
    var numItems := CheckLengths(Lists(axisMap), 0).value;
    UnifySpec(CandidatesFor(axisMap, biProduct, numItems), LevelsOf(axisMap));
  }

  /** With at most ten levels and a `bi_product` that lists every 0/1 vector,
      every selecting vector of the right length has an equivalent kept one. */
  lemma SmallBranchComplete(axisMap: seq<Entry>, biProduct: nat -> seq<BitVec>, v: BitVec)
    requires NewGenerator(axisMap, biProduct, true).Ok?
    requires CheckLengths(Lists(axisMap), 0).value <= MaxExhaustiveLevels
    requires |v| == CheckLengths(Lists(axisMap), 0).value && Selects(v)
    requires v in biProduct(|v|)
    ensures exists u :: (u in NewGenerator(axisMap, biProduct, true).value.unfolds &&
      Canon(u, LevelsOf(axisMap)) == Canon(v, LevelsOf(axisMap)))
  {
    GeneratorKeepsFirsts(axisMap, biProduct);
    var cands := biProduct(|v|);
    var j :| 0 <= j < |cands| && cands[j] == v;
    var us := NewGenerator(axisMap, biProduct, true).value.unfolds;
    var i :| 0 <= i < |us| && Canon(us[i], LevelsOf(axisMap)) == Canon(cands[j], LevelsOf(axisMap));
    assert us[i] in us;
  }

  /** With more than ten levels every kept vector is the singleton of a
      chosen level or the all-ones vector, and the class of the all-ones
      vector is always represented. */
  lemma LargeBranchShape(axisMap: seq<Entry>, biProduct: nat -> seq<BitVec>)
    requires NewGenerator(axisMap, biProduct, true).Ok?
    requires CheckLengths(Lists(axisMap), 0).value > MaxExhaustiveLevels
    ensures var n := CheckLengths(Lists(axisMap), 0).value;
      var us := NewGenerator(axisMap, biProduct, true).value.unfolds;
      var chosen := ChosenLevels(LevelsOf(axisMap), Keys(axisMap), n);
      && (forall u :: u in us ==> u == AllOnes(n) || exists p :: 0 <= p < |chosen| && u == Singleton(chosen[p], n))
      && (exists u :: u in us && Canon(u, LevelsOf(axisMap)) == Canon(AllOnes(n), LevelsOf(axisMap)))
  {
    var n := CheckLengths(Lists(axisMap), 0).value;
    var levels := LevelsOf(axisMap);
    assert NewGenerator(axisMap, biProduct, true).value.unfolds == Unify(LargeCandidates(levels, Keys(axisMap), n), levels);
    LargeUnifyShape(levels, Keys(axisMap), n);
  }

  /** Unifying the large-branch candidates keeps only singletons of chosen
      levels and the all-ones vector, and keeps the class of the latter. */
  lemma LargeUnifyShape(levels: seq<seq<Axis>>, keys: seq<Axis>, n: nat)
    requires n > 0
    ensures var chosen := ChosenLevels(levels, keys, n);
      forall u :: u in Unify(LargeCandidates(levels, keys, n), levels) ==>
        u == AllOnes(n) || exists p :: 0 <= p < |chosen| && u == Singleton(chosen[p], n)
    ensures exists u ::
      u in Unify(LargeCandidates(levels, keys, n), levels) && Canon(u, levels) == Canon(AllOnes(n), levels)
  {
    var cands := LargeCandidates(levels, keys, n);
    var chosen := ChosenLevels(levels, keys, n);
    UnifyFrom(cands, levels);
    forall u | u in Unify(cands, levels)
      ensures u == AllOnes(n) || exists p :: 0 <= p < |chosen| && u == Singleton(chosen[p], n)
    {
      var j :| 0 <= j < |cands| && cands[j] == u;
      if j < |chosen| {
        assert u == Singleton(chosen[j], n);
      }
    }
    LargeKeepsAllOnes(levels, keys, n);
  }

  /** The class of the all-ones vector survives unification. */
  lemma LargeKeepsAllOnes(levels: seq<seq<Axis>>, keys: seq<Axis>, n: nat)
    requires n > 0
    ensures exists u ::
      u in Unify(LargeCandidates(levels, keys, n), levels) && Canon(u, levels) == Canon(AllOnes(n), levels)
  {
    var cands := LargeCandidates(levels, keys, n);
    var us := Unify(cands, levels);
    UnifySpec(cands, levels);
    var last := |cands| - 1;
    assert Selects(cands[last]) by {
      assert cands[last][0] == 1;
    }
    var i :| 0 <= i < |us| && Canon(us[i], levels) == Canon(cands[last], levels);
    assert us[i] in us;
  }

  /** Unification only keeps candidates. */
  lemma UnifyFrom(cands: seq<BitVec>, levels: seq<seq<Axis>>)
    ensures forall u :: u in Unify(cands, levels) ==> u in cands
  {
    DedupIsFirsts(cands, Selects, CanonKey(levels));
    FirstsSound(cands, Selects, CanonKey(levels), |cands|);
  }

  // ---------------------------------------------------------------------
  // Hidden encoding

  /** `reverse_map`: vector -> id, filled in id order (a later id wins). */
  function ReverseMap(g: Generator): map<BitVec, int>
  {
    DictOf(IdPairs(g))
  }

  /** `map_to_hidden`: the id of a vector; `None` is the `KeyError`. */
  function MapToHidden(g: Generator, factors: BitVec): Option<int>
  {
    var m := ReverseMap(g);
    if factors in m then Some(m[factors]) else None
  }

  /** `map_from_hidden`: Python list indexing, negative ids count from the
      end; `None` is the `IndexError`. */
  function MapFromHidden(g: Generator, id: int): Option<BitVec>
  {
    var n := |g.unfolds|;
    if 0 <= id < n then Some(g.unfolds[id])
    else if -n <= id < 0 then Some(g.unfolds[n + id])
    else None
  }

  predicate Valid(g: Generator, id: int)
  {
    0 <= id < |g.unfolds|
  }

  function MoveTowardsDirection(id: int, d: int): int
  {
    id + d
  }

  predicate Distinct(us: seq<BitVec>)
  {
    forall i, j :: 0 <= i < j < |us| ==> us[i] != us[j]
  }

  /** A generator built with unification holds pairwise different vectors. */
  lemma UnifiedDistinct(axisMap: seq<Entry>, biProduct: nat -> seq<BitVec>)
    requires NewGenerator(axisMap, biProduct, true).Ok?
    ensures Distinct(NewGenerator(axisMap, biProduct, true).value.unfolds)
  {
    var us := NewGenerator(axisMap, biProduct, true).value.unfolds;
    forall i, j | 0 <= i < j < |us|
      ensures us[i] != us[j]
    {
      assert Canon(us[i], LevelsOf(axisMap)) != Canon(us[j], LevelsOf(axisMap));
    }
  }

  /** For distinct vectors, every valid id survives the round trip through
      its vector. */
  lemma HiddenRoundTrip(g: Generator, id: int)
    requires Distinct(g.unfolds) && Valid(g, id)
    ensures MapFromHidden(g, id) == Some(g.unfolds[id])
    ensures MapToHidden(g, g.unfolds[id]) == Some(id)
  {
    var pairs := IdPairs(g);
    assert ReverseMap(g) == DictOf(pairs);
    assert LastFor(pairs, id);
  }

  /** The ids pair each position with its vector. */
  function IdPairs(g: Generator): (pairs: seq<(BitVec, int)>)
    ensures |pairs| == |g.unfolds|
    ensures forall i :: 0 <= i < |pairs| ==> pairs[i] == (g.unfolds[i], i)
  {
    seq(|g.unfolds|, i requires 0 <= i < |g.unfolds| => (g.unfolds[i], i))
  }

  /** A vector has an id exactly when the generator holds it. */
  lemma HiddenDefined(g: Generator, v: BitVec)
    ensures MapToHidden(g, v).Some? <==> v in g.unfolds
  {
    var pairs := IdPairs(g);
    assert ReverseMap(g) == DictOf(pairs);
    if v in g.unfolds {
      var i :| 0 <= i < |g.unfolds| && g.unfolds[i] == v;
      assert pairs[i].0 == v;
    } else {
      assert forall i :: 0 <= i < |pairs| ==> pairs[i].0 != v;
    }
  }

  /** The id of a held vector is valid and maps back to the vector (no
      distinctness needed: the last position of the vector is its id). */
  lemma HiddenRoundTripBack(g: Generator, v: BitVec)
    requires v in g.unfolds
    ensures MapToHidden(g, v).Some?
    ensures Valid(g, MapToHidden(g, v).value) && MapFromHidden(g, MapToHidden(g, v).value) == Some(v)
  {
    HiddenDefined(g, v);
    var us := g.unfolds;
    var pairs := IdPairs(g);
    assert ReverseMap(g) == DictOf(pairs);
    var i :| 0 <= i < |us| && us[i] == v;
    var last := LastIndex(us, v, i);
    assert LastFor(pairs, last);
    assert DictOf(pairs)[v] == last;
  }

  /** The last index holding `v`, searching from `i` on. */
  lemma LastIndex(us: seq<BitVec>, v: BitVec, i: nat) returns (last: nat)
    requires i < |us| && us[i] == v
    ensures i <= last < |us| && us[last] == v
    ensures forall j :: last < j < |us| ==> us[j] != v
    decreases |us| - i
  {
    if exists j :: i < j < |us| && us[j] == v {
      var j :| i < j < |us| && us[j] == v;
      last := LastIndex(us, v, j);
      forall k | last < k < |us|
        ensures us[k] != v
      {
      }
    } else {
      last := i;
    }
  }

  /** A move from a valid id stays valid except past either boundary. */
  lemma MoveValidity(g: Generator, id: int, d: int)
    requires Valid(g, id) && d in Directions
    ensures Valid(g, MoveTowardsDirection(id, d)) <==>
      !(d == 1 && id == |g.unfolds| - 1) && !(d == -1 && id == 0)
  {
  }
}
