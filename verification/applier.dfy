/** `MappingApplier`: from a chosen unfold vector and a transform state,
    the two transform requests handed to the external rewrite engine:
    unfold (merge the selected target axes into each intrinsic axis) and
    fold (split each mapped target axis by the intrinsic extent). */
module Applier {
  import opened Base
  import opened Axes
  import opened Dicts
  import opened Dedup
  import opened StableSort
  import opened MixedRadix
  import opened UnfoldChoice
  import opened Records

  /** A compute operation, seen through its loop axes. */
  datatype Op = Op(axis: seq<Axis>, reduceAxis: seq<Axis>)

  function AllAxes(op: Op): seq<Axis>
  {
    op.axis + op.reduceAxis
  }

  /** The parts of a transform state the applier reads: the (intrinsic
      operation, target operation) pairs in iteration order, and the map
      from intrinsic axis to the target axes mapped onto it. */
  datatype State = State(mainOpMap: seq<(Op, Op)>, axisMap: map<Axis, seq<Axis>>)

  /** A transform request: forward map (axis -> expression over new axes),
      reverse map, space loops, time loops, padding and drop-output flags. */
  datatype Request = Request(
    name: string,
    fwd: map<Axis, Expr>,
    rvs: map<Axis, Expr>,
    space: seq<Axis>,
    time: seq<Axis>,
    padding: bool,
    dropOutput: bool)

  datatype ApplyError =
    | NoMainOp                                       // the `is not None` assertion
    | MissingAxis(axis: Axis)                        // `KeyError` on `axis_map[axis]`
    | LevelOutOfRange(level: nat)                    // `IndexError` on `tmp[i]`
    | NoCandidates(axis: Axis)                       // `IndexError` on `axis_map[axis][-1]`
    | Infeasible(axis: Axis, factor: nat, extent: nat)  // the fold `RuntimeError`
    | TransformFailed                                // raised by the external transform

  /** The loop over `main_op_map.items()` keeps the last pair. */
  function MainOps(state: State): Result<(Op, Op), ApplyError>
  {
    if |state.mainOpMap| == 0 then Err(NoMainOp)
    else Ok(state.mainOpMap[|state.mainOpMap| - 1])
  }

  // ---------------------------------------------------------------------
  // Loop partition

  /** `a` is `b` with some elements left out. */
  ghost predicate SubseqOf(a: seq<Axis>, b: seq<Axis>)
    decreases |b|
  {
    if |a| == 0 then true
    else if |b| == 0 then false
    else if a[0] == b[0] then SubseqOf(a[1..], b[1..])
    else SubseqOf(a, b[1..])
  }

  /** The target axes that are not space loops, in their original order. */
  function RemainingLoops(target: seq<Axis>, space: seq<Axis>): (r: seq<Axis>)
    ensures forall t :: t in r <==> t in target && t !in space
    ensures SubseqOf(r, target)
  {
    if |target| == 0 then []
    else
      var rest := RemainingLoops(target[1..], space);
      if target[0] in space then rest else [target[0]] + rest
  }

  /** Every remaining loop occurs as often as in the target. */
  lemma {:induction false} RemainingCounts(target: seq<Axis>, space: seq<Axis>)
    ensures forall t :: t !in space ==> multiset(RemainingLoops(target, space))[t] == multiset(target)[t]
    ensures forall t :: t in space ==> multiset(RemainingLoops(target, space))[t] == 0
  {
    if |target| > 0 {
      RemainingCounts(target[1..], space);
      assert target == [target[0]] + target[1..];
    }
  }

  // ---------------------------------------------------------------------
  // Unfold

  /** The intrinsic axes with candidates, in order; a missing intrinsic
      axis raises. */
  function NonEmptyCandidates(intrinAxes: seq<Axis>, axisMap: map<Axis, seq<Axis>>): (r: Result<seq<Axis>, ApplyError>)
    ensures r.Ok? <==> forall a :: a in intrinAxes ==> a in axisMap
    ensures r.Ok? ==> forall a :: a in r.value <==> a in intrinAxes && |axisMap[a]| > 0
    ensures r.Ok? ==> SubseqOf(r.value, intrinAxes)
    ensures r.Err? ==> r.error.MissingAxis? && r.error.axis in intrinAxes && r.error.axis !in axisMap
  {
    if |intrinAxes| == 0 then Ok([])
    else
      var a := intrinAxes[0];
      assert intrinAxes == [a] + intrinAxes[1..];
      if a !in axisMap then Err(MissingAxis(a))
      else
        match NonEmptyCandidates(intrinAxes[1..], axisMap)
        case Err(e) => Err(e)
        case Ok(rest) => Ok(if |axisMap[a]| > 0 then [a] + rest else rest)
  }

  /** The levels whose bit is set, increasing. */
  function SelectedLevels(bits: BitVec, n: nat): (r: seq<nat>)
    requires n <= |bits|
    ensures forall p, q :: 0 <= p < q < |r| ==> r[p] < r[q]
    ensures forall i: nat :: i in r <==> (i < n && bits[i] == 1)
  {
    if n == 0 then []
    else
      var prefix := SelectedLevels(bits, n - 1);
      assert forall p :: 0 <= p < |prefix| ==> prefix[p] in prefix;
      prefix + (if bits[n - 1] == 1 then [n - 1] else [])
  }

  /** The first selected level beyond the available levels, if any. */
  function FirstOutOfRange(sel: seq<nat>, n: nat): (r: Option<nat>)
    ensures r.None? <==> forall p :: 0 <= p < |sel| ==> sel[p] < n
    ensures r.Some? ==> r.value in sel && r.value >= n
  {
    if |sel| == 0 then None
    else if sel[0] >= n then Some(sel[0])
    else
      var r := FirstOutOfRange(sel[1..], n);
      assert forall p :: 1 <= p < |sel| ==> sel[p] == sel[1..][p - 1];
      r
  }

  /** One intrinsic axis of the unfold: the target axes at the selected
      levels, the same after the stable sort and deduplication, and their
      strides. */
  datatype Group = Group(intrin: Axis, choice: seq<Axis>, unique: seq<Axis>, strides: seq<nat>)

  /** `sort_axis` key: position in the intrinsic axis list (the last one
      when an axis repeats), 0 for any other axis. */
  function PositionKey(intrinAxes: seq<Axis>): Axis -> int
  {
    var pos := DictOf(seq(|intrinAxes|, i requires 0 <= i < |intrinAxes| => (intrinAxes[i], i)));
    x => if x in pos then pos[x] else 0
  }

  /** A group whose merged axes occur once each and whose strides are the
      products of the extents to their right. */
  ghost predicate WellFormed(g: Group)
  {
    && |g.strides| == |g.unique|
    && (forall i, j :: 0 <= i < j < |g.unique| ==> g.unique[i] != g.unique[j])
    && g.strides == Strides(Extents(g.unique))
  }

  /** Sort the candidates by position key, keep the first occurrence of
      each, and compute the strides right to left. The merged axes are the
      distinct candidates, ordered by key and, among equal keys, by first
      occurrence in the choice; this order fixes the strides. */
  function MakeGroup(intrin: Axis, choice: seq<Axis>, key: Axis -> int): (g: Group)
    ensures g.intrin == intrin && g.choice == choice
    ensures WellFormed(g)
    ensures forall i :: 0 <= i < |choice| ==> choice[i] in g.unique
    ensures forall i :: 0 <= i < |g.unique| ==> g.unique[i] in choice
    ensures SortedBy(g.unique, key)
    ensures forall i, j :: 0 <= i < j < |g.unique| && key(g.unique[i]) == key(g.unique[j]) ==>
      FirstIndex(choice, g.unique[i]) < FirstIndex(choice, g.unique[j])
  {
    var sorted := SortBy(choice, key);
    SameElements(choice, key);
    GroupOrder(choice, key);
    var unique := Unique(sorted);
    Group(intrin, choice, unique, Strides(Extents(unique)))
  }

  /** Sorting neither adds nor drops an axis. */
  lemma SameElements(choice: seq<Axis>, key: Axis -> int)
    ensures forall i :: 0 <= i < |choice| ==> choice[i] in SortBy(choice, key)
    ensures forall i :: 0 <= i < |SortBy(choice, key)| ==> SortBy(choice, key)[i] in choice
  {
    var sorted := SortBy(choice, key);
    SortPermutes(choice, key);
    forall i | 0 <= i < |choice| ensures choice[i] in sorted {
      assert choice[i] in multiset(choice);
    }
    forall i | 0 <= i < |sorted| ensures sorted[i] in choice {
      assert sorted[i] in multiset(sorted);
    }
  }

  /** Deduplicating the sorted candidates keeps them sorted, and keeps
      axes with equal keys in the order they first occur in the choice. */
  lemma GroupOrder(choice: seq<Axis>, key: Axis -> int)
    ensures SortedBy(Unique(SortBy(choice, key)), key)
    ensures forall i, j ::
      (0 <= i < j < |Unique(SortBy(choice, key))| &&
       key(Unique(SortBy(choice, key))[i]) == key(Unique(SortBy(choice, key))[j])) ==>
        FirstIndex(choice, Unique(SortBy(choice, key))[i]) < FirstIndex(choice, Unique(SortBy(choice, key))[j])
  {
    var s := SortBy(choice, key);
    var u := Unique(s);
    SameElements(choice, key);
    forall i, j | 0 <= i < j < |u|
      ensures key(u[i]) <= key(u[j])
    {
      FirstIndexIn(s, u[i]);
      FirstIndexIn(s, u[j]);
      assert FirstIndex(s, u[i]) < FirstIndex(s, u[j]);
    }
    forall i, j | 0 <= i < j < |u| && key(u[i]) == key(u[j])
      ensures FirstIndex(choice, u[i]) < FirstIndex(choice, u[j])
    {
      FirstIndexIn(s, u[i]);
      FirstIndexIn(s, u[j]);
      assert s[FirstIndex(s, u[i])] in choice && s[FirstIndex(s, u[j])] in choice;
      SortKeepsTieOrder(choice, key, u[i], u[j]);
    }
  }

  /** The groups of the unfold: one per intrinsic axis with candidates,
      whose choice lists the candidates at the selected levels. */
  function Groups(filtered: seq<Axis>, levels: seq<seq<Axis>>, sel: seq<nat>, key: Axis -> int): (gs: seq<Group>)
    requires forall p :: 0 <= p < |sel| ==> sel[p] < |levels|
    requires forall i :: 0 <= i < |levels| ==> |levels[i]| == |filtered|
    ensures |gs| == |filtered|
    ensures forall k :: 0 <= k < |filtered| ==> gs[k] == MakeGroup(filtered[k], ChoiceAt(levels, sel, k), key)
    ensures forall k :: 0 <= k < |gs| ==> WellFormed(gs[k])
  {
    seq(|filtered|, k requires 0 <= k < |filtered| => MakeGroup(filtered[k], ChoiceAt(levels, sel, k), key))
  }

  /** `zip(*choices)[k]`: the k-th entry of every selected level. */
  function ChoiceAt(levels: seq<seq<Axis>>, sel: seq<nat>, k: nat): (c: seq<Axis>)
    requires forall p :: 0 <= p < |sel| ==> sel[p] < |levels| && k < |levels[sel[p]]|
    ensures |c| == |sel| && forall p :: 0 <= p < |sel| ==> c[p] == levels[sel[p]][k]
  {
    seq(|sel|, p requires 0 <= p < |sel| => levels[sel[p]][k])
  }

  datatype UnfoldPlan = UnfoldPlan(groups: seq<Group>, target: seq<Axis>)

  /** Everything `apply_unfold` computes before it builds the request. */
  function PlanUnfold(record: Record, state: State): (r: Result<UnfoldPlan, ApplyError>)
    ensures r == Err(NoMainOp) <==> |state.mainOpMap| == 0
    ensures r.Ok? ==> r.value.target == AllAxes(state.mainOpMap[|state.mainOpMap| - 1].1)
    ensures r.Ok? ==> forall k :: 0 <= k < |r.value.groups| ==> WellFormed(r.value.groups[k])
    ensures r.Ok? && !Selects(record.unfoldChoice.bits) ==> r.value.groups == []
  {
    var ops :- MainOps(state);
    var intrinAxes := AllAxes(ops.0);
    var filtered :- NonEmptyCandidates(intrinAxes, state.axisMap);
    SelectsSome(record.unfoldChoice.bits);
    PlanFrom(filtered, state.axisMap, Selected(record), PositionKey(intrinAxes), AllAxes(ops.1))
  }

  /** `apply_unfold` after the candidate lists are known: index the
      levels by the selected bits and build one group per list. */
  function PlanFrom(filtered: seq<Axis>, axisMap: map<Axis, seq<Axis>>, sel: seq<nat>, key: Axis -> int, target: seq<Axis>): (r: Result<UnfoldPlan, ApplyError>)
    requires forall a :: a in filtered ==> a in axisMap
    ensures r.Ok? ==> r.value.target == target
    ensures r.Ok? ==> forall k :: 0 <= k < |r.value.groups| ==> WellFormed(r.value.groups[k])
    ensures r.Ok? && |sel| == 0 ==> r.value.groups == []
    ensures r.Err? ==> r.error.LevelOutOfRange?
  {
    var levels := Zip(ListsOf(filtered, axisMap));
    match FirstOutOfRange(sel, |levels|)
    case Some(i) => Err(LevelOutOfRange(i))
    case None =>
      if |sel| == 0 then Ok(UnfoldPlan([], target))
      else Ok(UnfoldPlan(Groups(filtered, levels, sel, key), target))
  }

  /** A bit-vector selects something exactly when some level is selected. */
  lemma SelectsSome(bits: BitVec)
    ensures Selects(bits) <==> |SelectedLevels(bits, |bits|)| > 0
  {
    var sel := SelectedLevels(bits, |bits|);
    if Selects(bits) {
      var i :| 0 <= i < |bits| && bits[i] == 1;
      assert i in sel;
    }
    if |sel| > 0 {
      assert sel[0] in sel;
    }
  }

  /** The candidate lists of the given intrinsic axes. */
  function ListsOf(filtered: seq<Axis>, axisMap: map<Axis, seq<Axis>>): (r: seq<seq<Axis>>)
    requires forall a :: a in filtered ==> a in axisMap
    ensures |r| == |filtered| && forall k :: 0 <= k < |filtered| ==> r[k] == axisMap[filtered[k]]
  {
    seq(|filtered|, k requires 0 <= k < |filtered| => axisMap[filtered[k]])
  }

  /** The levels `apply_unfold` reads off the record. */
  function Selected(record: Record): seq<nat>
  {
    SelectedLevels(record.unfoldChoice.bits, |record.unfoldChoice.bits|)
  }

  /** The group of an intrinsic axis lists that axis's candidates at the
      selected levels, in level order. */
  ghost predicate ChoosesSelected(g: Group, axisMap: map<Axis, seq<Axis>>, sel: seq<nat>)
  {
    && g.intrin in axisMap
    && |g.choice| == |sel|
    && forall p :: 0 <= p < |sel| ==> sel[p] < |axisMap[g.intrin]| && g.choice[p] == axisMap[g.intrin][sel[p]]
  }

  /** What the unfold merges: for a selecting record, one group per
      intrinsic axis with candidates, in intrinsic order, each holding
      that axis's candidates at the selected levels. */
  lemma PlanUnfoldGroups(record: Record, state: State)
    requires PlanUnfold(record, state).Ok?
    ensures forall k :: 0 <= k < |PlanUnfold(record, state).value.groups| ==>
      ChoosesSelected(PlanUnfold(record, state).value.groups[k], state.axisMap, Selected(record))
    ensures forall k :: 0 <= k < |PlanUnfold(record, state).value.groups| ==>
      PlanUnfold(record, state).value.groups[k].intrin in AllAxes(state.mainOpMap[|state.mainOpMap| - 1].0)
    ensures Selects(record.unfoldChoice.bits) ==>
      forall a :: a in AllAxes(state.mainOpMap[|state.mainOpMap| - 1].0) && |state.axisMap[a]| > 0 ==>
        exists k :: 0 <= k < |PlanUnfold(record, state).value.groups| && PlanUnfold(record, state).value.groups[k].intrin == a
  {
    var intrinAxes := AllAxes(state.mainOpMap[|state.mainOpMap| - 1].0);
    var filtered := NonEmptyCandidates(intrinAxes, state.axisMap).value;
    var target := AllAxes(state.mainOpMap[|state.mainOpMap| - 1].1);
    var sel := Selected(record);
    SelectsSome(record.unfoldChoice.bits);
    assert PlanUnfold(record, state) == PlanFrom(filtered, state.axisMap, sel, PositionKey(intrinAxes), target);
    PlanFromGroups(filtered, state.axisMap, sel, PositionKey(intrinAxes), target);
  }

  /** `PlanFrom` builds, for a non-empty selection, one group per list in
      list order, each holding its axis's candidates at the selected
      levels. */
  lemma PlanFromGroups(filtered: seq<Axis>, axisMap: map<Axis, seq<Axis>>, sel: seq<nat>, key: Axis -> int, target: seq<Axis>)
    requires forall a :: a in filtered ==> a in axisMap
    requires PlanFrom(filtered, axisMap, sel, key, target).Ok?
    ensures forall k :: 0 <= k < |PlanFrom(filtered, axisMap, sel, key, target).value.groups| ==>
      && PlanFrom(filtered, axisMap, sel, key, target).value.groups[k].intrin in filtered
      && ChoosesSelected(PlanFrom(filtered, axisMap, sel, key, target).value.groups[k], axisMap, sel)
    ensures |sel| > 0 ==> forall a :: a in filtered ==>
      exists k :: 0 <= k < |PlanFrom(filtered, axisMap, sel, key, target).value.groups| &&
        PlanFrom(filtered, axisMap, sel, key, target).value.groups[k].intrin == a
  {
    var gs := PlanFrom(filtered, axisMap, sel, key, target).value.groups;
    if |sel| > 0 {
      GroupsChoose(filtered, axisMap, sel, key);
      forall k | 0 <= k < |gs| ensures gs[k].intrin in filtered {
        assert gs[k].intrin == filtered[k];
      }
      forall a | a in filtered
        ensures exists k :: 0 <= k < |gs| && gs[k].intrin == a
      {
        var k :| 0 <= k < |filtered| && filtered[k] == a;
        assert gs[k].intrin == a;
      }
    }
  }

  /** Each group built from the selected levels holds its axis's
      candidates at those levels. */
  lemma GroupsChoose(filtered: seq<Axis>, axisMap: map<Axis, seq<Axis>>, sel: seq<nat>, key: Axis -> int)
    requires forall a :: a in filtered ==> a in axisMap
    requires forall p :: 0 <= p < |sel| ==> sel[p] < |Zip(ListsOf(filtered, axisMap))|
    ensures forall k :: 0 <= k < |filtered| ==>
      && Groups(filtered, Zip(ListsOf(filtered, axisMap)), sel, key)[k].intrin == filtered[k]
      && ChoosesSelected(Groups(filtered, Zip(ListsOf(filtered, axisMap)), sel, key)[k], axisMap, sel)
  {
    var lists := ListsOf(filtered, axisMap);
    var levels := Zip(lists);
    var gs := Groups(filtered, levels, sel, key);
    forall k | 0 <= k < |filtered|
      ensures gs[k].intrin == filtered[k]
      ensures ChoosesSelected(gs[k], axisMap, sel)
    {
      assert filtered[k] in filtered;
      assert gs[k].choice == ChoiceAt(levels, sel, k);
      forall p | 0 <= p < |sel|
        ensures sel[p] < |axisMap[filtered[k]]|
        ensures gs[k].choice[p] == axisMap[filtered[k]][sel[p]]
      {
        assert levels[sel[p]][k] == lists[k][sel[p]];
      }
    }
  }

  /** A selected level is out of range exactly when it is at or past the
      shortest candidate list of the intrinsic axes with candidates (any
      level is, when no intrinsic axis has candidates). */
  lemma PlanUnfoldLevels(record: Record, state: State)
    requires |state.mainOpMap| > 0
    requires forall a :: a in AllAxes(state.mainOpMap[|state.mainOpMap| - 1].0) ==> a in state.axisMap
    ensures PlanUnfold(record, state).Ok? <==>
      && (forall i, a ::
            (i in Selected(record) && a in AllAxes(state.mainOpMap[|state.mainOpMap| - 1].0) && |state.axisMap[a]| > 0)
            ==> i < |state.axisMap[a]|)
      && (Selects(record.unfoldChoice.bits) ==>
            exists a :: a in AllAxes(state.mainOpMap[|state.mainOpMap| - 1].0) && |state.axisMap[a]| > 0)
  {
    var intrinAxes := AllAxes(state.mainOpMap[|state.mainOpMap| - 1].0);
    var filtered := NonEmptyCandidates(intrinAxes, state.axisMap).value;
    SelectsSome(record.unfoldChoice.bits);
    var target := AllAxes(state.mainOpMap[|state.mainOpMap| - 1].1);
    var sel := Selected(record);
    assert PlanUnfold(record, state) == PlanFrom(filtered, state.axisMap, sel, PositionKey(intrinAxes), target);
    PlanFromLevels(filtered, state.axisMap, sel, PositionKey(intrinAxes), target);
    CandidateConditions(intrinAxes, filtered, state.axisMap, sel);
  }

  /** Conditions over the lists with candidates, restated over the
      intrinsic axes. */
  lemma CandidateConditions(intrinAxes: seq<Axis>, filtered: seq<Axis>, axisMap: map<Axis, seq<Axis>>, sel: seq<nat>)
    requires forall a :: a in intrinAxes ==> a in axisMap
    requires forall a :: a in filtered <==> a in intrinAxes && |axisMap[a]| > 0
    ensures (forall i, a :: i in sel && a in filtered ==> i < |axisMap[a]|) <==>
      (forall i, a :: (i in sel && a in intrinAxes && |axisMap[a]| > 0) ==> i < |axisMap[a]|)
    ensures (exists a :: a in intrinAxes && |axisMap[a]| > 0) <==> |filtered| > 0
  {
    if |filtered| > 0 {
      assert filtered[0] in filtered;
    }
  }

  /** `PlanFrom` fails exactly when a selected level is missing from some
      candidate list, or when something is selected but there are no
      lists at all. */
  lemma PlanFromLevels(filtered: seq<Axis>, axisMap: map<Axis, seq<Axis>>, sel: seq<nat>, key: Axis -> int, target: seq<Axis>)
    requires forall a :: a in filtered ==> a in axisMap
    ensures PlanFrom(filtered, axisMap, sel, key, target).Ok? <==>
      && (forall i, a :: i in sel && a in filtered ==> i < |axisMap[a]|)
      && (|sel| > 0 ==> |filtered| > 0)
  {
    var lists := ListsOf(filtered, axisMap);
    var levels := Zip(lists);
    if FirstOutOfRange(sel, |levels|).None? {
      forall i, a | i in sel && a in filtered
        ensures i < |axisMap[a]|
      {
        var k :| 0 <= k < |filtered| && filtered[k] == a;
        assert |levels| <= |lists[k]|;
      }
      if |sel| > 0 {
        assert sel[0] < |levels|;
      }
    } else {
      var i := FirstOutOfRange(sel, |levels|).value;
      if |filtered| > 0 {
        var k :| 0 <= k < |lists| && |levels| == |lists[k]|;
        assert filtered[k] in filtered;
        assert !(i < |axisMap[filtered[k]]|);
      }
    }
  }

  /** Forward map of the unfold: intrinsic axis -> flattened merged axes,
      assigned group by group. */
  function UnfoldFwd(gs: seq<Group>): map<Axis, Expr>
    requires forall k :: 0 <= k < |gs| ==> WellFormed(gs[k])
  {
    if |gs| == 0 then map[]
    else
      var g := gs[|gs| - 1];
      assert WellFormed(g);
      UnfoldFwd(gs[..|gs| - 1])[g.intrin := Flatten(g.unique, g.strides, |g.unique|)]
  }

  /** Reverse map entries of one group. */
  function GroupRvs(g: Group): map<Axis, Expr>
    requires |g.strides| == |g.unique|
  {
    DictOf(seq(|g.unique|, i requires 0 <= i < |g.unique| => (g.unique[i], Reverse(g.intrin, g.strides, i))))
  }

  /** Reverse map of the unfold: merged axis -> its digit of the intrinsic
      axis, assigned group by group (a later group overwrites). */
  function UnfoldRvs(gs: seq<Group>): map<Axis, Expr>
    requires forall k :: 0 <= k < |gs| ==> WellFormed(gs[k])
  {
    if |gs| == 0 then map[]
    else
      assert WellFormed(gs[|gs| - 1]);
      UnfoldRvs(gs[..|gs| - 1]) + GroupRvs(gs[|gs| - 1])
  }

  /** Space loops of the unfold: the merged axes of every group, in order. */
  function UnfoldSpace(gs: seq<Group>): seq<Axis>
  {
    if |gs| == 0 then [] else UnfoldSpace(gs[..|gs| - 1]) + gs[|gs| - 1].unique
  }

  function UnfoldRequest(gs: seq<Group>, target: seq<Axis>, dropOutput: bool): Request
    requires forall k :: 0 <= k < |gs| ==> WellFormed(gs[k])
  {
    var space := UnfoldSpace(gs);
    Request(".unfold", UnfoldFwd(gs), UnfoldRvs(gs), space, RemainingLoops(target, space), false, dropOutput)
  }

  /** `apply_unfold`, up to handing the request to the external transform. */
  function ApplyUnfold(record: Record, state: State, dropOutput: bool): (r: Result<Request, ApplyError>)
    ensures r == Err(NoMainOp) <==> |state.mainOpMap| == 0
    ensures r.Ok? ==> r.value.name == ".unfold" && !r.value.padding && r.value.dropOutput == dropOutput
    ensures r.Ok? ==>
      var target := AllAxes(state.mainOpMap[|state.mainOpMap| - 1].1);
      && (forall t :: t in target ==> t in r.value.space || t in r.value.time)
      && (forall t :: t in r.value.time <==> t in target && t !in r.value.space)
      && SubseqOf(r.value.time, target)
    ensures r.Ok? && !Selects(record.unfoldChoice.bits) ==>
      r.value.fwd == map[] && r.value.rvs == map[] && r.value.space == []
  {
    var plan :- PlanUnfold(record, state);
    Ok(UnfoldRequest(plan.groups, plan.target, dropOutput))
  }

  /** Keys of the unfold maps: the intrinsic axes of the groups, and
      exactly the space loops. */
  lemma {:induction false} UnfoldKeys(gs: seq<Group>)
    requires forall k :: 0 <= k < |gs| ==> WellFormed(gs[k])
    ensures forall x :: x in UnfoldFwd(gs) <==> exists k :: 0 <= k < |gs| && gs[k].intrin == x
    ensures forall x :: x in UnfoldRvs(gs) <==> x in UnfoldSpace(gs)
  {
    if |gs| > 0 {
      var init := gs[..|gs| - 1];
      var g := gs[|gs| - 1];
      UnfoldKeys(init);
      assert forall k :: 0 <= k < |init| ==> init[k] == gs[k];
      assert WellFormed(g);
      GroupRvsKeys(g);
    }
  }

  /** One group's reverse map is keyed by exactly its merged axes. */
  lemma GroupRvsKeys(g: Group)
    requires |g.strides| == |g.unique|
    ensures forall x :: x in GroupRvs(g) <==> x in g.unique
  {
    var pairs := seq(|g.unique|, i requires 0 <= i < |g.unique| => (g.unique[i], Reverse(g.intrin, g.strides, i)));
    forall x
      ensures x in GroupRvs(g) <==> x in g.unique
    {
      if x in g.unique {
        var i :| 0 <= i < |g.unique| && g.unique[i] == x;
        assert pairs[i].0 == x;
      }
    }
  }

  /** The reverse map sends a merged axis to its digit expression in the
      last group that merges it. */
  lemma {:induction false} UnfoldRvsLookup(gs: seq<Group>, k: nat, i: nat)
    requires forall j :: 0 <= j < |gs| ==> WellFormed(gs[j])
    requires k < |gs| && i < |gs[k].unique|
    requires forall j :: k < j < |gs| ==> gs[k].unique[i] !in gs[j].unique
    ensures gs[k].unique[i] in UnfoldRvs(gs)
    ensures UnfoldRvs(gs)[gs[k].unique[i]] == Reverse(gs[k].intrin, gs[k].strides, i)
  {
    var init := gs[..|gs| - 1];
    var g := gs[|gs| - 1];
    var x := gs[k].unique[i];
    var pairs := seq(|g.unique|, j requires 0 <= j < |g.unique| => (g.unique[j], Reverse(g.intrin, g.strides, j)));
    if k == |gs| - 1 {
      assert WellFormed(g);
      assert pairs[i].0 == x;
      assert forall p :: i < p < |pairs| ==> pairs[p].0 != x;
      assert LastFor(pairs, i);
    } else {
      assert forall j :: 0 <= j < |init| ==> init[j] == gs[j];
      UnfoldRvsLookup(init, k, i);
      assert x !in g.unique;
      assert forall j :: 0 <= j < |pairs| ==> pairs[j].0 != x;
      assert x !in GroupRvs(g);
    }
  }

  /** The forward map sends an intrinsic axis to the flattening of the
      last group for it. */
  lemma {:induction false} UnfoldFwdLookup(gs: seq<Group>, k: nat)
    requires forall j :: 0 <= j < |gs| ==> WellFormed(gs[j])
    requires k < |gs|
    requires forall j :: k < j < |gs| ==> gs[j].intrin != gs[k].intrin
    ensures gs[k].intrin in UnfoldFwd(gs)
    ensures UnfoldFwd(gs)[gs[k].intrin] == Flatten(gs[k].unique, gs[k].strides, |gs[k].unique|)
  {
    if k < |gs| - 1 {
      var init := gs[..|gs| - 1];
      assert forall j :: 0 <= j < |init| ==> init[j] == gs[j];
      UnfoldFwdLookup(init, k);
    }
  }

  /** Round trip through the request maps: take values of the merged axes
      of a group inside their extents, evaluate the forward expression of
      the intrinsic axis, bind the intrinsic axis to it, and the reverse
      expression of every merged axis gives its value back. Holds for a
      group whose intrinsic axis and merged axes no later group reuses. */
  lemma UnfoldRequestRoundTrip(plan: UnfoldPlan, k: nat, i: nat, env: Axis -> int, env': Axis -> int, dropOutput: bool)
    requires forall j :: 0 <= j < |plan.groups| ==> WellFormed(plan.groups[j])
    requires k < |plan.groups| && i < |plan.groups[k].unique|
    requires forall j :: k < j < |plan.groups| ==> plan.groups[j].intrin != plan.groups[k].intrin
    requires forall j :: k < j < |plan.groups| ==> plan.groups[k].unique[i] !in plan.groups[j].unique
    requires forall p :: 0 <= p < |plan.groups[k].unique| ==>
      0 <= env(plan.groups[k].unique[p]) < plan.groups[k].unique[p].extent
    requires var req := UnfoldRequest(plan.groups, plan.target, dropOutput);
      plan.groups[k].intrin in req.fwd && Eval(req.fwd[plan.groups[k].intrin], env) == Some(env'(plan.groups[k].intrin))
    ensures var req := UnfoldRequest(plan.groups, plan.target, dropOutput);
      plan.groups[k].unique[i] in req.rvs && Eval(req.rvs[plan.groups[k].unique[i]], env') == Some(env(plan.groups[k].unique[i]))
  {
    var gs := plan.groups;
    var g := gs[k];
    UnfoldFwdLookup(gs, k);
    UnfoldRvsLookup(gs, k, i);
    UnfoldRoundTrip(g.unique, g.intrin, env, env', i);
  }


  // ---------------------------------------------------------------------
  // Fold

  /** The intrinsic axes the fold splits by: those of extent above one. */
  function Splitting(intrinAxes: seq<Axis>): (r: seq<Axis>)
    ensures forall a :: a in r <==> a in intrinAxes && a.extent > 1
    ensures SubseqOf(r, intrinAxes)
  {
    if |intrinAxes| == 0 then []
    else
      var rest := Splitting(intrinAxes[1..]);
      assert intrinAxes == [intrinAxes[0]] + intrinAxes[1..];
      if intrinAxes[0].extent > 1 then [intrinAxes[0]] + rest else rest
  }

  /** For every splitting intrinsic axis, the target axis it folds: the
      last candidate mapped to it. A missing key or an empty list raises,
      at the first such axis. */
  function FoldPairs(sp: seq<Axis>, axisMap: map<Axis, seq<Axis>>): (r: Result<seq<(Axis, Axis)>, ApplyError>)
    ensures r.Ok? <==> forall k :: 0 <= k < |sp| ==> sp[k] in axisMap && |axisMap[sp[k]]| > 0
    ensures r.Ok? ==>
      && |r.value| == |sp|
      && forall k :: 0 <= k < |sp| ==> r.value[k] == (sp[k], Last(axisMap[sp[k]]))
    ensures r.Err? ==> exists k :: 0 <= k < |sp| && r.error == FoldLookupError(sp[k], axisMap)
  {
    if |sp| == 0 then Ok([])
    else
      var a := sp[0];
      if a !in axisMap || |axisMap[a]| == 0 then Err(FoldLookupError(a, axisMap))
      else
        match FoldPairs(sp[1..], axisMap)
        case Err(e) => Err(e)
        case Ok(rest) => Ok([(a, Last(axisMap[a]))] + rest)
  }

  /** `axis_map[axis][-1]` */
  function Last(s: seq<Axis>): Axis
    requires |s| > 0
  {
    s[|s| - 1]
  }

  /** The error of `axis_map[axis][-1]`: `KeyError` for a missing key,
      `IndexError` for an empty list. */
  function FoldLookupError(a: Axis, axisMap: map<Axis, seq<Axis>>): ApplyError
  {
    if a !in axisMap then MissingAxis(a) else NoCandidates(a)
  }

  /** Number of outer iterations when a loop of `extent` is split by
      `factor`: the ceiling of the quotient. */
  function CeilDiv(extent: nat, factor: nat): (r: nat)
    requires factor >= 1
    ensures (r - 1) * factor < extent <= r * factor || (extent == 0 && r == 0)
    ensures extent % factor == 0 ==> r * factor == extent
  {
    var r := (extent + factor - 1) / factor;
    CeilDivBounds(extent, factor);
    r
  }

  lemma CeilDivBounds(extent: nat, factor: nat)
    requires factor >= 1
    ensures var r := (extent + factor - 1) / factor;
      && ((r - 1) * factor < extent <= r * factor || (extent == 0 && r == 0))
      && (extent % factor == 0 ==> r * factor == extent)
  {
    var r := (extent + factor - 1) / factor;
    var q := extent / factor;
    var m := extent % factor;
    assert extent == q * factor + m;
    if m == 0 {
      assert extent + factor - 1 == q * factor + (factor - 1);
      DivModUnique(q, factor, factor - 1);
    } else {
      assert extent + factor - 1 == (q + 1) * factor + (m - 1);
      DivModUnique(q + 1, factor, m - 1);
    }
  }

  /** One split: the intrinsic axis becomes the inner loop of the target
      axis, and a fresh outer axis the outer loop. */
  datatype FoldItem = FoldItem(intrin: Axis, target: Axis, outer: Axis)

  /** The fresh outer loop of the k-th split. */
  function OuterAxis(intrin: Axis, target: Axis, k: nat): Axis
    requires intrin.extent >= 1
  {
    Axis(intrin.name + ".o", Outer(k), CeilDiv(target.extent, intrin.extent))
  }

  /** Check feasibility in order, then build the splits; a target axis
      shorter than its intrinsic axis raises. */
  function FoldItems(pairs: seq<(Axis, Axis)>, k: nat): (r: Result<seq<FoldItem>, ApplyError>)
    requires forall p :: 0 <= p < |pairs| ==> pairs[p].0.extent > 1
    ensures r.Ok? <==> forall p :: 0 <= p < |pairs| ==> pairs[p].1.extent >= pairs[p].0.extent
    ensures r.Ok? ==>
      && |r.value| == |pairs|
      && forall p :: 0 <= p < |pairs| ==>
           r.value[p] == FoldItem(pairs[p].0, pairs[p].1, OuterAxis(pairs[p].0, pairs[p].1, k + p))
    ensures r.Err? ==>
      exists p :: 0 <= p < |pairs| && r.error == Infeasible(pairs[p].0, pairs[p].0.extent, pairs[p].1.extent)
        && pairs[p].1.extent < pairs[p].0.extent
    decreases |pairs|
  {
    if |pairs| == 0 then Ok([])
    else
      var (a, c) := pairs[0];
      if c.extent < a.extent then Err(Infeasible(a, a.extent, c.extent))
      else
        match FoldItems(pairs[1..], k + 1)
        case Err(e) => Err(e)
        case Ok(rest) => Ok([FoldItem(a, c, OuterAxis(a, c, k))] + rest)
  }

  /** Expressions of one split. */
  function InnerFwd(it: FoldItem): Expr { Mod(Var(it.target), Const(it.intrin.extent)) }
  function OuterFwd(it: FoldItem): Expr { Div(Var(it.target), Const(it.intrin.extent)) }
  function FoldRvs(it: FoldItem): Expr { Add(Mul(Var(it.outer), Const(it.intrin.extent)), Var(it.intrin)) }

  /** Forward map of the fold, assigned split by split. */
  function FoldFwdMap(items: seq<FoldItem>): map<Axis, Expr>
  {
    if |items| == 0 then map[]
    else
      var it := items[|items| - 1];
      FoldFwdMap(items[..|items| - 1])[it.intrin := InnerFwd(it)][it.outer := OuterFwd(it)]
  }

  /** Reverse map of the fold, assigned split by split. */
  function FoldRvsMap(items: seq<FoldItem>): map<Axis, Expr>
  {
    if |items| == 0 then map[]
    else
      var it := items[|items| - 1];
      FoldRvsMap(items[..|items| - 1])[it.target := FoldRvs(it)]
  }

  function Targets(items: seq<FoldItem>): (r: seq<Axis>)
    ensures |r| == |items| && forall k :: 0 <= k < |items| ==> r[k] == items[k].target
  {
    seq(|items|, k requires 0 <= k < |items| => items[k].target)
  }

  function Outers(items: seq<FoldItem>): (r: seq<Axis>)
    ensures |r| == |items| && forall k :: 0 <= k < |items| ==> r[k] == items[k].outer
  {
    seq(|items|, k requires 0 <= k < |items| => items[k].outer)
  }

  /** The padding flag of the fold. Its only assignment sits under the
      guard that a target axis is shorter than its intrinsic axis. */
  predicate NeedsPadding(items: seq<FoldItem>)
  {
    exists k :: 0 <= k < |items| && items[k].target.extent < items[k].intrin.extent
  }

  function FoldRequest(items: seq<FoldItem>, target: seq<Axis>, dropOutput: bool): Request
  {
    var space := Targets(items);
    Request(".fold", FoldFwdMap(items), FoldRvsMap(items), space,
      Outers(items) + RemainingLoops(target, space), NeedsPadding(items), dropOutput)
  }

  /** Loops of the fold: the split target axes are the space loops; the
      time loops are the fresh outer axes followed by every target axis
      that is not split, in order. */
  lemma FoldLoops(items: seq<FoldItem>, target: seq<Axis>, dropOutput: bool)
    ensures forall t :: t in target ==> t in FoldRequest(items, target, dropOutput).space || t in FoldRequest(items, target, dropOutput).time
    ensures forall t :: t in FoldRequest(items, target, dropOutput).space <==> exists k :: 0 <= k < |items| && items[k].target == t
    ensures forall t :: t in FoldRequest(items, target, dropOutput).time <==>
      (exists k :: 0 <= k < |items| && items[k].outer == t) || (t in target && t !in FoldRequest(items, target, dropOutput).space)
    ensures FoldRequest(items, target, dropOutput).time[..|items|] == Outers(items)
    ensures SubseqOf(FoldRequest(items, target, dropOutput).time[|items|..], target)
  {
    var space := Targets(items);
    var time := Outers(items) + RemainingLoops(target, space);
    assert time[..|items|] == Outers(items);
    assert time[|items|..] == RemainingLoops(target, space);
    forall t ensures t in space <==> exists k :: 0 <= k < |items| && items[k].target == t {
      if t in space {
        var k :| 0 <= k < |space| && space[k] == t;
      }
    }
    forall t ensures t in Outers(items) <==> exists k :: 0 <= k < |items| && items[k].outer == t {
      if t in Outers(items) {
        var k :| 0 <= k < |items| && Outers(items)[k] == t;
      }
    }
  }

  /** Everything `apply_fold` computes before it builds the request. */
  function PlanFold(state: State): (r: Result<seq<FoldItem>, ApplyError>)
    ensures r == Err(NoMainOp) <==> |state.mainOpMap| == 0
  {
    var ops :- MainOps(state);
    var pairs :- FoldPairs(Splitting(AllAxes(ops.0)), state.axisMap);
    FoldItems(pairs, 0)
  }

  /** `apply_fold`, up to handing the request to the external transform.
      The record is not consulted. */
  function ApplyFold(record: Record, state: State, dropOutput: bool): (r: Result<Request, ApplyError>)
    ensures r == Err(NoMainOp) <==> |state.mainOpMap| == 0
    ensures r.Ok? ==> r.value.name == ".fold" && r.value.dropOutput == dropOutput
  {
    var items :- PlanFold(state);
    Ok(FoldRequest(items, AllAxes(state.mainOpMap[|state.mainOpMap| - 1].1), dropOutput))
  }

  /** Padding is never requested: every split that survives the
      feasibility check has a target at least as long as its intrinsic
      axis, even when the extents do not divide. */
  lemma FoldNeverPads(record: Record, state: State, dropOutput: bool)
    requires ApplyFold(record, state, dropOutput).Ok?
    ensures !ApplyFold(record, state, dropOutput).value.padding
  {
    var items := PlanFold(state).value;
    assert forall k :: 0 <= k < |items| ==> items[k].target.extent >= items[k].intrin.extent;
  }

  /** No outer loop among `time` is one of the target's axes, and none
      occurs twice in `time`. */
  predicate OutersFresh(time: seq<Axis>, target: seq<Axis>)
  {
    && (forall i :: 0 <= i < |time| && time[i].id.Outer? ==> time[i] !in target)
    && (forall i, j :: 0 <= i < j < |time| && (time[i].id.Outer? || time[j].id.Outer?) ==> time[i] != time[j])
  }

  /** The outer axes stand for new IR objects. They are fresh as long as
      every axis of the target operator is an axis handed in (`Named`). */
  lemma FoldOutersFresh(record: Record, state: State, dropOutput: bool)
    requires ApplyFold(record, state, dropOutput).Ok?
    requires forall a :: a in AllAxes(state.mainOpMap[|state.mainOpMap| - 1].1) ==> a.id.Named?
    ensures OutersFresh(ApplyFold(record, state, dropOutput).value.time, AllAxes(state.mainOpMap[|state.mainOpMap| - 1].1))
  {
    var items := PlanFold(state).value;
    var target := AllAxes(state.mainOpMap[|state.mainOpMap| - 1].1);
    FoldTime(record, state, dropOutput);
    OuterIds(state);
    OutersApart(items, target);
  }

  /** The time loops of the fold: the outer axes, then the target axes
      that are not split. */
  lemma FoldTime(record: Record, state: State, dropOutput: bool)
    requires ApplyFold(record, state, dropOutput).Ok?
    ensures PlanFold(state).Ok?
    ensures ApplyFold(record, state, dropOutput).value.time ==
      Outers(PlanFold(state).value) +
      RemainingLoops(AllAxes(state.mainOpMap[|state.mainOpMap| - 1].1), Targets(PlanFold(state).value))
  {
  }

  /** The k-th split's outer axis has identity `Outer(k)`. */
  lemma OuterIds(state: State)
    requires PlanFold(state).Ok?
    ensures forall k :: 0 <= k < |PlanFold(state).value| ==> PlanFold(state).value[k].outer.id == Outer(k)
  {
    var pairs := FoldPairs(Splitting(AllAxes(state.mainOpMap[|state.mainOpMap| - 1].0)), state.axisMap).value;
    PlanFoldSplits(state);
    assert PlanFold(state) == FoldItems(pairs, 0);
  }

  /** Outer loops numbered by position, followed by loops of a target
      whose axes are all `Named`, are fresh. */
  lemma OutersApart(items: seq<FoldItem>, target: seq<Axis>)
    requires forall k :: 0 <= k < |items| ==> items[k].outer.id == Outer(k)
    requires forall a :: a in target ==> a.id.Named?
    ensures OutersFresh(Outers(items) + RemainingLoops(target, Targets(items)), target)
  {
    var rest := RemainingLoops(target, Targets(items));
    var t := Outers(items) + rest;
    forall i | 0 <= i < |t|
      ensures (i < |items| ==> t[i].id == Outer(i)) && (i >= |items| ==> t[i] in target && t[i].id.Named?)
    {
      if i >= |items| {
        assert t[i] == rest[i - |items|];
      }
    }
  }

  /** What the fold splits: for each intrinsic axis of extent above one,
      in order, the last target axis mapped to it, under a fresh outer
      axis whose extent is the ceiling of the quotient. */
  lemma PlanFoldItems(state: State)
    requires PlanFold(state).Ok?
    ensures var intrinAxes := AllAxes(state.mainOpMap[|state.mainOpMap| - 1].0);
      && |PlanFold(state).value| == |Splitting(intrinAxes)|
      && forall k :: 0 <= k < |PlanFold(state).value| ==>
           var it := PlanFold(state).value[k];
           && it.intrin == Splitting(intrinAxes)[k]
           && it.intrin in state.axisMap
           && it.target == Last(state.axisMap[it.intrin])
           && it.intrin.extent <= it.target.extent
           && it.outer == Axis(it.intrin.name + ".o", Outer(k), CeilDiv(it.target.extent, it.intrin.extent))
  {
    var intrinAxes := AllAxes(state.mainOpMap[|state.mainOpMap| - 1].0);
    var pairs := FoldPairs(Splitting(intrinAxes), state.axisMap).value;
  }

  /** The fold fails on feasibility exactly when some splitting intrinsic
      axis is longer than the target axis it folds. */
  lemma PlanFoldInfeasible(state: State)
    requires |state.mainOpMap| > 0
    requires FoldPairs(Splitting(AllAxes(state.mainOpMap[|state.mainOpMap| - 1].0)), state.axisMap).Ok?
    ensures PlanFold(state).Err? <==>
      exists a :: a in Splitting(AllAxes(state.mainOpMap[|state.mainOpMap| - 1].0)) && ShortTarget(a, state.axisMap)
    ensures PlanFold(state).Err? ==> PlanFold(state).error.Infeasible?
  {
    var sp := Splitting(AllAxes(state.mainOpMap[|state.mainOpMap| - 1].0));
    PlanFoldSplits(state);
    ItemsInfeasible(sp, state.axisMap);
  }

  /** Once the pairs are found, planning the fold is building the splits. */
  lemma PlanFoldSplits(state: State)
    requires |state.mainOpMap| > 0
    requires FoldPairs(Splitting(AllAxes(state.mainOpMap[|state.mainOpMap| - 1].0)), state.axisMap).Ok?
    ensures PlanFold(state) ==
      FoldItems(FoldPairs(Splitting(AllAxes(state.mainOpMap[|state.mainOpMap| - 1].0)), state.axisMap).value, 0)
  {
  }

  /** Building the splits fails exactly when a splitting axis has a short
      last candidate, and then with `Infeasible`. */
  lemma ItemsInfeasible(sp: seq<Axis>, axisMap: map<Axis, seq<Axis>>)
    requires forall a :: a in sp ==> a.extent > 1
    requires FoldPairs(sp, axisMap).Ok?
    ensures FoldItems(FoldPairs(sp, axisMap).value, 0).Err? <==> exists a :: a in sp && ShortTarget(a, axisMap)
    ensures FoldItems(FoldPairs(sp, axisMap).value, 0).Err? ==> FoldItems(FoldPairs(sp, axisMap).value, 0).error.Infeasible?
  {
    ShortPairs(sp, axisMap);
  }

  /** A fold pair with a short target exists exactly when a splitting
      axis has a short last candidate. */
  lemma ShortPairs(sp: seq<Axis>, axisMap: map<Axis, seq<Axis>>)
    requires FoldPairs(sp, axisMap).Ok?
    ensures (exists p :: 0 <= p < |sp| &&
              FoldPairs(sp, axisMap).value[p].1.extent < FoldPairs(sp, axisMap).value[p].0.extent) <==>
            (exists a :: a in sp && ShortTarget(a, axisMap))
  {
    var pairs := FoldPairs(sp, axisMap).value;
    if exists p :: 0 <= p < |sp| && pairs[p].1.extent < pairs[p].0.extent {
      var p :| 0 <= p < |sp| && pairs[p].1.extent < pairs[p].0.extent;
      assert sp[p] in sp && ShortTarget(sp[p], axisMap);
    }
    if exists a :: a in sp && ShortTarget(a, axisMap) {
      var a :| a in sp && ShortTarget(a, axisMap);
      var p :| 0 <= p < |sp| && sp[p] == a;
      assert pairs[p].1.extent < pairs[p].0.extent;
    }
  }

  /** The last candidate of `a` is shorter than `a`. */
  predicate ShortTarget(a: Axis, axisMap: map<Axis, seq<Axis>>)
  {
    a in axisMap && |axisMap[a]| > 0 && Last(axisMap[a]).extent < a.extent
  }

  /** Fold round trip on one split: bind the inner and outer axes to the
      forward expressions of a target value, and the reverse expression
      gives the value back. */
  lemma FoldRoundTrip(it: FoldItem, env: Axis -> int, env': Axis -> int)
    requires it.intrin.extent >= 1
    requires Eval(InnerFwd(it), env) == Some(env'(it.intrin))
    requires Eval(OuterFwd(it), env) == Some(env'(it.outer))
    ensures Eval(FoldRvs(it), env') == Some(env(it.target))
  {
    var x := env(it.target);
    var f := it.intrin.extent;
    assert Eval(InnerFwd(it), env) == Some(FloorMod(x, f));
    assert Eval(OuterFwd(it), env) == Some(FloorDiv(x, f));
    var o := env'(it.outer);
    assert Eval(Mul(Var(it.outer), Const(f)), env') == Some(o * f);
    assert Eval(FoldRvs(it), env') == Some(o * f + env'(it.intrin));
    assert o * f == f * FloorDiv(x, f);
  }

  /** The other direction: an (outer, inner) pair with the inner value in
      range is recovered from the value the reverse expression builds. */
  lemma FoldRoundTripBack(it: FoldItem, env: Axis -> int, env': Axis -> int)
    requires it.intrin.extent >= 1
    requires 0 <= env'(it.intrin) < it.intrin.extent
    requires Eval(FoldRvs(it), env') == Some(env(it.target))
    ensures Eval(InnerFwd(it), env) == Some(env'(it.intrin))
    ensures Eval(OuterFwd(it), env) == Some(env'(it.outer))
  {
    var f := it.intrin.extent;
    var x := env(it.target);
    var o := env'(it.outer);
    var i := env'(it.intrin);
    assert Eval(Mul(Var(it.outer), Const(f)), env') == Some(o * f);
    assert x == o * f + i;
    FloorAgrees(x, f);
    DivModUnique(o, f, i);
    assert Eval(InnerFwd(it), env) == Some(FloorMod(x, f));
    assert Eval(OuterFwd(it), env) == Some(FloorDiv(x, f));
  }

  /** Values of the target axis stay inside the outer axis: the quotient
      of any in-range target value is below the outer extent. */
  lemma OuterCoversTarget(intrin: Axis, target: Axis, k: nat, x: int)
    requires intrin.extent >= 1
    requires 0 <= x < target.extent
    ensures 0 <= x / intrin.extent < OuterAxis(intrin, target, k).extent
  {
    var f := intrin.extent;
    var r := OuterAxis(intrin, target, k).extent;
    var q := x / f;
    assert q * f <= x;
    if q >= r {
      MulMono(r, q, f);
      assert false;
    }
  }

  /** The fold maps send each split's axes to its expressions, when no
      two splits share an intrinsic or target axis and no intrinsic axis
      is itself an outer axis. */
  lemma FoldMapsLookup(items: seq<FoldItem>, k: nat)
    requires k < |items|
    requires forall j :: 0 <= j < |items| ==> items[j].intrin.id.Named?
    requires forall j :: 0 <= j < |items| ==> items[j].outer.id == Outer(j)
    requires forall j :: k < j < |items| ==> items[j].intrin != items[k].intrin && items[j].target != items[k].target
    ensures items[k].intrin in FoldFwdMap(items) && items[k].outer in FoldFwdMap(items)
    ensures items[k].target in FoldRvsMap(items)
    ensures FoldFwdMap(items)[items[k].intrin] == InnerFwd(items[k])
    ensures FoldFwdMap(items)[items[k].outer] == OuterFwd(items[k])
    ensures FoldRvsMap(items)[items[k].target] == FoldRvs(items[k])
  {
    var last := |items| - 1;
    var init := items[..last];
    if k < last {
      assert forall j :: 0 <= j < |init| ==> init[j] == items[j];
      FoldMapsLookup(init, k);
      assert items[last].outer != items[k].outer;
      assert items[last].outer != items[k].intrin;
      assert items[last].intrin != items[k].outer;
    } else {
      assert items[last].outer != items[k].intrin;
    }
  }

  /** Round trip through the fold request: with named intrinsic axes and
      a split whose intrinsic and target axes no later split reuses,
      binding the inner and outer axes to their forward expressions makes
      the reverse expression of the target give its value back. */
  lemma FoldRequestRoundTrip(record: Record, state: State, dropOutput: bool, k: nat, env: Axis -> int, env': Axis -> int)
    requires ApplyFold(record, state, dropOutput).Ok?
    requires forall a :: a in AllAxes(state.mainOpMap[|state.mainOpMap| - 1].0) ==> a.id.Named?
    requires k < |PlanFold(state).value|
    requires forall j :: k < j < |PlanFold(state).value| ==>
      PlanFold(state).value[j].intrin != PlanFold(state).value[k].intrin &&
      PlanFold(state).value[j].target != PlanFold(state).value[k].target
    requires var req := ApplyFold(record, state, dropOutput).value; var it := PlanFold(state).value[k];
      && it.intrin in req.fwd && it.outer in req.fwd
      && Eval(req.fwd[it.intrin], env) == Some(env'(it.intrin))
      && Eval(req.fwd[it.outer], env) == Some(env'(it.outer))
    ensures var req := ApplyFold(record, state, dropOutput).value; var it := PlanFold(state).value[k];
      it.target in req.rvs && Eval(req.rvs[it.target], env') == Some(env(it.target))
  {
    var items := PlanFold(state).value;
    PlanFoldIds(state);
    assert ApplyFold(record, state, dropOutput).value ==
      FoldRequest(items, AllAxes(state.mainOpMap[|state.mainOpMap| - 1].1), dropOutput);
    FoldMapsRoundTrip(items, k, env, env');
  }

  /** The round trip on the maps built from a list of splits. */
  lemma FoldMapsRoundTrip(items: seq<FoldItem>, k: nat, env: Axis -> int, env': Axis -> int)
    requires k < |items|
    requires forall j :: 0 <= j < |items| ==> items[j].intrin.id.Named? && items[j].outer.id == Outer(j)
    requires forall j :: k < j < |items| ==> items[j].intrin != items[k].intrin && items[j].target != items[k].target
    requires items[k].intrin in FoldFwdMap(items) && items[k].outer in FoldFwdMap(items)
    requires Eval(FoldFwdMap(items)[items[k].intrin], env) == Some(env'(items[k].intrin))
    requires Eval(FoldFwdMap(items)[items[k].outer], env) == Some(env'(items[k].outer))
    ensures items[k].target in FoldRvsMap(items)
    ensures Eval(FoldRvsMap(items)[items[k].target], env') == Some(env(items[k].target))
  {
    FoldMapsLookup(items, k);
    FoldRoundTrip(items[k], env, env');
  }

  /** Splits of named intrinsic axes keep their names; the k-th fresh
      outer axis is `Outer(k)`. */
  lemma PlanFoldIds(state: State)
    requires PlanFold(state).Ok?
    requires forall a :: a in AllAxes(state.mainOpMap[|state.mainOpMap| - 1].0) ==> a.id.Named?
    ensures forall j :: 0 <= j < |PlanFold(state).value| ==>
      PlanFold(state).value[j].intrin.id.Named? && PlanFold(state).value[j].outer.id == Outer(j)
  {
    var intrinAxes := AllAxes(state.mainOpMap[|state.mainOpMap| - 1].0);
    var sp := Splitting(intrinAxes);
    var pairs := FoldPairs(sp, state.axisMap).value;
    var items := PlanFold(state).value;
    assert items == FoldItems(pairs, 0).value;
    forall j | 0 <= j < |items| ensures items[j].intrin.id.Named? {
      assert items[j].intrin == sp[j];
      assert sp[j] in sp;
    }
  }

  // ---------------------------------------------------------------------
  // Apply

  /** The two requests and the state after both transforms. */
  datatype Applied = Applied(unfold: Request, fold: Request, state: State)

  /** `MappingApplier.apply`: unfold, transform, fold on the transformed
      state, transform again. The external transform is a parameter. */
  function Apply(record: Record, init: State, dropOutput: bool,
                 transform: (State, Request) -> Result<State, ApplyError>): (r: Result<Applied, ApplyError>)
    ensures |init.mainOpMap| == 0 ==> r == Err(NoMainOp)
    ensures r.Ok? ==>
      && r.value.unfold.name == ".unfold" && r.value.fold.name == ".fold"
      && !r.value.unfold.padding && !r.value.fold.padding
      && r.value.unfold.dropOutput == dropOutput && r.value.fold.dropOutput == dropOutput
    ensures r.Ok? ==>
      && ApplyUnfold(record, init, dropOutput) == Ok(r.value.unfold)
      && transform(init, r.value.unfold).Ok?
      && ApplyFold(record, transform(init, r.value.unfold).value, dropOutput) == Ok(r.value.fold)
      && transform(transform(init, r.value.unfold).value, r.value.fold) == Ok(r.value.state)
  {
    var unfold :- ApplyUnfold(record, init, dropOutput);
    var mid :- transform(init, unfold);
    var fold :- ApplyFold(record, mid, dropOutput);
    FoldNeverPads(record, mid, dropOutput);
    var final :- transform(mid, fold);
    Ok(Applied(unfold, fold, final))
  }
}
