# Axis mapping of the auto-tensorize transform phase

A Dafny model of the axis-mapping logic in
`python/tvm/auto_tensorize/tensorization_phases/compute_transform.py`.
After a target compute operator has been matched against a hardware
intrinsic, this logic decides how the target's loops are laid onto the
intrinsic's loops. It has three parts:

- **Unfold choice generator** (`UnfoldChoiceGenerator`). The match gives
  every intrinsic axis a list of candidate target axes, and the lists have
  a common length L. Level `i` is the i-th candidate of every intrinsic
  axis. An unfold choice is a 0/1 vector over the levels that says which
  levels are merged.
  - For L ≤ 10 every vector is tried.
  - For larger L only two kinds are tried: the singletons of the levels
    whose candidates all match their intrinsic axis in extent (or every
    singleton if no level does), and the all-ones vector.
  - Vectors are grouped by the per-axis sets of selected candidate names.
    The first vector of each class is kept, and empty selections are
    dropped.
  - The kept vectors are numbered densely. A local search moves between
    neighbouring ids by +1, 0 or -1.
- **Records and mutation** (`Record`, `MappingGenerator`).
  - A record holds the chosen vector and the move that led to it, with a
    JSON form and a string key.
  - The mutation loop yields a record only in steps where the neighbour
    source produced a new choice.
- **Mapping applier** (`MappingApplier`). It builds two transform
  requests, which give forward and reverse index maps plus the space
  loops and time loops.
  - The *unfold* request merges the selected levels of each intrinsic
    axis into one mixed-radix index.
  - The *fold* request splits each target axis that an intrinsic axis of
    extent > 1 maps to into an inner part (`x % factor`) and an outer
    part (`x // factor`). It rejects a target smaller than the factor.

Modules, one per file:

| module | file | contents |
|---|---|---|
| `Base` | base.dfy | `Option`, and `Result` used for raised exceptions |
| `Dicts` | dicts.dfy | a Python dict built by assignments in order; the last one wins |
| `Dedup` | dedup.dfy | first-of-each-class filtering with a `visited` set, plus a reference definition (`Firsts`) |
| `StableSort` | stable_sort.dfy | Python's stable `sorted(..., key=...)` |
| `Axes` | axes.dfy | iteration axes, index expressions, evaluation with Python's floor `//` and `%` |
| `MixedRadix` | mixed_radix.dfy | strides, the flattened index and the reverse div/mod chain |
| `UnfoldChoice` | unfold_choice.dfy | the unfold choice generator and its id encoding |
| `Records` | records.dfy | records, JSON and key forms, the mutation loop |
| `Applier` | applier.dfy | `apply_unfold`, `apply_fold` and `apply` |

Modelling choices:

- **Axes.** An axis is a value with a name, an identity and a nat
  extent. Two axes are equal exactly when the IR objects are the same
  object.
- **Fresh outer axes.** The outer axes made by the fold carry the
  identity `Outer(k)`, where k is the position of the split. Axes handed
  in carry a `Named` identity, and the outer axes are fresh only relative
  to those. A `State` whose target operator already holds an `Outer` axis
  can collide with a new one. `Applier.FoldOutersFresh` proves freshness
  when every axis of the target operator is `Named`.
- **Maps in iteration order.** The intrinsic-axis → candidates map of the
  generator, and the main-op map of a transform state, are sequences in
  that order.
- **Exceptions.** Assertions, `KeyError`, `IndexError` and the
  infeasible-fold `RuntimeError` are `Err` values.
- **`bi_product`** is a function parameter, and construction assumes
  nothing of it. With unification, a vector with a set bit past the last
  level, or any vector at all when there are no levels (`tuples[0]`), makes
  `unify_helper` index out of range; that is `Err(IndexOutOfRange)`.
  `UnfoldChoice.GeneratorConstructs` shows that construction succeeds
  when the lists share a length n > 0 and every vector has length n.
  Completeness of `bi_product` is a hypothesis of the one lemma that
  needs it.
- **The neighbour source** of the mutation loop is the finite sequence of
  choices it yields.
- **`transform_main_op`** is a function parameter of `Applier.Apply`.
  `ApplyUnfold` and `ApplyFold` return the request they would pass to it.

Notable behaviours of the code:

- **Padding.** The padding flag of the fold request is never set. Its
  only assignment is guarded by `extent < factor`, and that condition has
  already raised a few lines earlier (`Applier.FoldNeverPads`).
- **Main-op pair.** The code does not require the main-op map to have
  exactly one pair. It takes the last pair, and fails only when the map
  is empty.
- **Length check.** The check compares a list only with a non-empty
  predecessor, so leading empty candidate lists pass it.
- **Empty selection.** An unfold choice that selects no level produces no
  forward or reverse entries at all.

## Model

| member | source | states |
|---|---|---|
| UnfoldChoice.CheckLengthsSpec | python/tvm/auto_tensorize/tensorization_phases/compute_transform.py:117-126 | the length check fails exactly when some list follows a non-empty list of a different length; when it passes, the level count is the last list's length |
| UnfoldChoice.EqualLengthsPass | python/tvm/auto_tensorize/tensorization_phases/compute_transform.py:117-126 | equal non-empty lengths pass with that length; when no list is empty, the check passes if and only if all lengths are equal |
| UnfoldChoice.Zip | python/tvm/auto_tensorize/tensorization_phases/compute_transform.py:128 | `zip(*values)`: as many levels as the shortest list, and level i holds the i-th candidate of every axis |
| UnfoldChoice.UnifySpec | python/tvm/auto_tensorize/tensorization_phases/compute_transform.py:130-161 | every kept vector selects a level; kept vectors have pairwise different name groupings; they are exactly the first member of each class in input order; every selecting input has a kept representative |
| UnfoldChoice.UnifyKeeps | python/tvm/auto_tensorize/tensorization_phases/compute_transform.py:130-150 | the visited-set loop keeps only selecting vectors, and exactly the first vector of each class |
| UnfoldChoice.UnifyClasses | python/tvm/auto_tensorize/tensorization_phases/compute_transform.py:139-150 | no two kept vectors have the same sorted per-axis name sets, so none is repeated |
| UnfoldChoice.UnifyComplete | python/tvm/auto_tensorize/tensorization_phases/compute_transform.py:130-150 | every input vector that selects some level has a kept vector with the same grouping |
| UnfoldChoice.ExactLevels | python/tvm/auto_tensorize/tensorization_phases/compute_transform.py:169-176 | the levels all of whose candidates match their intrinsic axis's extent, in increasing order |
| UnfoldChoice.ChosenLevels | python/tvm/auto_tensorize/tensorization_phases/compute_transform.py:168-178 | the exact-extent levels if any exist, otherwise every level, increasing |
| UnfoldChoice.LargeCandidates | python/tvm/auto_tensorize/tensorization_phases/compute_transform.py:168-179 | the large-L candidates are the singletons of the chosen levels in order, followed by the all-ones vector |
| UnfoldChoice.NewGenerator | python/tvm/auto_tensorize/tensorization_phases/compute_transform.py:115-186 | construction fails with a length mismatch exactly when the length check fails, and with an index error exactly when it unifies and some candidate has a set bit past the last level (or there are candidates but no levels); with unification the kept vectors select a level and have distinct groupings; without it they are `bi_product` as given |
| UnfoldChoice.GeneratorConstructs | python/tvm/auto_tensorize/tensorization_phases/compute_transform.py:117-186 | when every candidate list has the same length n > 0 and `bi_product(n)` yields vectors of length n, the length check gives n and construction succeeds, with and without unification |
| UnfoldChoice.GeneratorKeepsFirsts | python/tvm/auto_tensorize/tensorization_phases/compute_transform.py:152-184 | the generator's vectors are the first of each class among its candidates, and every selecting candidate is represented |
| UnfoldChoice.SmallBranchComplete | python/tvm/auto_tensorize/tensorization_phases/compute_transform.py:152-161 | for L ≤ 10, every selecting vector that `bi_product` yields has a kept vector with the same grouping |
| UnfoldChoice.LargeBranchShape | python/tvm/auto_tensorize/tensorization_phases/compute_transform.py:162-184 | for L > 10, every kept vector is the all-ones vector or a singleton of a chosen level, and the all-ones grouping is always represented |
| UnfoldChoice.UnifiedDistinct | python/tvm/auto_tensorize/tensorization_phases/compute_transform.py:189-190 | the unified vectors are pairwise distinct, so the reverse map is a bijection onto the ids |
| UnfoldChoice.HiddenRoundTrip | python/tvm/auto_tensorize/tensorization_phases/compute_transform.py:189-200 | for every valid id, decoding gives the id's vector and encoding that vector gives back the id |
| UnfoldChoice.HiddenDefined | python/tvm/auto_tensorize/tensorization_phases/compute_transform.py:190-197 | encoding is defined exactly on the kept vectors; any other vector is a `KeyError` |
| UnfoldChoice.HiddenRoundTripBack | python/tvm/auto_tensorize/tensorization_phases/compute_transform.py:189-200 | every kept vector encodes to a valid id that decodes back to it |
| UnfoldChoice.MoveValidity | python/tvm/auto_tensorize/tensorization_phases/compute_transform.py:202-207 | a move by +1, 0 or -1 from a valid id stays valid unless it steps past either end |
| Records.JsonRoundTrip | python/tvm/auto_tensorize/tensorization_phases/compute_transform.py:233-234 | reading a record back from its JSON form gives the same record |
| Records.KeyRoundTrip | python/tvm/auto_tensorize/tensorization_phases/compute_transform.py:236-237 | the comma-joined key can be parsed back into the chosen bit-vector |
| Records.KeyInjective | python/tvm/auto_tensorize/tensorization_phases/compute_transform.py:236-237 | two records have the same key if and only if they choose the same bit-vector |
| Records.MutateOne | python/tvm/auto_tensorize/tensorization_phases/compute_transform.py:294-314 | yields min(steps, number of successors) records, the i-th being the i-th successor, so there are no stuck repeats |
| Dicts.DictOf | python/tvm/auto_tensorize/tensorization_phases/compute_transform.py:343-345 | the dict's keys are the assigned keys, and each maps to the value of its last assignment |
| Dedup.DedupIsFirsts | python/tvm/auto_tensorize/tensorization_phases/compute_transform.py:146-150 | filtering with a visited set equals the reference list of first members of each class |
| Dedup.FirstsSoundAt | python/tvm/auto_tensorize/tensorization_phases/compute_transform.py:146-150 | every kept element is an input element that is the first member of its class, at an index below the bound |
| Dedup.FirstsDistinct | python/tvm/auto_tensorize/tensorization_phases/compute_transform.py:146-150 | no two kept elements share a class |
| Dedup.FirstsComplete | python/tvm/auto_tensorize/tensorization_phases/compute_transform.py:146-150 | every class met among the kept-eligible inputs is represented |
| Dedup.FirstsKeepFirsts | python/tvm/auto_tensorize/tensorization_phases/compute_transform.py:146-150 | the first member of every class is kept |
| Dedup.Unique | python/tvm/auto_tensorize/tensorization_phases/compute_transform.py:380-385 | the deduplicated axes have the same members, none repeated, in order of first occurrence |
| StableSort.SortBy | python/tvm/auto_tensorize/tensorization_phases/compute_transform.py:374-375 | the result is sorted by key, and for every key value its elements keep their original order (stability) |
| StableSort.SortPermutes | python/tvm/auto_tensorize/tensorization_phases/compute_transform.py:374-375 | sorting is a permutation |
| StableSort.SortConstantKey | python/tvm/auto_tensorize/tensorization_phases/compute_transform.py:374-375 | when every key is equal (for example, target axes that are not intrinsic axes), the order is unchanged |
| Axes.FloorDiv | python/tvm/auto_tensorize/tensorization_phases/compute_transform.py:395-397 | Python `//`: the quotient rounds toward minus infinity, for either sign of divisor |
| Axes.FloorMod | python/tvm/auto_tensorize/tensorization_phases/compute_transform.py:460-461 | Python `%`: `a == b*(a//b) + r`, with r taking the divisor's sign |
| MixedRadix.Strides | python/tvm/auto_tensorize/tensorization_phases/compute_transform.py:386-391 | stride i is the product of the extents after position i |
| MixedRadix.StridesRecurrence | python/tvm/auto_tensorize/tensorization_phases/compute_transform.py:386-391 | the innermost stride is 1 and `stride[i] = stride[i+1] * extent[i+1]`; strides are positive for positive extents |
| MixedRadix.EvalFlatten | python/tvm/auto_tensorize/tensorization_phases/compute_transform.py:368-372 | the forward expression evaluates to Σ axis·stride |
| MixedRadix.DigitRoundTrip | python/tvm/auto_tensorize/tensorization_phases/compute_transform.py:393-397 | for digits within their radices, `x // stride[0]` recovers the first digit and `x % stride[i-1] // stride[i]` recovers the others |
| MixedRadix.UnfoldRoundTrip | python/tvm/auto_tensorize/tensorization_phases/compute_transform.py:386-397 | the reverse expression of every merged axis evaluated at the flattened index gives that axis's value back |
| Applier.RemainingLoops | python/tvm/auto_tensorize/tensorization_phases/compute_transform.py:400-406 | the time loops are exactly the target axes not in the space loops, as a subsequence of the target axes |
| Applier.RemainingCounts | python/tvm/auto_tensorize/tensorization_phases/compute_transform.py:400-406 | each target axis outside the space loops keeps its multiplicity, and space-loop axes do not occur at all |
| Applier.NonEmptyCandidates | python/tvm/auto_tensorize/tensorization_phases/compute_transform.py:350-355 | succeeds exactly when every intrinsic axis is in the axis map, then keeps the axes with non-empty lists in order; otherwise a `KeyError` on a missing axis |
| Applier.SelectedLevels | python/tvm/auto_tensorize/tensorization_phases/compute_transform.py:357-359 | the selected levels are exactly the positions of 1 bits, increasing |
| Applier.FirstOutOfRange | python/tvm/auto_tensorize/tensorization_phases/compute_transform.py:357-359 | `tmp[i]` raises exactly when some selected level is past the zipped levels, and names that level |
| Applier.ChoiceAt | python/tvm/auto_tensorize/tensorization_phases/compute_transform.py:356-360 | `zip(*choices)` row k: the k-th axis's candidate at every selected level |
| Applier.MakeGroup | python/tvm/auto_tensorize/tensorization_phases/compute_transform.py:379-391 | a group's unique axes are exactly the chosen axes, without repeats, sorted by the sort key (an intrinsic axis's position, 0 for any other axis) with equal-key axes in order of first occurrence in the choice; its strides are the mixed-radix strides of their extents |
| Applier.GroupOrder | python/tvm/auto_tensorize/tensorization_phases/compute_transform.py:374-385 | sorting by the key and then keeping first occurrences gives a key-sorted list whose equal-key axes keep their order of first occurrence in the choice |
| StableSort.SortKeepsTieOrder | python/tvm/auto_tensorize/tensorization_phases/compute_transform.py:374-375 | for two different elements with the same key, sorting keeps their relative order of first occurrence |
| StableSort.WithKeyOrder | python/tvm/auto_tensorize/tensorization_phases/compute_transform.py:374-375 | restricting to one key value keeps the relative order of first occurrence of that value's elements |
| Applier.Groups | python/tvm/auto_tensorize/tensorization_phases/compute_transform.py:377-391 | one group per remaining intrinsic axis, built from that axis's selected candidates |
| Applier.PlanUnfold | python/tvm/auto_tensorize/tensorization_phases/compute_transform.py:334-391 | fails with the missing-main-op assertion exactly when the main-op map is empty; the target axes come from the last pair; every group is well formed; no selection gives no groups |
| Applier.PlanFrom | python/tvm/auto_tensorize/tensorization_phases/compute_transform.py:350-391 | the only failure after the lookups is an out-of-range level; no selection gives no groups |
| Applier.SelectsSome | python/tvm/auto_tensorize/tensorization_phases/compute_transform.py:357-360 | a vector selects something if and only if some level is selected |
| Applier.PlanUnfoldGroups | python/tvm/auto_tensorize/tensorization_phases/compute_transform.py:350-391 | every group belongs to an intrinsic axis and merges exactly that axis's candidates at the selected levels; with a selection every axis with candidates has a group |
| Applier.PlanUnfoldLevels | python/tvm/auto_tensorize/tensorization_phases/compute_transform.py:350-360 | the unfold plan succeeds if and only if every selected level exists in every non-empty candidate list, and some axis has candidates when anything is selected |
| Applier.PlanFromLevels | python/tvm/auto_tensorize/tensorization_phases/compute_transform.py:350-360 | the same success condition stated over the filtered axes |
| Applier.ApplyUnfold | python/tvm/auto_tensorize/tensorization_phases/compute_transform.py:332-414 | the request is named `.unfold`, has no padding and carries the drop flag; every target axis is a space or time loop; the time loops are the rest of the target axes in order; no selection gives empty maps and no space loops |
| Applier.UnfoldKeys | python/tvm/auto_tensorize/tensorization_phases/compute_transform.py:392-398 | the forward map is keyed by the grouped intrinsic axes and the reverse map by the space loops |
| Applier.UnfoldFwdLookup | python/tvm/auto_tensorize/tensorization_phases/compute_transform.py:368-392 | an intrinsic axis's forward entry is the flattened index of its unique axes |
| Applier.UnfoldRvsLookup | python/tvm/auto_tensorize/tensorization_phases/compute_transform.py:393-397 | a merged axis's reverse entry is its div/mod digit of the intrinsic axis, when no later assignment overwrites it |
| Applier.UnfoldRequestRoundTrip | python/tvm/auto_tensorize/tensorization_phases/compute_transform.py:386-397 | evaluating the request's reverse entry at the value the forward entry gives recovers each merged axis's value |
| Applier.Splitting | python/tvm/auto_tensorize/tensorization_phases/compute_transform.py:431-436 | only intrinsic axes of extent > 1 are folded, in order |
| Applier.FoldPairs | python/tvm/auto_tensorize/tensorization_phases/compute_transform.py:431-437 | each folded axis is paired with the last axis of its candidate list; a missing axis or an empty list is an error |
| Applier.CeilDiv | python/tvm/auto_tensorize/tensorization_phases/compute_transform.py:458 | `outer = (extent+factor-1)//factor` satisfies `(outer-1)*factor < extent <= outer*factor`, and is exact on multiples |
| Applier.FoldItems | python/tvm/auto_tensorize/tensorization_phases/compute_transform.py:446-464 | succeeds if and only if every target is at least as large as its factor; otherwise reports an infeasible pair with both extents |
| Applier.FoldLoops | python/tvm/auto_tensorize/tensorization_phases/compute_transform.py:463-474 | the space loops are the split targets; the time loops are the outer axes in order, then the other target axes in order; every target axis is covered |
| Applier.PlanFold | python/tvm/auto_tensorize/tensorization_phases/compute_transform.py:416-437 | fails with the missing-main-op assertion exactly when the main-op map is empty |
| Applier.PlanFoldItems | python/tvm/auto_tensorize/tensorization_phases/compute_transform.py:431-464 | split k pairs the k-th intrinsic axis of extent > 1 with the last candidate of its list, which is at least as large, and gets an outer axis `name.o` of extent ceil(extent/factor) |
| Applier.PlanFoldInfeasible | python/tvm/auto_tensorize/tensorization_phases/compute_transform.py:446-457 | once the lookups succeed, the fold fails if and only if some folded axis's target is smaller than it, and the failure is the infeasible-mapping error |
| Applier.ItemsInfeasible | python/tvm/auto_tensorize/tensorization_phases/compute_transform.py:446-457 | the same characterisation over a given list of folded axes |
| Applier.ApplyFold | python/tvm/auto_tensorize/tensorization_phases/compute_transform.py:416-488 | fails on an empty main-op map exactly; otherwise the request is named `.fold` and carries the drop flag |
| Applier.FoldOutersFresh | python/tvm/auto_tensorize/tensorization_phases/compute_transform.py:459-474 | when every axis of the target operator is an axis handed in, no outer loop of the fold is one of the target's axes and none occurs twice among the time loops, as holds for the new `IterVar` objects of the source |
| Applier.FoldNeverPads | python/tvm/auto_tensorize/tensorization_phases/compute_transform.py:444-466 | every fold request that is produced has the padding flag unset |
| Applier.FoldRoundTrip | python/tvm/auto_tensorize/tensorization_phases/compute_transform.py:460-462 | applying `o*factor + i` to the forward values `x % factor` and `x // factor` gives x back |
| Applier.FoldRoundTripBack | python/tvm/auto_tensorize/tensorization_phases/compute_transform.py:460-462 | for an inner value below the factor, the forward map recovers the inner and outer values from `o*factor + i` |
| Applier.OuterCoversTarget | python/tvm/auto_tensorize/tensorization_phases/compute_transform.py:458-461 | every index of the target axis has an outer part inside the outer axis's range |
| Applier.FoldMapsLookup | python/tvm/auto_tensorize/tensorization_phases/compute_transform.py:460-462 | each split's inner, outer and reverse entries are in the request maps with the expected expressions |
| Applier.FoldRequestRoundTrip | python/tvm/auto_tensorize/tensorization_phases/compute_transform.py:446-484 | in the produced fold request, the reverse entry of a split target, evaluated at the forward values, gives the target's value back |
| Applier.Apply | python/tvm/auto_tensorize/tensorization_phases/compute_transform.py:490-493 | an empty main-op map fails; otherwise the unfold request is built from the initial state, then the fold request from the transformed state, and both carry their names, no padding and the drop flag |

## Left out

- The IR and its C++ side (lines 14-112) are not modelled: `TransformState`, the `TransformRequest` constructor, `infer_range` and `transform_main_op`. These are foreign calls. A request is a plain datatype, and `transform_main_op` is a parameter of `Applier.Apply`.
- `MappingApplier.__init__` (lines 321-330) only wraps the match result into a `TransformState` through the same foreign constructor, so the model starts from a `State`.
- The search machinery of the base classes is not modelled: random `get`, `get_next`, `feedback`, the Q-table, the top-k table and logging. Neither are `get_all`, `get_record`, `feedback_value`, `get_generators`, `init_param_generator` and the softmax score table of `MappingGenerator` (lines 271-292, 316-317). These involve randomness, floating point and code outside this file. The neighbour source is a given sequence of choices.
- `bi_product` lives outside this file. It is a parameter, and construction assumes nothing of it: a vector with a set bit past the last level is an index error. Its vectors having the requested length is a hypothesis of `UnfoldChoice.GeneratorConstructs` only, and its completeness a hypothesis of `UnfoldChoice.SmallBranchComplete` only.
- `to_hashable` is taken to be the identity on bit-vectors, because the reverse map only needs a hashable copy of the same vector.
- `print` logging (lines 187, 411-412, 485-486) and the commented-out `get_random_direction` are not modelled.
- Two details of `tvm.tir.IterVar` construction for the fold's outer axes are not modelled: the iteration type, and the runtime's fresh-object identity. The latter is approximated by the `Outer(k)` identity, which is fresh only relative to `Named` axes.
- `Record.__str__` renders JSON as text with `json.dumps`. That rendering is not modelled; JSON is a value datatype.
- Records.RecordFromJson: stricter than Python. It accepts only an `"unfold"` entry that is a pair of a 0/1 list and an integer, where Python stores whatever object it finds.
- Applier.ApplyFold: its own contract states only the request's name, drop flag and failure condition. Its loops, maps and padding are stated by `Applier.FoldLoops`, `Applier.FoldRequestRoundTrip` and `Applier.FoldNeverPads`.
- Applier.Apply: states failure on an empty main-op map in one direction only, since the transform parameter may fail too.
- Applier.ApplyFold and Applier.OuterAxis: an outer axis is fresh only when the state's target operator has no axis with an `Outer` identity. `State` does not exclude such an axis, and neither does the `transform` parameter of `Applier.Apply`. For such a state the model's outer axis can equal an existing axis, so it occurs twice among the time loops, where the source's new `IterVar` would be a distinct object. `Applier.FoldOutersFresh` states freshness under the assumption that every target axis is `Named`.
