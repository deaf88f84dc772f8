# rekall interval algebra, modelled in Dafny

rekall represents what happens in a video as intervals:
- a stretch of time, optionally with a box in the frame (x and y between 0 and 1);
- a payload attached to each interval.

Queries over such intervals are built from a small algebra:
- predicates on pairs of intervals (Allen's temporal relations, box geometry, payload tests) and combinators over them;
- collections kept sorted by their bounds;
- the set operations on those collections: map, filter, union, a windowed join, a temporal difference (minus), coalesce and group-by;
- keyed collections that lift every operation to a dict from a domain key (a video id, typically) to the collection of that domain;
- the runtime's task-splitting and result-combining helpers.

This project models that core and proves what its documentation and code promise about it. Coordinates are `real`. Python's error paths (`assert False`, `KeyError`, `panic`, division by zero, the runtime exception) become `Result` values.

Where the source changes state step by step, the model does too:
- Index-advancing sweeps are `method`s with loop invariants: set and list joins, the minus operations, list coalesce, group-by, task creation and the keyed-collection loops.
- Each such method is proved equal to a specification function on values.
- The properties are proved about that function.
- In-place updates become class fields with `modifies` clauses: the error collector of the runtime, and a collection's `__setitem__` / `__delitem__`.
- The in-place sort of the caller's list becomes an `array`.
- Everything else is functions and lemmas.

The modules follow the source files:

- `Common` and `Seqs`: results and errors, the unbounded maximum distance (`INFTY`), and the list-comprehension combinators.
- `LexSort`: Python's tuple order, and one stable sort standing for `list.sort` / `sorted`.
- `Bounds`: the `Bounds1D` and `Bounds3D` records of `rekallpy/rekall/bounds`, with their tuple order, their construction from tuples, and the predicate casts.
- `Temporal`: the one-dimensional `Interval` and the temporal predicates of `rekall/temporal_predicates.py`.
- `Logic`, `BBoxPredicates`, `PayloadPredicates`: the predicate combinators, the bounding-box predicates, and payload lifting.
- `BoundOps`, `Interval3DOps`, `SetUtils`: the bound combinators, the 3D interval and its merge and overlap, the sort key, and the axis adapters of `rekall/interval_set_3d_utils.py`.
- `IntervalSet3DModel`, `SetJoin`, `SetMinus`: `IntervalSet3D` and its operations, including the windowed join sweep and the temporal difference.
- `IntervalListModel`, `IntervalListMinus`, `IntervalListMinusFacts`: `IntervalList` of `rekall/interval_list.py`. This includes both ways its `minus` can run, and what the recursive difference leaves of an interval.
- `IntervalList3DModel`, `List3DSweep`, `List3DJoin`, `List3DGroup`, `List3DCoalesce`, `List3DCoalesceFacts`, `List3DCoalesceClosure`, `List3DMinus`, `List3DMinusFacts`, `List3DMinusComplete`: `IntervalList3D` of `rekall/interval_list_3d.py` and its sweeps.
- `Dicts`, `KeyedSets`, `DomainCollection`, `VideoCollection`: Python dicts in insertion order, and the two keyed collections.
- `Runtime`: task splitting, the error callback, and the disjoint-domain combiner of `rekall/runtime.py`.

Main results:
- The join sweeps produce exactly a filtered cross product of the admitted pairs. The window and the start index skip no pair that could match.
- The recursive differences (`SetMinus.Minus`, `IntervalListMinus.MinusCut`, `List3DMinus.ExperimentalMinus`) and the corrected pairwise `Interval.minus` (`IntervalListModel.Minus`) are sound and complete. Their pieces lie in the receiver's interval, avoid every partner, and cover every time no partner holds (for partners that hold some time). The pair-by-pair `IntervalListMinus.MinusEach` (`recursive_diff=False`) emits each partner's difference separately, so its pieces may overlap other partners (`MinusEachMembers`).
- Coalesce:
  - never lengthens the list;
  - covers every input;
  - adds no time;
  - in the 1D `IntervalList` (`CoalesceLaws`), leaves the outputs of one bucket separated. The single pass of the 3D `IntervalList3D.coalesce` can leave two matching boxes apart (see "## Findings"). `List3DCoalesceClosure.CoalesceIntended` merges until no pair matches.
- The sorts are stable permutations.
- The keyed wrappers act key by key and drop empty results.
- The task split flattens back to the arguments.

## Model

| member | source | states |
|---|---|---|
| Bounds.DefaultFrame | rekallpy/rekall/bounds/bounds3D.py:15-33 | a 3D bound built from t1 and t2 alone spans the whole frame: x = [0, 1], y = [0, 1] |
| Bounds.FromTuple3D | rekallpy/rekall/bounds/bounds3D.py:35-48 | succeeds exactly for two to six values, which fill t1, t2, x1, x2, y1, y2 in order; the missing ones take the constructor's defaults; other lengths are a TypeError |
| Bounds.FromTuple3DRoundTrip | rekallpy/rekall/bounds/bounds3D.py:35-48 | building from a bound's own six co-ordinates gives the bound back |
| Bounds.FromTuple3DPair | rekallpy/rekall/bounds/bounds3D.py:35-48 | building from (t1, t2) is the two-argument constructor |
| Bounds.Less3DIsStrictOrder | rekallpy/rekall/bounds/bounds3D.py:50-54 | the tuple order on 3D bounds is irreflexive, transitive, total and asymmetric |
| Bounds.Less3DExamples | rekallpy/test/test_bounds.py:25-39 | the ordering cases of the 3D bounds test, including ties in time broken on the spatial co-ordinates |
| Bounds.CastsIgnoreTime | rekallpy/rekall/bounds/bounds3D.py:66-126 | a predicate cast to X or Y reads only the spatial co-ordinates: arguments that differ only in t1, t2 get the same answer |
| Bounds.CastExample | rekallpy/test/test_bounds.py:41-53 | `t2 > t1` holds of the test's bound but fails through both the X and the Y cast |
| Bounds.FromTuple1D | rekallpy/rekall/bounds/bounds1D.py:28-41 | succeeds exactly for two values, which become t1 and t2; any other length is a TypeError |
| Bounds.Less1DTrichotomy | rekallpy/rekall/bounds/bounds1D.py:43-45 | `<` compares t1, then t2; it is a strict total order: exactly one of a < b, b < a, a = b |
| Bounds.Less1DExamples | rekallpy/test/test_bounds.py:14-23 | the ordering cases of the 1D bounds test |
| Bounds.Bounds3D.PrimaryAxis | rekallpy/rekall/bounds/bounds3D.py:62-64 | the primary axis of a 3D bound is time: the pair of field names (t1, t2) |
| Bounds.Bounds1D.PrimaryAxis | rekallpy/rekall/bounds/bounds1D.py:51-53 | the primary axis of a 1D bound is time: the pair of field names (t1, t2) |
| Logic.AndMeaning | rekallpy/rekall/predicates.py:23-30 | the conjunction of any number of predicates holds iff every one holds; with none it holds |
| Logic.OrMeaning | rekallpy/rekall/predicates.py:32-39 | the disjunction holds iff some predicate holds; with none it fails |
| Logic.AndStopsAtFirstFalse | rekall/interval_set_3d_utils.py:62-68 | the conjunction returns False at the first predicate that fails, whatever follows |
| Logic.OrStopsAtFirstTrue | rekall/interval_set_3d_utils.py:70-76 | the disjunction returns True at the first predicate that holds, whatever follows |
| Logic.NotNegates | rekallpy/rekall/predicates.py:17-21 | the negated predicate answers the opposite; negating twice gives the predicate back |
| Logic.NotAndIsOrNot | rekall/interval_set_3d_utils.py:57-76 | negating a conjunction is the disjunction of the negations (De Morgan) |
| Logic.ConstantPredicates | rekallpy/rekall/predicates.py:41-51 | `true_pred()` always holds and `false_pred()` never does |
| Temporal.BeforeDefaults | rekall/temporal_predicates.py:49-55 | with the default distances, `before` holds exactly when the second interval starts no earlier than the first ends (meeting included) |
| Temporal.AfterIsConverse | rekall/temporal_predicates.py:57-63 | `after` is `before` with its arguments swapped, for every distance range |
| Temporal.OverlapsSymmetric | rekall/temporal_predicates.py:65-69 | `overlaps` does not depend on argument order |
| Temporal.OverlapsReflexive | rekall/temporal_predicates.py:65-69 | every interval overlaps itself |
| Temporal.TouchingDoNotOverlap | rekall/temporal_predicates.py:65-69 | positive-length intervals that only meet do not overlap |
| Temporal.OverlapsPositive | rekall/temporal_predicates.py:65-69 | for positive-length intervals, overlapping is sharing an open stretch of time |
| Temporal.OverlapsIsUnionOfAllen | rekall/temporal_predicates.py:39-41 | `overlaps` is exactly the union of equal, starts, finishes, during (and inverses) and the two strict overlaps |
| Temporal.EqualLaws | rekall/temporal_predicates.py:107-108 | `equal` is symmetric and implies `overlaps` |
| Temporal.ConverseLaws | rekall/temporal_predicates.py:71-105 | each relation and its `_inv`/after form are converses: overlaps_before/after, during/during_inv, meets_before/after, starts/starts_inv, finishes/finishes_inv |
| Temporal.StartsFinishesShape | rekall/temporal_predicates.py:79-93 | `starts` agrees within epsilon on the start and ends strictly earlier; `finishes` agrees within epsilon on the end and starts strictly later |
| Temporal.AndOrPredMeaning | rekall/temporal_predicates.py:110-114 | the two-predicate `and_pred`/`or_pred` are the conjunction/disjunction of their arguments |
| Temporal.LogicalPredicateExamples | rekallpy/test/test_logical_predicates.py:16-31 | every and/or case of the `test_and` and `test_or` tests |
| PayloadPredicates.PayloadSatisfies | rekall/payload_predicates.py:13-17 | arity 1 and 2 give a one- and a two-interval predicate; any other arity is an error |
| PayloadPredicates.PayloadSatisfiesMeaning | rekall/payload_predicates.py:13-17 | arity 1 tests the interval's payload; arity 2 tests the two payloads in argument order |
| PayloadPredicates.PayloadOnly | rekall/payload_predicates.py:13-17 | the adapted predicates never read the bounds: intervals with equal payloads get equal answers |
| PayloadPredicates.BinaryArgumentOrder | rekall/payload_predicates.py:17 | with arity 2 the first interval's payload is the predicate's first argument |
| BBoxPredicates.AsDict | rekallpy/rekall/predicates.py:54-88 | the dict a box predicate indexes has exactly the keys x1, x2, y1, y2 |
| BBoxPredicates.HasValue | rekallpy/rekall/predicates.py:115-132 | a missing key is a KeyError; otherwise true iff the value is strictly within epsilon of the target |
| BBoxPredicates.SameValue | rekallpy/rekall/predicates.py:538-555 | as written: every call is a NameError, whatever the key and the boxes |
| BBoxPredicates.SameValueByKey | rekallpy/rekall/predicates.py:538-554 | as documented: a missing key is a KeyError; otherwise true iff the two values under the key differ by less than epsilon |
| BBoxPredicates.BetweenIsAtLeastAndAtMost | rekallpy/rekall/predicates.py:152-344 | each `_between` test is its `_at_least` and `_at_most` tests together, for area, width and height |
| BBoxPredicates.PositionConverses | rekallpy/rekall/predicates.py:347-401 | `left_of`/`right_of` and `above`/`below` are converses |
| BBoxPredicates.SizeConverses | rekallpy/rekall/predicates.py:420-536 | `more_*`/`less_*` are converses for area, width and height |
| BBoxPredicates.StrictEpsilon | rekallpy/rekall/predicates.py:90-508 | the "exactly"/"same"/`position` tests hold only for a difference strictly below epsilon, so with epsilon 0 they never hold |
| BBoxPredicates.InsideLaws | rekallpy/rekall/predicates.py:557-587 | `contains` is `inside` swapped; `inside` (inclusive bounds) is reflexive and transitive |
| BBoxPredicates.InsideIsReversed | rekallpy/rekall/predicates.py:557-573 | as written, a small box within a large one is not `inside` it while the large one is `inside` the small one |
| BBoxPredicates.InsideAsDocumentedIsSwap | rekallpy/rekall/predicates.py:557-587 | the documented `inside`/`contains` are the as-written ones with the arguments exchanged |
| BoundOps.MergeBound | rekall/interval_set_3d_utils.py:4-5 | the merged bound's ends are the smaller start and the larger end of the two |
| BoundOps.OverlapBound | rekall/interval_set_3d_utils.py:7-8 | the overlap's ends are the larger start and the smaller end of the two |
| BoundOps.MergeBoundLaws | rekall/interval_set_3d_utils.py:4-5 | the merge holds both bounds and is commutative, idempotent and associative |
| BoundOps.MergeBoundLeast | rekall/interval_set_3d_utils.py:4-5 | every bound holding both holds their merge |
| BoundOps.OverlapBoundLaws | rekall/interval_set_3d_utils.py:7-11 | the overlap is commutative and idempotent and no larger than one of the two |
| BoundOps.OverlapBoundGreatest | rekall/interval_set_3d_utils.py:7-8 | every bound inside both is inside their overlap |
| BoundOps.BoundSizeMonotone | rekall/interval_set_3d_utils.py:4-11 | for well-formed bounds a merge never shrinks and an overlap never grows the size |
| LexSort.LexLtTrichotomy | rekall/interval_set_3d_utils.py:14-17 | Python's `<` on tuples of numbers is a strict total order: exactly one of a < b, b < a, a = b |
| LexSort.LexLtIsStrictLe | rekall/interval_set_3d_utils.py:14-17 | the strict tuple order is the non-strict one without equality |
| LexSort.SortBy | rekall/interval_set_3d.py:78-79 | the sorted list is a permutation of the input and is in key order |
| LexSort.SortByStable | rekall/interval_list.py:106-108 | the sort is stable: elements with equal keys keep their input order |
| LexSort.SortBySorted | rekall/interval_list_3d.py:127-129 | sorting an already sorted list leaves it unchanged |
| LexSort.FilterSortedBy | rekall/interval_set_3d.py:145-151 | dropping elements of a sorted list keeps it sorted |
| Interval3DOps.TimeProjection | rekall/interval_set_3d_utils.py:21-26 | the 1D interval a time predicate sees has the 3D interval's time bounds and payload |
| Interval3DOps.Combine | rekall/interval_set_3d.py:31-37 | each axis of the result is its own combiner applied to the two intervals' bounds on that axis; the payload is the merge of the two payloads |
| Interval3DOps.Merge | rekall/interval_set_3d.py:39-44 | on every axis the result is the least bound holding both intervals' bounds; the payload is merged |
| Interval3DOps.OverlapTimeMergeSpace | rekall/interval_set_3d.py:46-55 | None exactly when the time ranges do not overlap; otherwise time is the greatest bound inside both time ranges and space spans both |
| Interval3DOps.ExpandToFrame | rekall/interval_set_3d.py:57-59 | x and y become the full frame [0, 1]; time and payload are kept |
| Interval3DOps.OverlapTimeNonEmpty | rekall/interval_set_3d.py:46-55 | overlapping well-formed intervals give a time intersection of non-negative length |
| Interval3DOps.MergeLaws | rekall/interval_set_3d.py:39-44 | merging is commutative up to the payload, and merging an interval with itself keeps its bounds |
| Interval3DOps.ExpandIdempotent | rekall/interval_set_3d.py:57-59 | expanding twice is expanding once |
| SetUtils.SortKey | rekall/interval_set_3d_utils.py:14-17 | the key is the six bounds, time first |
| SetUtils.SortKeyIdentifiesBounds | rekall/interval_set_3d_utils.py:14-17 | two intervals have equal keys exactly when their bounds are equal |
| SetUtils.ToBBox | rekall/interval_set_3d_utils.py:42-47 | the box of an interval has its x and y bounds and its payload |
| SetUtils.AdaptersReadTheirAxes | rekall/interval_set_3d_utils.py:21-54 | `T` reads only time and payload, `XY` only space and payload, the x adapter only x, and the y adapter and the exported `X` only y |
| SetUtils.XIsYAxis | rekall/interval_set_3d_utils.py:28-40 | the exported `X` is the y adapter, for every predicate and argument list |
| SetUtils.XShadowingExample | rekall/interval_set_3d_utils.py:28-40 | on x = (0, 0.5), y = (0.5, 1) the intended x adapter sees a start at 0 and the exported `X` does not |
| IntervalSet3DModel.MaxEnd | rekall/interval_set_3d.py:87 | the value is at least every end time and is the end time of some interval |
| IntervalSet3DModel.DefaultWindowNonNegative | rekall/interval_set_3d.py:82-94 | the default window of a sorted list of well-formed intervals is never negative |
| IntervalSet3DModel.DefaultWindowAdmitsAll | rekall/interval_set_3d.py:82-94 | with at most 1000 intervals the default window spans from the first start to the latest end, so the join's sweep window admits every pair of the set |
| IntervalSet3DModel.SortedStarts | rekall/interval_set_3d.py:78-79 | in a set's list the start times never decrease |
| IntervalSet3DModel.Make | rekall/interval_set_3d.py:69-94 | the set holds a sorted permutation of the given intervals, with the default window of that list |
| IntervalSet3DModel.New | rekall/interval_set_3d.py:69-79 | the constructor sorts the caller's own list in place: afterwards the caller's array holds the set's sorted list |
| IntervalSet3DModel.ConstructorReordersInput | rekall/interval_set_3d.py:69-79 | a list given out of order comes back reordered, so a caller holding it sees it change |
| IntervalSet3DModel.MakeSorted | rekall/interval_set_3d.py:69-79 | constructing from a sorted list keeps the list as it is |
| IntervalSet3DModel.Map | rekall/interval_set_3d.py:100-104 | the result is sorted and is a permutation of the mapped intervals |
| IntervalSet3DModel.Union | rekall/interval_set_3d.py:106-107 | the result is sorted and holds both sets' intervals, duplicates kept |
| IntervalSet3DModel.UnionReceiverFirst | rekall/interval_set_3d.py:106-107 | among intervals with equal bounds the receiver's come first, each side in its own order |
| IntervalSet3DModel.Filter | rekall/interval_set_3d.py:145-151 | the result is sorted and is a permutation of the intervals that satisfy the predicate |
| IntervalSet3DModel.FilterKeepsOrder | rekall/interval_set_3d.py:145-151 | on a set, filtering keeps exactly the satisfying intervals in their order |
| IntervalSet3DModel.FilterTwice | rekall/interval_set_3d.py:145-151 | filtering twice with one predicate is filtering once |
| IntervalSet3DModel.FoldNoInit | rekall/interval_set_3d.py:153-162 | without an initial value, folding an empty set is a TypeError and a non-empty one starts from its first interval |
| IntervalSet3DModel.FoldInSetOrder | rekall/interval_set_3d.py:153-162 | with the set's own key the fold visits the intervals in the set's order |
| IntervalSet3DModel.GroupKeysMeaning | rekall/interval_set_3d.py:171-178 | the group keys are distinct, each is the key of some interval, and every interval's key is among them |
| IntervalSet3DModel.GroupByMeaning | rekall/interval_set_3d.py:164-182 | one output interval per distinct key, each the merge of that key's non-empty group, and every input's key has a group |
| IntervalSet3DModel.KeysCoverInput | rekall/interval_set_3d.py:171-178 | every interval's key is among the keys of the sorted list |
| IntervalSet3DModel.GroupsNonEmpty | rekall/interval_set_3d.py:171-178 | no key's group is empty |
| IntervalSet3DModel.FileByKey | rekall/interval_set_3d.py:171-178 | the loop files every interval under its key, in input order, and lists the keys in order of first appearance |
| IntervalSet3DModel.GroupBy | rekall/interval_set_3d.py:164-182 | the method computes the grouping that `GroupByMeaning` describes |
| SetJoin.JoinRow | rekall/interval_set_3d.py:122-137 | the inner loop appends exactly the merges of the admitted, predicate-true pairs of its receiver interval, in `other`'s order, and reports where the next scan may start: every interval before it ends before the window opens |
| SetJoin.JoinSweep | rekall/interval_set_3d.py:119-142 | the two loops, with their early exits, produce the same list as the full cross product of the admitted, predicate-true pairs, and evaluate the predicate on exactly the admitted pairs |
| SetJoin.Join | rekall/interval_set_3d.py:109-143 | the set `join` returns, with the window defaulting to the receiver's |
| SetJoin.RestNotAdmitted | rekall/interval_set_3d.py:138-141 | once `other` ends before the window of a receiver interval, no later receiver interval adds any output, which justifies the outer `break` |
| SetJoin.LaterAreEmpty | rekall/interval_set_3d.py:131-133 | once an interval of `other` starts after the window closes, the rest add nothing, which justifies the inner `break` |
| SetJoin.SkippedAreEmpty | rekall/interval_set_3d.py:127-130 | intervals of `other` skipped by the moving start index add nothing to later rows |
| SetJoin.JoinOutputs | rekall/interval_set_3d.py:109-143 | an interval is in the join iff some pair within the window satisfies the predicate and the merge of that pair yields it |
| SetJoin.EvaluatedPairs | rekall/interval_set_3d.py:127-134 | the predicate is evaluated on exactly the pairs within the window |
| SetJoin.JoinOfEmpty | rekall/interval_set_3d.py:109-143 | an empty receiver or an empty `other` gives an empty set |
| SetJoin.JoinSize | rekall/interval_set_3d.py:135-137 | the output has exactly as many intervals as the merges of the admitted, predicate-true pairs yield |
| SetMinus.Minus | rekall/interval_set_3d.py:184-280 | NotImplementedError exactly when some interval of `other` does not span the whole frame; otherwise the set of the parts, each part being what `MinusPart` describes for its receiver interval |
| SetMinus.MinusSweep | rekall/interval_set_3d.py:213-235 | the outer loop's output is the parts of the receiver intervals in order, each satisfying `MinusPart` |
| SetMinus.MinusOne | rekall/interval_set_3d.py:215-279 | one receiver interval's contribution satisfies `MinusPart`, and the next scan may start where every earlier interval of `other` ends before it |
| SetMinus.CollectOverlapped | rekall/interval_set_3d.py:216-229 | the scan collects exactly the intervals of `other` that the receiver interval touches, in order |
| SetMinus.Carve | rekall/interval_set_3d.py:240-279 | the pieces lie within the receiver interval, overlap no positive-length touching interval, ascend without overlapping, and hold every time no such interval holds |
| SetMinus.CarveStep | rekall/interval_set_3d.py:244-279 | one pass either proposes a piece from a free `start` to the next interval or moves `start` past the intervals across it, and always moves `start` forward |
| SetMinus.ScanAcross | rekall/interval_set_3d.py:248-261 | collects the intervals across `start` and stops at the first interval after it |
| SetMinus.GapIsClear | rekall/interval_set_3d.py:262-274 | the stretch from a free `start` to the next interval overlaps nothing in the sorted positive-length list |
| SetMinus.TouchedPartIsDifference | rekall/interval_set_3d.py:190-204 | for a touched receiver interval, a time of it lies in a piece iff no interval of `other` holds it: nothing is lost and nothing of `other` is kept |
| SetMinus.TouchedPart | rekall/interval_set_3d.py:239-274 | a piece of a touched receiver interval lies within it and overlaps nothing of `other` |
| SetMinus.UntouchedIsCopied | rekall/interval_set_3d.py:230-238 | a receiver interval that touches nothing in `other` is copied unchanged |
| SetMinus.ZeroLengthTouchedVanishes | rekall/interval_set_3d.py:242-244 | a zero-length receiver interval that touches something in `other` leaves nothing |
| SetMinus.MinusOfSelfIsEmpty | rekall/interval_set_3d.py:184-280 | a set of well-formed intervals minus itself is empty |
| SetMinus.MinusOutputsFromReceiver | rekall/interval_set_3d.py:184-280 | every output is a copy of, or a piece of, some receiver interval that overlaps nothing in `other` |
| IntervalListModel.MinusAsWrittenCases | rekall/interval_list.py:29-55 | `Interval.minus` as written fails exactly on the starts/finishes cases (shared start or shared end with different lengths); every other case returns a list |
| IntervalListModel.MinusAsWrittenFailsOnSharedStart | rekall/interval_list.py:29-55 | the concrete pair [0,5], [0,10] makes the code as written fall through to its failure |
| IntervalListModel.MinusAgreesWhereDefined | rekall/interval_list.py:29-55 | wherever the code as written returns, it returns the corrected difference `Minus` |
| IntervalListModel.MinusAvoidsOther | rekall/interval_list.py:29-55 | no piece of the difference overlaps an `other` of positive length |
| IntervalListModel.MinusIsDifference | rekall/interval_list.py:29-55 | every piece lies inside `a`, none enters the interior of `b`, and every time of `a` outside the interior of `b` lies in a piece |
| IntervalListModel.Overlap | rekall/interval_list.py:57-80 | nothing exactly when the two do not overlap; otherwise [max start, min end] with the producer's payload |
| IntervalListModel.Merge | rekall/interval_list.py:82-88 | the result starts at the smaller start and ends at the larger end, so it holds both, and carries the producer's payload |
| IntervalListModel.Make | rekall/interval_list.py:105-108 | the constructed list is sorted by (start, end, payload), is a permutation of its argument and has its length |
| IntervalListModel.MakeMembers | rekall/interval_list.py:105-108 | construction keeps exactly the given intervals |
| IntervalListModel.MakeSorted | rekall/interval_list.py:105-108 | constructing from an already sorted list keeps it unchanged |
| IntervalListModel.GetTotalTime | rekall/interval_list.py:124-129 | the loop computes the sum of the lengths of the intervals |
| IntervalListModel.TotalTimeSorted | rekall/interval_list.py:105-108 | sorting does not change the total time |
| IntervalListModel.Coalesce | rekall/interval_list.py:132-164 | the two loops of `coalesce` compute `CoalesceOf`, the pass over the sorted list followed by the open interval of each bucket |
| IntervalListModel.CoalesceOutputSize | rekall/interval_list.py:132-164 | `coalesce` makes no more intervals than it is given |
| IntervalListModel.CoalesceOutputCovers | rekall/interval_list.py:132-164 | every input interval lies inside an output of its bucket |
| IntervalListModel.CoalesceOutputGaps | rekall/interval_list.py:132-164 | two outputs of one bucket are separated by a strict gap: intervals that overlap or touch have merged |
| IntervalListModel.CoalesceOutputFromInputs | rekall/interval_list.py:132-164 | every time of an output lies in an input of its bucket: coalescing adds no time |
| IntervalListModel.CoalesceLaws | rekall/interval_list.py:132-164 | on a sorted list: the empty list is returned as is; otherwise no more intervals, every input inside an output of its bucket, no time added, and strict gaps between the outputs of one bucket |
| IntervalListModel.Dilate | rekall/interval_list.py:166-173 | `dilate(window)` keeps the size and yields exactly the intervals widened by `window` on both sides |
| IntervalListModel.DilateKeepsKeyOrder | rekall/interval_list.py:166-173 | widening two intervals by the same window keeps their order by (start, end, payload) |
| IntervalListModel.DilateInPlace | rekall/interval_list.py:166-173 | on a sorted list, dilation widens each interval in its place: no reordering |
| IntervalListModel.DilateTotalTime | rekall/interval_list.py:166-173 | dilating adds twice the window per interval to the total time |
| IntervalListModel.MapTotalTime | rekall/interval_list.py:166-173 | widening every interval of a sequence adds twice the window per interval to its total time |
| IntervalListModel.Filter | rekall/interval_list.py:175-180 | `filter(fn)` yields a permutation of the intervals that pass `fn` |
| IntervalListModel.FilterKeepsOrder | rekall/interval_list.py:175-180 | on a sorted list the filtered list is exactly the passing intervals in their order |
| IntervalListModel.FilterMembers | rekall/interval_list.py:175-180 | an interval is in the filtered list exactly when it is in the list and passes `fn` |
| IntervalListModel.FilterLengthMembers | rekall/interval_list.py:182-192 | `filter_length` keeps exactly the intervals at least `min_length` long and, unless the bound is INFTY, at most `max_length` long |
| IntervalListModel.SetUnion | rekall/interval_list.py:194-197 | the union holds both lists with duplicates kept: its size is the sum and its multiset the sum of multisets |
| IntervalListModel.UnionTotalTime | rekall/interval_list.py:194-197 | the total time of a union is the sum of the total times |
| IntervalListModel.HasPartnerMeaning | rekall/interval_list.py:200-212 | the early-exit scan of `filter_against` answers true exactly when some interval of `other` satisfies the predicate with `x` |
| IntervalListModel.FilterAgainstMembers | rekall/interval_list.py:200-212 | `filter_against` keeps exactly the intervals with some partner in `other` that satisfies the predicate |
| IntervalListModel.OverlapCellMeaning | rekall/interval_list.py:340-352 | for one pair, `overlaps` yields the intersection exactly when the pair overlaps and satisfies the predicate |
| IntervalListModel.ListOverlapsMembers | rekall/interval_list.py:340-352 | every interval of `overlaps` is the intersection of a pair that overlaps and satisfies the predicate, and every such intersection is in it |
| IntervalListModel.MergeCellMeaning | rekall/interval_list.py:354-365 | for one pair, `merge` yields the hull exactly when the pair satisfies the predicate |
| IntervalListModel.ListMergeMembers | rekall/interval_list.py:354-365 | every interval of `merge` is the hull of a pair that satisfies the predicate, and every such hull is in it |
| IntervalListModel.Map | rekall/interval_list.py:368-374 | `map(map_fn)` keeps the size and yields exactly the mapped intervals, re-sorted |
| IntervalListModel.JoinIsFilteredCross | rekall/interval_list.py:376-387 | the join is the predicate-filtered cross product: its size is the total length of `merge_op`'s lists over accepted pairs, and an interval is in it exactly when `merge_op` yields it for an accepted pair |
| IntervalListModel.FoldComputesTotalTime | rekall/interval_list.py:389-395 | folding with "add the length" from 0 computes the total time |
| IntervalListModel.FoldListRebuilds | rekall/interval_list.py:397-402 | `fold_list` with "append" from the empty list gives back the list |
| IntervalListModel.FoldAppendRebuilds | rekall/interval_list.py:389-395 | folding a sequence with "append" from the empty list rebuilds it |
| IntervalListMinus.PartnerUpToMeaning | rekall/interval_list.py:257-260 | the `found_overlap` flag after `n` partners is set exactly when one of them overlaps `a` and satisfies the predicate |
| IntervalListMinus.RowFailsUpToMeaning | rekall/interval_list.py:258-261 | a row fails exactly when one of its partner pairs makes `Interval.minus` fail |
| IntervalListMinus.FailsUpToMeaning | rekall/interval_list.py:256-261 | the receiver fails exactly when some partner pair of some row makes `Interval.minus` fail |
| IntervalListMinus.LonelyRowIsEmpty | rekall/interval_list.py:258-263 | a row without partners adds nothing through its pairs |
| IntervalListMinus.FailureSpreads | rekall/interval_list.py:256-261 | a failure in one row is a failure of the whole call |
| IntervalListMinus.RowFailureSpreads | rekall/interval_list.py:258-261 | a failing pair is a failure of its row |
| IntervalListMinus.MinusRow | rekall/interval_list.py:257-265 | the inner loop fails exactly when a partner pair fails; otherwise it returns the pieces of every partner pair, or a copy of `a` when it has none |
| IntervalListMinus.MinusEach | rekall/interval_list.py:254-266 | `minus(recursive_diff=False)` fails exactly when some partner pair fails; otherwise it returns, sorted, the rows of every interval of the receiver |
| IntervalListMinus.MinusEachFails | rekall/interval_list.py:254-266 | the pair-by-pair difference fails exactly when some partner pair shares exactly one endpoint with different lengths |
| IntervalListMinus.RowMembers | rekall/interval_list.py:257-265 | an interval is in a row exactly when it is `a` without partners or a piece of `a` minus one of its partners |
| IntervalListMinus.MinusEachMembers | rekall/interval_list.py:254-266 | the intervals of the pair-by-pair difference are exactly the receiver's intervals without partners and the pieces of every partner pair |
| IntervalListMinus.CollectOverlapping | rekall/interval_list.py:272-280 | the loop collects `overlapping` as the scan of `other` that skips `a` itself and stops at the first interval after `a` |
| IntervalListMinus.OverlappingIsPartners | rekall/interval_list.py:272-280 | on a sorted `other`, `overlapping` holds exactly the partners of `a` that are not `a` itself and start before `a` ends: the early stop loses none |
| IntervalListMinus.ScanFromSound | rekall/interval_list.py:272-280 | everything the scan collects is a collectable interval of `other` |
| IntervalListMinus.ScanFromComplete | rekall/interval_list.py:272-280 | on a sorted `other`, every collectable interval is collected |
| IntervalListMinus.ScanFromAscending | rekall/interval_list.py:272-280 | the collected partners keep the ascending starts of `other` |
| IntervalListMinus.InsertPoint | rekall/interval_list.py:287-292 | adding a point to a sorted enumeration keeps it strictly increasing and adds exactly that point |
| IntervalListMinus.SortedEnumerationUnique | rekall/interval_list.py:293 | two strictly increasing sequences with the same elements are equal, so `sorted(list(s))` is determined by the set |
| IntervalListMinus.EndpointListEnumerates | rekall/interval_list.py:287-293 | the cut-point list holds exactly the points of `endpoints_set` |
| IntervalListMinus.Endpoints | rekall/interval_list.py:287-293 | the loop computes the sorted enumeration of `a`'s ends and the partner ends strictly inside `a` |
| IntervalListMinus.EndpointsWithin | rekall/interval_list.py:287-293 | with well-formed overlapping partners, every cut point lies within `a` |
| IntervalListMinus.StartValid | rekall/interval_list.py:302-308 | the scan accepts `start` exactly when no partner starting at or before it strictly straddles it |
| IntervalListMinus.EndValid | rekall/interval_list.py:315-321 | the scan accepts the run exactly when no partner met before the early stop overlaps it |
| IntervalListMinus.EndClearMeaning | rekall/interval_list.py:315-321 | on partners sorted by start, an accepted run overlaps no partner at all: the early stop loses nothing |
| IntervalListMinus.ExtendRun | rekall/interval_list.py:311-324 | the descending `j` loop emits the accepted runs from `start` and moves `last_j` to the last of them |
| IntervalListMinus.LongestRuns | rekall/interval_list.py:295-324 | the nested loops compute the runs between cut points that the two scans accept, skipping starts up to `last_j` |
| IntervalListMinus.RunsFromAreRuns | rekall/interval_list.py:295-324 | every emitted run goes from a cut point to a later one and overlaps no partner |
| IntervalListMinus.LabelRuns | rekall/interval_list.py:328-335 | the last loop emits each run labelled by the producer with its first partner touching it, and drops a run no partner touches |
| IntervalListMinus.FirstTouchingTouches | rekall/interval_list.py:331-335 | the partner found ends where the run starts or starts where it ends |
| IntervalListMinus.LabelledWithoutPartners | rekall/interval_list.py:282-335 | with no partners, labelling emits nothing, so an interval without partners appears once, as its copy |
| IntervalListMinus.MinusCutRow | rekall/interval_list.py:269-335 | the body of the outer loop emits what one interval of the receiver becomes |
| IntervalListMinus.MinusCut | rekall/interval_list.py:267-337 | `minus(recursive_diff=True)` returns, sorted, the rows of every interval of the receiver |
| IntervalListMinus.CutAgainstPieces | rekall/interval_list.py:287-335 | against its partners, each piece of `a` has positive length, lies inside `a`, overlaps no partner, and is labelled by the producer with a partner touching it |
| IntervalListMinus.CutRowPieces | rekall/interval_list.py:269-335 | an interval without partners is copied; otherwise each piece lies inside it, has positive length, overlaps no partner and carries the producer's payload of a touching partner |
| IntervalListMinus.MinusCutMembers | rekall/interval_list.py:267-337 | the recursive difference is exactly the union of what each interval of the receiver becomes |
| IntervalListMinusFacts.CutPointsSpan | rekall/interval_list.py:287-293 | the sorted cut points run from `a`'s start to its end |
| IntervalListMinusFacts.NoTwoClearSteps | rekall/interval_list.py:311-324 | two consecutive steps between cut points are never both accepted, so a run is a single step |
| IntervalListMinusFacts.RunsComplete | rekall/interval_list.py:295-324 | a time of `a` that no partner holds lies in a step between consecutive cut points that no partner overlaps, and the run loops emit that step |
| IntervalListMinusFacts.FreeStepTouches | rekall/interval_list.py:328-335 | a step no partner overlaps is touched at one of its ends by a partner, so labelling keeps it |
| IntervalListMinusFacts.CutAgainstComplete | rekall/interval_list.py:287-335 | against partners of positive length, every time of `a` that no partner holds lies in a piece |
| IntervalListMinusFacts.HolderCollected | rekall/interval_list.py:272-280 | a partner holding a time of `a` is one `overlapping` collects |
| IntervalListMinusFacts.CutRowIsDifference | rekall/interval_list.py:214-253 | when every partner holds some time, a time of `a` lies in a piece exactly when no partner holds it: the difference the docstring describes |
| IntervalListMinusFacts.PointPartnerSwallows | rekall/interval_list.py:311-324 | as written, [0, 10] cut against the single partner [5, 5] yields no piece at all |
| IntervalListMinusFacts.PointCutPoints | rekall/interval_list.py:287-293 | the cut points of [0, 10] against [5, 5] are 0, 5, 10 |
| IntervalListMinusFacts.PointRuns | rekall/interval_list.py:311-324 | neither step of [0, 10] is accepted against [5, 5] |
| IntervalListMinusFacts.FilteredPartners | rekall/interval_list.py:272-280 | setting aside the partners of length zero keeps the partner properties and leaves only partners that hold time |
| IntervalListMinusFacts.CutRowIntendedIsDifference | rekall/interval_list.py:214-253 | with partners of length zero set aside, a time of `a` lies in a piece exactly when no partner holds it |
| IntervalList3DModel.SortKey | rekall/interval_list_3d.py:16-17 | the sort key is the six bounds, time first |
| IntervalList3DModel.SortKeyIdentifiesBounds | rekall/interval_list_3d.py:16-17 | two boxes have the same sort key exactly when they have the same bounds; the payload is not part of it |
| IntervalList3DModel.Merge | rekall/interval_list_3d.py:32-41 | the merge spans both boxes and carries the merged payload |
| IntervalList3DModel.MergeIsSmallest | rekall/interval_list_3d.py:32-41 | every box spanning both spans their merge, and merging is commutative up to the payload |
| IntervalList3DModel.ExpandToFrame | rekall/interval_list_3d.py:119-120 | the expanded box keeps time and payload and fills the unit frame in space |
| IntervalList3DModel.Adapt | rekall/interval_list_3d.py:50-84 | the adapters exist for arity 1 and 2 only; any other arity raises NotImplementedError |
| IntervalList3DModel.AdaptMeaning | rekall/interval_list_3d.py:50-101 | `pred1` calls the predicate on the projection of its box, `pred2` on the projections of both, in order |
| IntervalList3DModel.AdaptersReadTheirAxes | rekall/interval_list_3d.py:50-108 | `T`, `X`, `Y` read only their axis and the payload, `XY` and `XY_list` only the bounding-box dict: boxes that agree there get the same answer |
| IntervalList3DModel.Touch3DIsAdapted | rekall/interval_list_3d.py:114-117 | `overlaps_or_meets_3D` is the conjunction of the `T`, `X` and `Y` adapters of `overlaps_or_meets` |
| IntervalList3DModel.OverlapsOrMeetsIsSharing | rekall/interval_list_3d.py:111-112 | on well-formed intervals, overlapping or meeting before or after is sharing at least one point |
| IntervalList3DModel.Touch3DIsSharing | rekall/interval_list_3d.py:114-117 | well-formed boxes touch exactly when their closed extents share a point on every axis |
| IntervalList3DModel.MaxEnd | rekall/interval_list_3d.py:131 | the result bounds every end time and is one of them |
| IntervalList3DModel.WorkingWindowCovers | rekall/interval_list_3d.py:130-137 | the window of a sorted list of well-formed boxes is never negative, and with at most 1000 boxes it reaches from every start back to every end |
| IntervalList3DModel.Make | rekall/interval_list_3d.py:124-137 | the constructed list is sorted by the sort key, a permutation of its argument, with window 0 when it is empty |
| IntervalList3DModel.MakeElements | rekall/interval_list_3d.py:124-129 | the constructor keeps exactly the boxes it is given |
| IntervalList3DModel.MakeSorted | rekall/interval_list_3d.py:127-129 | constructing from a sorted list keeps its order |
| IntervalList3DModel.MakeOfValid | rekall/interval_list_3d.py:125-126 | constructing from an `IntervalList3D` gives back the same list |
| IntervalList3DModel.ConstructorExample | rekall/interval_list_3d.py:124-137 | the constructor reorders an unsorted input and measures the window from the first start to the latest end |
| IntervalList3DModel.SortsTwo | rekall/interval_list_3d.py:127-129 | two boxes given in the wrong order come out swapped |
| IntervalList3DModel.Map | rekall/interval_list_3d.py:142-143 | `map` yields a sorted permutation of the mapped boxes |
| IntervalList3DModel.MapPayloadKeepsBounds | rekall/interval_list_3d.py:213-218 | `experimental_map_payload` keeps the number of boxes, each box's bounds and position and the window, and maps each payload |
| IntervalList3DModel.PayloadsMapped | rekall/interval_list_3d.py:213-218 | replacing the payloads leaves every bound in place |
| IntervalList3DModel.SameKeysSorted | rekall/interval_list_3d.py:127-129 | boxes with the same keys, position by position, are sorted together |
| IntervalList3DModel.WorkingWindowOfTimes | rekall/interval_list_3d.py:130-137 | the window depends only on the time bounds |
| IntervalList3DModel.MaxEndKeys | rekall/interval_list_3d.py:131 | boxes with the same end times, position by position, have the same latest end |
| IntervalList3DModel.Filter | rekall/interval_list_3d.py:268-273 | the filtered list is a well-formed list |
| IntervalList3DModel.FilterKeepsExactly | rekall/interval_list_3d.py:268-273 | on a list, `filter` keeps exactly the accepted boxes, in their order |
| IntervalList3DModel.SetUnion | rekall/interval_list_3d.py:275-278 | the union is sorted and holds both lists with duplicates kept |
| List3DSweep.FirstQualifying | rekall/interval_list_3d.py:159-165 | `new_start_index`, when set, is the offset of a box that starts after the current box or ends within its window |
| List3DSweep.FirstQualifyingMeaning | rekall/interval_list_3d.py:159-165 | no box the scan passed before the one it settled on qualifies |
| List3DSweep.FirstQualifyingNext | rekall/interval_list_3d.py:159-165 | scanning one more box settles on it exactly when none before it qualified and it does |
| List3DSweep.NextStart | rekall/interval_list_3d.py:172-173 | the start index only moves forward, and by no more than the boxes scanned |
| List3DSweep.NextStartSkipsEarly | rekall/interval_list_3d.py:159-173 | the start index only moves past boxes that end before the current box's window opens |
| List3DSweep.EndsBeforeLater | rekall/interval_list_3d.py:158-173 | a box that ends before the window of one box opens also ends before the window of every box starting later |
| List3DSweep.EarlyDoesNotOverlap | rekall/interval_list_3d.py:159-165 | with a window of at least zero, a box that ends before the window opens does not overlap the current box in time |
| List3DJoin.Reach | rekall/interval_list_3d.py:166-167 | the inner loop breaks at the first box that starts after the current box's window closes, or runs to the end |
| List3DJoin.ReachMeaning | rekall/interval_list_3d.py:166-167 | every box before the break starts no later than the window closes |
| List3DJoin.WindowAt | rekall/interval_list_3d.py:157-173 | the boxes scanned for receiver box `i` run from its start index up to its break |
| List3DJoin.JoinRow | rekall/interval_list_3d.py:159-173 | the inner loop appends the merges of the accepted pairs in its window, evaluates the predicate on exactly the pairs in it, and reports the first qualifying offset |
| List3DJoin.AppendMerged | rekall/interval_list_3d.py:168-171 | the merges of a pair are appended when the predicate holds on it, and nothing otherwise |
| List3DJoin.JoinSweep | rekall/interval_list_3d.py:156-173 | the two loops produce the rows of every receiver box over its window, and evaluate the predicate on exactly those pairs |
| List3DJoin.SweepStep | rekall/interval_list_3d.py:158-173 | one round of the outer loop extends the output and the evaluations by the next receiver box's row and moves the start index on |
| List3DJoin.Join | rekall/interval_list_3d.py:146-174 | `join` returns the sorted rows over the windows, with the receiver's window unless one is given |
| List3DJoin.SpanRowMembers | rekall/interval_list_3d.py:160-171 | a row holds exactly what the merges of its scanned pairs hold |
| List3DJoin.RowsMembers | rekall/interval_list_3d.py:158-173 | the rows hold exactly what the merges of the pairs within the windows hold |
| List3DJoin.StartBeforeEndsBefore | rekall/interval_list_3d.py:157-173 | on a receiver sorted by start, every box the start index has passed ends before the current box's window opens |
| List3DJoin.JoinEvaluatesWindow | rekall/interval_list_3d.py:146-174 | on sorted lists, the predicate is evaluated on every pair whose boxes lie within the window of each other: the sweep loses no candidate pair |
| List3DJoin.JoinEvaluatesOnlyReachable | rekall/interval_list_3d.py:166-167 | no pair whose box of `other` starts after the receiver box's window closes is evaluated |
| List3DJoin.JoinEvaluations | rekall/interval_list_3d.py:156-173 | the evaluated pairs are exactly the pairs of receiver box and box within its scanned window |
| List3DJoin.JoinOutputs | rekall/interval_list_3d.py:146-174 | an output box comes from a merge of an evaluated pair on which the predicate holds, and every such merge is in the output |
| List3DJoin.JoinOfEmpty | rekall/interval_list_3d.py:146-174 | an empty receiver or an empty `other` gives an empty list |
| List3DJoin.Stamp | rekall/interval_list_3d.py:192-195 | one box per generated bound tuple, each with those bounds and the generated payload |
| List3DJoin.ExperimentalJoin | rekall/interval_list_3d.py:176-196 | `experimental_join` is `join` with the merge that stamps the generated bounds with the generated payload |
| List3DJoin.ExperimentalJoinOutputs | rekall/interval_list_3d.py:176-196 | an output box has a generated bound tuple and the generated payload of an evaluated pair on which the predicate holds, and every such box is in the output |
| List3DJoin.StampMembers | rekall/interval_list_3d.py:192-195 | a stamped box is one of the given bounds with the given payload |
| List3DJoin.DefaultExperimentalJoin | rekall/interval_list_3d.py:177-178 | with the default generators, the output is the receiver's box with payload (its payload, the other box) for each evaluated accepted pair |
| List3DGroup.BoundsKeysMeaning | rekall/interval_list_3d.py:204-210 | the keys are distinct, each comes from some box, and every box's bounds are among them |
| List3DGroup.PayloadsAtStep | rekall/interval_list_3d.py:205-210 | one more box adds its payload to the list of its own bounds and to no other |
| List3DGroup.PayloadsAtUnseen | rekall/interval_list_3d.py:205-210 | bounds not yet seen have no payloads |
| List3DGroup.FileByBounds | rekall/interval_list_3d.py:204-210 | the loop files each payload under its box's bounds, keeping the keys in the order they first appear and the payloads in list order |
| List3DGroup.GroupByInterval | rekall/interval_list_3d.py:198-211 | `experimental_group_by_interval` builds the sorted list of one collapsed box per key |
| List3DGroup.CollapsedMembers | rekall/interval_list_3d.py:211 | every output is the collapsed box of one of the keys, and every key's box is an output |
| List3DGroup.GroupByIntervalMeaning | rekall/interval_list_3d.py:198-211 | one box per distinct bounds: every input's bounds appear, no two outputs share bounds, and each output's payload is the non-empty list of the payloads of the inputs with its bounds, in order |
| List3DGroup.PayloadsAtSeen | rekall/interval_list_3d.py:207-210 | the bounds of a box of the list have a non-empty list of payloads |
| List3DCoalesce.FirstMatch | rekall/interval_list_3d.py:247-251 | the match found is an open box that touches the box in 3D and satisfies the predicate |
| List3DCoalesce.FirstMatchMeaning | rekall/interval_list_3d.py:247-251 | no open box before the one found matches |
| List3DCoalesce.Absorb | rekall/interval_list_3d.py:255-261 | absorbing keeps the open box within the result, keeps its start, merges the payloads, and contains the absorbed box when that starts no earlier |
| List3DCoalesce.AbsorbIsMerge | rekall/interval_list_3d.py:32-41 | absorbing into a box that starts no later is `Interval3D.merge` |
| List3DCoalesce.Coalesce | rekall/interval_list_3d.py:220-266 | `coalesce` returns `CoalesceOf` and leaves the receiver's boxes as the written-through aliases make them; the doc comment's merge-all promise is not kept (`List3DCoalesceClosure.SinglePassLeavesTouching`) |
| List3DCoalesce.CoalesceLoop | rekall/interval_list_3d.py:233-264 | the loops compute the sweep and the aliases of every held box after all rounds |
| List3DCoalesce.CoalesceRound | rekall/interval_list_3d.py:234-261 | one round flushes the ended open boxes, then opens, appends or absorbs the box, carrying the aliases along |
| List3DCoalesce.Flush | rekall/interval_list_3d.py:234-242 | the open boxes ending before the start move to the new list in order, with their aliases, and the rest stay open |
| List3DCoalesce.FindMatch | rekall/interval_list_3d.py:247-251 | the loop finds the first open box that touches the box and satisfies the predicate |
| List3DCoalesceFacts.FlushSplits | rekall/interval_list_3d.py:234-242 | the flush sends each open box exactly one way |
| List3DCoalesceFacts.PrefixSize | rekall/interval_list_3d.py:233-261 | after `n` rounds at most `n` boxes are held, and at least one is open once a round has run |
| List3DCoalesceFacts.CoalesceSize | rekall/interval_list_3d.py:229-266 | coalescing never adds boxes, empties only the empty list, and returns the empty list itself |
| List3DCoalesceFacts.StepKeepsCover | rekall/interval_list_3d.py:234-261 | a box held before a round is spanned by one held after it |
| List3DCoalesceFacts.StepCoversBox | rekall/interval_list_3d.py:243-261 | the box of a round is spanned after it, when no open box starts after it |
| List3DCoalesceFacts.PrefixCovers | rekall/interval_list_3d.py:233-261 | on boxes sorted by start, every box visited is spanned by a held box |
| List3DCoalesceFacts.CoalesceCovers | rekall/interval_list_3d.py:220-266 | every box of a list lies within a box of its coalesced list |
| List3DCoalesceFacts.AbsorbTimesFrom | rekall/interval_list_3d.py:255-261 | absorbing a box that starts no later than the open box ends spans only times the two span |
| List3DCoalesceFacts.StepAddsNoTime | rekall/interval_list_3d.py:234-261 | a round keeps every held box within the times the visited boxes span |
| List3DCoalesceFacts.PrefixAddsNoTime | rekall/interval_list_3d.py:233-261 | after `n` rounds every held box spans only times that the first `n` boxes span |
| List3DCoalesceFacts.SpannedBy | rekall/interval_list_3d.py:263-266 | every time of such a box lies in some box of the list |
| List3DCoalesceFacts.CoalesceAddsNoTime | rekall/interval_list_3d.py:220-266 | coalescing adds no time: every time a box of the new list spans, some box of the receiver spans |
| List3DCoalesceFacts.AliasPrefixCopies | rekall/interval_list_3d.py:244 | when every appended box is a copy, no held box aliases the receiver |
| List3DCoalesceFacts.WrittenCopies | rekall/interval_list_3d.py:256-261 | writing back boxes none of which aliases the receiver leaves it as it was |
| List3DCoalesceFacts.CopyingKeepsReceiver | rekall/interval_list_3d.py:244-253 | with the box of line 253 copied as at line 244, `coalesce` leaves the receiver's boxes unchanged |
| List3DCoalesceFacts.ExampleRound2 | rekall/interval_list_3d.py:247-253 | on the example, the second round keeps the first box open, finds no match and appends the receiver's second box itself |
| List3DCoalesceFacts.ExampleRound3 | rekall/interval_list_3d.py:255-261 | the third round absorbs the third box into the second |
| List3DCoalesceFacts.AsWrittenRewritesReceiver | rekall/interval_list_3d.py:253-261 | as written, coalescing a well-formed three-box list changes the receiver's second box |
| List3DCoalesceClosure.SinglePassLeavesTouching | rekall/interval_list_3d.py:220-261 | as written, with `true_pred`, coalescing a = t [0, 10] x [0, 0.2], b = t [1, 2] x [0.5, 1], c = t [1.5, 5] x [0.1, 0.6] absorbs c into a and returns a grown a and b, which still touch |
| List3DCoalesceClosure.FindPair | rekall/interval_list_3d.py:222-227 | a pair found is two different boxes that touch in 3D and satisfy the predicate |
| List3DCoalesceClosure.FindPairNone | rekall/interval_list_3d.py:222-227 | when the search finds nothing, no pair of different boxes touches and satisfies the predicate |
| List3DCoalesceClosure.MergePairMembers | rekall/interval_list_3d.py:222-227 | merging a pair keeps every other box, adds their merge and nothing else |
| List3DCoalesceClosure.MergeAll | rekall/interval_list_3d.py:222-227 | merging until done never lengthens the list, is empty only for an empty list, and leaves no two different boxes that touch and satisfy the predicate |
| List3DCoalesceClosure.MergeAllCovers | rekall/interval_list_3d.py:222-227 | every input box lies inside a box of the result |
| List3DCoalesceClosure.MergeAllAddsNoTime | rekall/interval_list_3d.py:222-227 | on well-formed boxes, every time of a result box is a time of some input box |
| List3DCoalesceClosure.CoalesceIntended | rekall/interval_list_3d.py:220-230 | the promised coalesce: the list itself when empty, else a sorted list no longer than the input |
| List3DCoalesceClosure.CoalesceIntendedLaws | rekall/interval_list_3d.py:222-227 | no two different boxes of the promised coalesce touch and satisfy the predicate; every receiver box lies inside one; no time is added |
| List3DCoalesceClosure.IntendedMergesExample | rekall/interval_list_3d.py:222-227 | on the counterexample the promised coalesce leaves one box, t [0, 10] x [0, 1] |
| List3DMinus.Minus | rekall/interval_list_3d.py:280-282 | `minus` raises NotImplementedError whatever it is given |
| List3DMinus.PartnersInNext | rekall/interval_list_3d.py:337-345 | one more scanned box is collected exactly when it overlaps the receiver box in time and satisfies the predicate |
| List3DMinus.FirstTouching | rekall/interval_list_3d.py:402-406 | the partner found is one of the partners and ends where the run starts or starts where it ends |
| List3DMinus.CutRowsNext | rekall/interval_list_3d.py:332-406 | one more receiver box appends its pieces to the output |
| List3DMinus.MinusStartNext | rekall/interval_list_3d.py:336-347 | one more receiver box moves the start index by its scan, as in `join` |
| List3DMinus.CollectPartners | rekall/interval_list_3d.py:335-347 | the scan of `other[start_index:]` collects the partners of the box there, in order, and reports the next start index |
| List3DMinus.LabelRuns | rekall/interval_list_3d.py:399-406 | each run becomes a piece in the receiver box's space labelled by the payload merge with its first touching partner; a run no partner touches is dropped |
| List3DMinus.MinusRow | rekall/interval_list_3d.py:333-406 | the body of the outer loop emits the pieces of the receiver box against its collected partners and moves the start index |
| List3DMinus.MinusSweep | rekall/interval_list_3d.py:330-406 | the outer loop emits the pieces of every receiver box in order |
| List3DMinus.ExperimentalMinus | rekall/interval_list_3d.py:284-408 | `experimental_minus_temporal_only` raises NotImplementedError without `recursive_diff`, and otherwise returns the sorted pieces of every receiver box, with the receiver's window unless one is given |
| List3DMinusFacts.MinusStartEndsBefore | rekall/interval_list_3d.py:330-347 | on a receiver sorted by start, every box behind the start index ends before the current box's window opens |
| List3DMinusFacts.PartnersInSplit | rekall/interval_list_3d.py:337-345 | the partners of a prefix are those before the start index followed by those after it |
| List3DMinusFacts.NoPartnersIn | rekall/interval_list_3d.py:337-345 | a stretch holding no partner contributes none |
| List3DMinusFacts.RowPartnersAreAll | rekall/interval_list_3d.py:330-347 | on a receiver sorted by start, with well-formed boxes and a window of at least zero, the start index skips no partner: each box collects all of its partners in `other` |
| List3DMinusFacts.PartnersInSound | rekall/interval_list_3d.py:337-345 | every collected box is a partner found in the scanned stretch |
| List3DMinusFacts.PartnersInComplete | rekall/interval_list_3d.py:337-345 | every partner in the scanned stretch is collected |
| List3DMinusFacts.PartnersInOrdered | rekall/interval_list_3d.py:337-345 | the collected partners start in ascending order and are well-formed when `other`'s boxes are |
| List3DMinusFacts.CutAgainstCases | rekall/interval_list_3d.py:349-354 | a box without partners is copied, and a box of length zero with partners leaves nothing |
| List3DMinusFacts.PieceIsRun | rekall/interval_list_3d.py:356-406 | a piece is a run between two cut points of the box, in the box's space, labelled by a partner touching one of its ends |
| List3DMinusFacts.CutPointsWithin | rekall/interval_list_3d.py:358-364 | the cut points of a box against partners it overlaps lie within it |
| List3DMinusFacts.ClearRunAvoids | rekall/interval_list_3d.py:383-395 | a run the `end` scan accepts over partners sorted by start overlaps none of them |
| List3DMinusFacts.CutAgainstPieces | rekall/interval_list_3d.py:356-406 | each piece has positive length inside the box in time, keeps its space, overlaps no partner and is labelled by the payload merge with a touching partner |
| List3DMinusFacts.MinusRowAlone | rekall/interval_list_3d.py:349-350 | a receiver box with no partner in `other` is copied as it is |
| List3DMinusFacts.MinusRowPieces | rekall/interval_list_3d.py:332-406 | a well-formed receiver box with a partner in a sorted `other` is cut into pieces of positive length inside it, in its space, that overlap none of its partners |
| List3DMinusComplete.CutAgainstComplete | rekall/interval_list_3d.py:356-406 | against partners holding time, every time of the box that no partner holds lies in a piece |
| List3DMinusComplete.Collected | rekall/interval_list_3d.py:337-345 | the collected partners are exactly the partners found in `other`, sorted by start |
| List3DMinusComplete.MinusRowIsDifference | rekall/interval_list_3d.py:284-323 | when every partner holds some time, a time of the box lies in a piece exactly when no partner holds it: the difference the docstring describes |
| List3DMinusComplete.PointPartnerSwallows | rekall/interval_list_3d.py:383-395 | as written, a box over [0, 10] cut against one partner over [5, 5] yields no piece at all |
| List3DMinusComplete.HolderExcludes | rekall/interval_list_3d.py:356-406 | a partner holding a time keeps it out of every piece |
| List3DMinusComplete.MinusRowIntendedIsDifference | rekall/interval_list_3d.py:284-323 | with partners of length zero set aside, a time of the box lies in a piece exactly when no partner holds it |
| List3DMinusComplete.CutRowsAreAllRows | rekall/interval_list_3d.py:324-408 | on sorted well-formed lists with a window of at least zero, the sweep's output is every receiver box's pieces against all of its partners, box by box |
| List3DMinusComplete.ExperimentalMinusMembers | rekall/interval_list_3d.py:324-408 | the list `experimental_minus_temporal_only` returns holds exactly the pieces of the receiver's boxes |
| List3DMinusComplete.RowInResult | rekall/interval_list_3d.py:324-408 | every piece of a receiver box is in the returned list |
| List3DMinusComplete.ExperimentalMinusIsDifference | rekall/interval_list_3d.py:324-408 | for a receiver box whose partners hold time, its pieces are in the returned list and hold exactly the box's times that no partner holds |
| Runtime.ErrorCollector.constructor | rekall/runtime.py:168 | a fresh collector has no failed arguments, and a progress count of 0 exactly when a progress bar is given |
| Runtime.ErrorCollector.Callback | rekall/runtime.py:169-177 | on success the failed arguments stay as they were and the progress count grows by the task's size; on error the task's arguments are appended and the progress count is untouched |
| Runtime.NumTasks | rekall/runtime.py:181-182 | for a positive chunk size, the number of tasks is the ceiling of total over chunk size; for a negative one it is at most zero |
| Runtime.CreateTasks | rekall/runtime.py:180-188 | a zero chunk size fails with a division by zero and a negative one gives no tasks; otherwise the tasks concatenate to the arguments in order, number the ceiling of length over chunk size, each hold 1 to chunk size elements, and all but the last hold exactly chunk size |
| Runtime.TaskBounds | rekall/runtime.py:184-187 | every task starts inside the arguments, and only the last reaches their end |
| Runtime.DisjointDomainCombiner | rekall/runtime.py:193-205 | a runtime exception exactly when a domain is in both results; otherwise every domain of either result, keeping its own set, the first result's domains first |
| Runtime.AllIntervalsAppend | rekall/runtime.py:197-201 | the intervals under two lists of keys are those under each, concatenated |
| Runtime.CombinedFlattens | rekall/runtime.py:193-201 | combining two results with disjoint domains loses no interval: the combined result flattens to the first result's intervals followed by the second's |
| Dicts.Dict.Set | rekall/domain_interval_collection.py:73-74 | after `d[k] = v` the key `k` holds `v`, the other keys keep their values, a new key goes last and an existing one keeps its place |
| Dicts.Dict.Delete | rekall/domain_interval_collection.py:75-76 | `del d[k]` raises KeyError exactly when `k` is missing; otherwise `k` is gone and the other keys keep their values |
| Dicts.Keep | rekall/domain_interval_collection.py:197-202 | the entries whose value passes, unchanged, and no others |
| Dicts.MapValues | rekall/domain_interval_collection.py:248-250 | the same keys in the same order, each value transformed |
| Dicts.Comprehend | rekall/domain_interval_collection.py:214 | the dict from each listed key to its image |
| Dicts.Merge | rekall/runtime.py:201 | `{**d1, **d2}` holds the keys of both, the second winning on a shared key |
| Dicts.LenCountsKeys | rekall/domain_interval_collection.py:79-80 | `len` counts the keys that have an entry |
| Dicts.SetThenDelete | rekall/domain_interval_collection.py:71-80 | setting a key and reading it gives what was set; deleting it then succeeds and reads the empty default; setting adds one to the length exactly for a new key |
| KeyedSets.EmptySet | rekall/domain_interval_collection.py:72 | the empty set is a valid set with no intervals |
| KeyedSets.RemoveEmpty | rekall/video_interval_collection_3d.py:43-49 | exactly the entries whose set is non-empty, unchanged, in their order |
| KeyedSets.RemoveEmptyIntervalSets | rekall/domain_interval_collection.py:196-202 | the loop copies exactly the non-empty entries |
| KeyedSets.KeepIfNonEmpty | rekall/video_interval_collection_3d.py:46-48 | one round copies the entry exactly when its set is non-empty |
| KeyedSets.LiftUnary | rekall/domain_interval_collection.py:204-218 | a unary wrapper applies the operation to every key's set and keeps exactly the keys whose result is non-empty |
| DomainCollection.DomainIntervalCollection.constructor | rekall/domain_interval_collection.py:54-58 | the collection wraps the given well-formed dict, and is well-formed itself |
| DomainCollection.DomainIntervalCollection.GetItem | rekall/domain_interval_collection.py:71-72 | a present key reads its set; a missing key reads an empty set |
| DomainCollection.DomainIntervalCollection.SetItem | rekall/domain_interval_collection.py:73-74 | the dict is updated by `d[key] = value`, and reading the key gives the value |
| DomainCollection.DomainIntervalCollection.DelItem | rekall/domain_interval_collection.py:75-76 | a missing key raises KeyError and leaves the collection unchanged; otherwise the key is deleted and reads as empty |
| DomainCollection.DomainIntervalCollection.GetFlattenedIntervalSet | rekall/domain_interval_collection.py:178-186 | the flattened set is every domain's intervals in key order, sorted, and its size is the sum of the domains' sizes |
| DomainCollection.AllIntervalsMember | rekall/domain_interval_collection.py:183-185 | an interval is in the concatenation exactly when it is in the set of one of the keys |
| DomainCollection.FlattenedHoldsEveryDomain | rekall/domain_interval_collection.py:178-186 | the flattened set holds every interval of every domain and nothing else |
| DomainCollection.FromIterable | rekall/domain_interval_collection.py:82-104 | the loop builds, for each key in the order first seen, the set of the intervals of its rows |
| DomainCollection.FileRow | rekall/domain_interval_collection.py:96-102 | one row's interval goes to the end of its key's list, a new key going last |
| DomainCollection.GroupSizesAll | rekall/domain_interval_collection.py:92-104 | the groups of all the keys together hold every row once |
| DomainCollection.FromIterableKeys | rekall/domain_interval_collection.py:82-104 | the keys are exactly the keys of the rows, each once |
| DomainCollection.FromIterableGroup | rekall/domain_interval_collection.py:82-104 | the set under a key holds exactly the intervals of the rows with that key |
| DomainCollection.FromIterableSize | rekall/domain_interval_collection.py:82-104 | no row is lost or duplicated: the sets hold as many intervals as there are rows |
| DomainCollection.FromIntervalSet | rekall/domain_interval_collection.py:157-170 | `fold` with the reducer files every interval of the sorted set under its key, and each list becomes a set |
| DomainCollection.FromIntervalSetKeys | rekall/domain_interval_collection.py:157-170 | every interval's key is present, and every key has an interval |
| DomainCollection.FromIntervalSetGroup | rekall/domain_interval_collection.py:157-170 | the set under a key holds exactly the intervals whose key it is |
| DomainCollection.FromIntervalSetSize | rekall/domain_interval_collection.py:157-170 | no interval is lost or duplicated |
| DomainCollection.MapPayload | rekall/domain_interval_collection.py:193 | the mapped set is a sorted permutation of the intervals with their payloads mapped |
| DomainCollection.AddDomainToPayload | rekall/domain_interval_collection.py:188-194 | the same keys in the same order, each set keeping its size |
| DomainCollection.MapPayloadTags | rekall/domain_interval_collection.py:193 | every interval appears with payload `(p, k)` and its bounds, and nothing else appears |
| DomainCollection.AddDomainTagsPayloads | rekall/domain_interval_collection.py:188-194 | under each key `k`, every interval with payload `p` becomes one with payload `(p, k)` and the same bounds, and nothing else appears |
| DomainCollection.UnionKeys | rekall/domain_interval_collection.py:226 | the keys of either dict, each once |
| DomainCollection.LiftBinary | rekall/domain_interval_collection.py:221-239 | a binary wrapper ranges over the keys of either collection, uses an empty set for a missing side, and keeps exactly the keys whose result is non-empty |
| DomainCollection.LiftOutOfSystem | rekall/domain_interval_collection.py:241-251 | an out-of-system wrapper returns a dict with exactly the receiver's keys, each mapped to the operation's result |
| VideoCollection.VideoIntervalCollection3D.constructor | rekall/video_interval_collection_3d.py:36-37 | the collection wraps the given map, which must be a well-formed dict (`Valid()`) |
| VideoCollection.VideoIntervalCollection3D.Unary | rekall/video_interval_collection_3d.py:52-60 | a unary wrapper applies the operation to every video's set and keeps exactly the non-empty results |
| VideoCollection.VideoIntervalCollection3D.Binary | rekall/video_interval_collection_3d.py:63-76 | a binary wrapper keeps exactly the videos both collections have whose result is non-empty, combining the receiver's set, as receiver, with the other's |
| VideoCollection.VideoIntervalCollection3D.OutOfSystem | rekall/video_interval_collection_3d.py:78-87 | an out-of-system wrapper returns exactly the receiver's videos, each mapped to the operation's result |
| VideoCollection.MapEach | rekall/video_interval_collection_3d.py:54-56 | the loop maps every entry, keeping the keys and their order |
| VideoCollection.LiftShared | rekall/video_interval_collection_3d.py:63-76 | the result's keys are the shared keys with a non-empty result, each holding the operation on the receiver's set and the other's |
| VideoCollection.CombineShared | rekall/video_interval_collection_3d.py:68-72 | one round combines the video exactly when `other` has it |
| VideoCollection.SharedComprehension | rekall/video_interval_collection_3d.py:65-75 | the dict the loop builds, with empty results dropped, is the lift over the shared videos |

## Left out

- Worker pools, `Runtime.run` and `get_result_iterator` (`rekall/runtime.py`) are not modelled. They are multiprocessing, pickling, random shuffling and progress bars: parallel dispatch, not what a query computes.
- `IntervalSet3D.match` is not modelled. It hands its constraints to the external `python-constraint` solver, which is not part of this model.
- The Django constructors `from_django_qs` and `django_bbox_default_schema` are not modelled. They read an ORM query set through an accessor that is not part of this model.
- `perf_count` profiling and `tqdm` progress bars are not modelled. They have no effect on results.
- The `__new__` / `MethodType` metaprogramming of the keyed collections is not modelled as such. Each generated wrapper is a higher-order function (`DomainCollection`) or method (`VideoCollection`) taking the wrapped set operation as a parameter.
- Collection methods that the keyed wrappers forward to, but that `IntervalSet3D` does not define (`fold_to_set`, `split` and others), are modelled only through that parameter.
- `__repr__` and the pickling hooks `__getstate__` / `__setstate__` are not modelled.
- Floating-point rounding is not modelled: coordinates are `real`. Coordinates only take part in comparisons, subtraction, addition and min/max.
- Default arguments become explicit parameters. An omitted `time_window`, an omitted `max_length` or an omitted payload producer is passed as `None` / `Infty` / `FirstPayload`.
- `INFTY`, `panic` and the `merge_ops` payload combiners are defined outside the files modelled here. They become the `Infty` case of `MaxDist`, the `Panic` error, and function parameters.
- Python object identity (the `intrvl1 == intrvl2` test of `IntervalList.minus` against itself) cannot be observed on values. It is an explicit `SameObject` parameter naming the pairs that are the same object.
- Runtime.ErrorCollector.Callback: the message printed on error (`print_error`) is dropped. The progress bar is modelled only as the count it has been advanced by.
- IntervalListModel.Make: the constructor's conversion of plain tuples into `Interval` (`Interval(intrvl[0], intrvl[1], intrvl[2])`) is not modelled. The list is given as intervals.
- IntervalListModel.Make: payloads are integers, so that the sort key (start, end, payload) is a total order. Python accepts any payload. It raises a TypeError only when two intervals tie on start and end and their payloads cannot be compared, and that error is not modelled.
- KeyedSets.RemoveEmpty reads `intervalset.empty()` as "holds no interval". `IntervalSet3D` defines no `empty` method, so as written every wrapper that calls `_remove_empty_intervalsets` raises AttributeError once the collection has a key.
- IntervalList3DModel.Make: the constructor's conversion of plain tuples into `Interval3D` (`Interval3D(*intrvl)`) is not modelled. The list is given as boxes.
- List3DCoalesce.Coalesce states what the single pass computes, not the doc comment's promise to merge all touching boxes that satisfy the predicate, because the pass does not keep it (see "## Findings"). The promised behaviour is `List3DCoalesceClosure.CoalesceIntended`.
- DomainCollection.UnionKeys fixes one order for the union of two key sets (the receiver's keys, then the new ones). The source iterates a Python set there, whose order is unspecified.
- DomainCollection.MapPayload has a concrete body (map every payload, keep the bounds and the order). `IntervalSet3D` defines no `map_payload` method, so as written `add_domain_to_payload` raises AttributeError on any collection with a key.
- SetJoin.Join follows the code's non-strict window tests (`t1 - window <= other.t2` and `other.t1 <= t2 + window`). Nothing is left out here: the join's doc comment does not speak of strictness.
- Bounds.FromTuple3D follows the code and accepts two to six values, filling the rest with defaults. The docstring speaks of two or six.
- Runtime.CreateTasks takes an integer chunk size. A fractional chunk size, which Python would accept in `ceil(total/chunksize)`, is not modelled.
- `test/test_video_interval_collection_3d.py` is not a reference for `VideoCollection`. It calls set methods this model does not have, and its union test disagrees with the intersection-only binary wrapper of `rekall/video_interval_collection_3d.py`.

## Findings

| source | as written | input that shows it | evidently intended | confidence | as-written member | corrected member |
|---|---|---|---|---|---|---|
| rekall/interval_set_3d_utils.py:28-40 | the y adapter is also named `X`, so it replaces the x adapter and `X` projects onto y | x = (0, 0.5), y = (0.5, 1) with a predicate "starts at 0": the x adapter says true, the exported `X` says false | a separate `X` on the x axis and `Y` on the y axis | high, not executed | SetUtils.XShadowingExample | SetUtils.AdaptersReadTheirAxes |
| rekallpy/rekall/predicates.py:538-555 | `same_value` indexes the dicts with the undefined name `value_name` | any key and any two boxes: NameError | compare the two values under `key` within epsilon | high, not executed | BBoxPredicates.SameValue | BBoxPredicates.SameValueByKey |
| rekallpy/rekall/predicates.py:557-587 | `inside(b1, b2)` tests that b2 lies within b1, and `contains` is its swap | b1 = [0.25, 0.5]², b2 = [0, 1]²: `inside` is false although b1 lies within b2 | b1 inside b2, as the docstrings say | medium, not executed | BBoxPredicates.InsideIsReversed | BBoxPredicates.InsideAsDocumentedIsSwap |
| rekall/interval_list.py:29-55 | `Interval.minus` reaches `assert False` for overlapping intervals that share exactly one endpoint | [0, 1] minus [0, 2] (same start, shorter) | the remaining part of `self`: here nothing | high, not executed | IntervalListModel.MinusAsWrittenFailsOnSharedStart | IntervalListModel.MinusIsDifference |
| rekall/interval_list.py:214-337 | in the recursive minus, a partner of length zero inside an interval makes the whole interval vanish | [0, 10] minus [5, 5] yields no interval | [0, 10] (a point removes no time) | medium, not executed | IntervalListMinusFacts.PointPartnerSwallows | IntervalListMinusFacts.CutRowIntendedIsDifference |
| rekall/interval_list_3d.py:284-408 | the same in the temporal-only minus of 3D lists | a box over [0, 10] minus one over [5, 5] yields no box | the box over [0, 10] | medium, not executed | List3DMinusComplete.PointPartnerSwallows | List3DMinusComplete.MinusRowIntendedIsDifference |
| rekall/interval_list_3d.py:247-261 | `coalesce` appends the receiver's own box without a copy (line 253) and later widens it in place, so the receiver is rewritten | boxes t [0, 10], t [1, 2], t [1.5, 5] with x ranges that let the last two merge: the receiver's second box becomes t [1, 5] | a new list built from copies, with the receiver unchanged | medium, not executed | List3DCoalesceFacts.AsWrittenRewritesReceiver | List3DCoalesceFacts.CopyingKeepsReceiver |
| rekall/interval_list_3d.py:220-261 | `coalesce` absorbs each box into the first open box it matches and never revisits the grown box, so the doc comment's "merge all overlapping or touching intervals" is not kept | with `true_pred`: a = t [0, 10] x [0, 0.2], b = t [1, 2] x [0.5, 1], c = t [1.5, 5] x [0.1, 0.6] (y = [0, 1] for all): c grows a to x [0, 0.6], which touches b, but the result is [a', b] | merge until no two boxes touch and satisfy the predicate: here one box t [0, 10] x [0, 1] | medium, not executed | List3DCoalesceClosure.SinglePassLeavesTouching | List3DCoalesceClosure.CoalesceIntendedLaws |
| rekall/interval_set_3d.py:69-79 | the constructor sorts the caller's list in place and keeps that very list | a caller's list [late, early] is reordered to [early, late] under the caller | sort a copy, leaving the caller's list as given | low, not executed | IntervalSet3DModel.New | IntervalSet3DModel.Make |
