// `Interval3D` and `IntervalList3D` of `rekall/interval_list_3d.py`: a box in
// time and space with flat bounds, the axis adapters that lift predicates on
// one-dimensional intervals (or bounding boxes) to boxes, and a list of boxes
// kept sorted by (t1, t2, x1, x2, y1, y2) with a working window computed from
// its extent. The windowed sweeps (`join`, `coalesce`, the temporal difference)
// and the grouping are in their own modules.

module IntervalList3DModel {
  import opened Common
  import opened LexSort
  import opened Temporal
  import BBoxPredicates
  import Seqs

  /** t is arbitrary; x and y are fractions of the frame, (0, 1) by default. */
  datatype Interval3D<P> = Interval3D(t1: real, t2: real, x1: real, x2: real, y1: real, y2: real, payload: P)
  {
    function Length(): real
    {
      t2 - t1
    }

    function Width(): real
    {
      x2 - x1
    }

    function Height(): real
    {
      y2 - y1
    }
  }

  /** `Interval3D(t1, t2, payload=p)`: the whole frame in space. */
  function InFrame<P>(t1: real, t2: real, payload: P): Interval3D<P>
  {
    Interval3D(t1, t2, 0.0, 1.0, 0.0, 1.0, payload)
  }

  /** `b` spans `a` on all three axes. */
  predicate Within<P, Q>(a: Interval3D<P>, b: Interval3D<Q>)
  {
    b.t1 <= a.t1 && a.t2 <= b.t2 && b.x1 <= a.x1 && a.x2 <= b.x2 && b.y1 <= a.y1 && a.y2 <= b.y2
  }

  lemma WithinTransitive<P, Q, R>(a: Interval3D<P>, b: Interval3D<Q>, c: Interval3D<R>)
    requires Within(a, b) && Within(b, c)
    ensures Within(a, c)
  {
  }

  /** `sort_key`: the tuple (t1, t2, x1, x2, y1, y2). */
  function SortKey<P>(i: Interval3D<P>): (k: seq<real>)
    ensures |k| == 6 && k[0] == i.t1
  {
    [i.t1, i.t2, i.x1, i.x2, i.y1, i.y2]
  }

  /** The six bounds as one value: the tuple `sort_key` returns, used as a dict key. */
  type Bounds = (real, real, real, real, real, real)

  function BoundsOf<P>(i: Interval3D<P>): Bounds
  {
    (i.t1, i.t2, i.x1, i.x2, i.y1, i.y2)
  }

  /** `Interval3D(*key, payload=p)`: the box with the bounds of a key. */
  function FromBounds<P>(k: Bounds, payload: P): Interval3D<P>
  {
    Interval3D(k.0, k.1, k.2, k.3, k.4, k.5, payload)
  }

  /**
   * Two boxes have the same sort key exactly when they have the same bounds,
   * and a box rebuilt from its bounds differs from it at most in the payload.
   */
  lemma SortKeyIdentifiesBounds<P>(a: Interval3D<P>, b: Interval3D<P>)
    ensures SortKey(a) == SortKey(b) <==> BoundsOf(a) == BoundsOf(b)
    ensures BoundsOf(a) == BoundsOf(b) <==> a.(payload := b.payload) == b
    ensures FromBounds(BoundsOf(a), b.payload) == a.(payload := b.payload)
  {
    if SortKey(a) == SortKey(b) {
      assert SortKey(a)[1] == SortKey(b)[1];
      assert SortKey(a)[2] == SortKey(b)[2] && SortKey(a)[3] == SortKey(b)[3];
      assert SortKey(a)[4] == SortKey(b)[4] && SortKey(a)[5] == SortKey(b)[5];
    }
  }

  /** `merge(other, payload_merge_op)`: the smallest box spanning both. */
  function Merge<P>(a: Interval3D<P>, b: Interval3D<P>, payloadMerge: (P, P) -> P): (r: Interval3D<P>)
    ensures Within(a, r) && Within(b, r)
    ensures r.payload == payloadMerge(a.payload, b.payload)
  {
    Interval3D(Min(a.t1, b.t1), Max(a.t2, b.t2), Min(a.x1, b.x1), Max(a.x2, b.x2),
               Min(a.y1, b.y1), Max(a.y2, b.y2), payloadMerge(a.payload, b.payload))
  }

  /** No box spanning both is smaller than their merge, and merging is commutative up to the payload. */
  lemma MergeIsSmallest<P, Q>(a: Interval3D<P>, b: Interval3D<P>, payloadMerge: (P, P) -> P, c: Interval3D<Q>)
    ensures Within(a, c) && Within(b, c) ==> Within(Merge(a, b, payloadMerge), c)
    ensures Merge(a, b, payloadMerge).(payload := a.payload) == Merge(b, a, payloadMerge).(payload := a.payload)
  {
  }

  /** `expand_to_frame`: the whole frame in space, same time and payload. */
  function ExpandToFrame<P>(a: Interval3D<P>): (r: Interval3D<P>)
    ensures r.t1 == a.t1 && r.t2 == a.t2 && r.payload == a.payload
    ensures r.Width() == 1.0 && r.Height() == 1.0 && r.Length() == a.Length()
  {
    InFrame(a.t1, a.t2, a.payload)
  }

  // -------------------------------------------------------------------
  // Axis adapters

  /**
   * A Python callable taking intervals (or bounding boxes), seen through the
   * two ways an adapter can call it: with one argument and with two.
   */
  datatype Callable<-A> = Callable(one: A -> bool, two: (A, A) -> bool)

  /** The one-dimensional intervals the adapters build from a box. */
  function TimeOf<P>(i: Interval3D<P>): Interval<P>
  {
    Interval(i.t1, i.t2, i.payload)
  }

  function XOf<P>(i: Interval3D<P>): Interval<P>
  {
    Interval(i.x1, i.x2, i.payload)
  }

  function YOf<P>(i: Interval3D<P>): Interval<P>
  {
    Interval(i.y1, i.y2, i.payload)
  }

  /** `intrvl_to_bbox`: the spatial bounds and the payload. */
  function ToBBox<P>(i: Interval3D<P>): BBoxPredicates.BBox<P>
  {
    BBoxPredicates.BBox(i.x1, i.x2, i.y1, i.y2, i.payload)
  }

  /**
   * The shape shared by `T`, `X`, `Y` and `XY`: arity 1 gives `pred1`, which
   * calls `pred` on the projection of its one box; arity 2 gives `pred2`,
   * which calls it on the projections of both; any other arity raises
   * NotImplementedError.
   */
  function Adapt<A, P>(pred: Callable<A>, proj: Interval3D<P> -> A, arity: int): (r: Result<ArityPred<Interval3D<P>>>)
    ensures r.Ok? <==> arity == 1 || arity == 2
    ensures r.Err? ==> r.error == NotImplemented
    ensures arity == 1 ==> r.value.Unary?
    ensures arity == 2 ==> r.value.Binary?
  {
    if arity == 1 then Ok(Unary((i: Interval3D<P>) => pred.one(proj(i))))
    else if arity == 2 then Ok(Binary((i: Interval3D<P>, j: Interval3D<P>) => pred.two(proj(i), proj(j))))
    else Err(NotImplemented)
  }

  /** `pred1` calls `pred` on the projection of its box; `pred2` on the projections of both, in order. */
  lemma AdaptMeaning<A, P>(pred: Callable<A>, proj: Interval3D<P> -> A, i: Interval3D<P>, j: Interval3D<P>)
    ensures Adapt(pred, proj, 1).value.f(i) == pred.one(proj(i))
    ensures Adapt(pred, proj, 2).value.g(i, j) == pred.two(proj(i), proj(j))
  {
  }

  /** `T(pred, arity)` */
  function T<P>(pred: Callable<Interval<P>>, arity: int): Result<ArityPred<Interval3D<P>>>
  {
    Adapt(pred, TimeOf, arity)
  }

  /** `X(pred, arity)` */
  function X<P>(pred: Callable<Interval<P>>, arity: int): Result<ArityPred<Interval3D<P>>>
  {
    Adapt(pred, XOf, arity)
  }

  /** `Y(pred, arity)` */
  function Y<P>(pred: Callable<Interval<P>>, arity: int): Result<ArityPred<Interval3D<P>>>
  {
    Adapt(pred, YOf, arity)
  }

  /** `XY(pred, arity)` */
  function XY<P>(pred: Callable<BBoxPredicates.BBox<P>>, arity: int): Result<ArityPred<Interval3D<P>>>
  {
    Adapt(pred, ToBBox, arity)
  }

  /** `XY_list(pred)`: a predicate on a list of boxes applied to their bounding boxes. */
  function XYList<P>(pred: seq<BBoxPredicates.BBox<P>> -> bool): seq<Interval3D<P>> -> bool
  {
    s => pred(Seqs.Map(s, ToBBox))
  }

  /**
   * Each adapter reads its own axis and the payload and nothing else: boxes
   * that agree there get the same answer, whatever their other bounds.
   */
  lemma AdaptersReadTheirAxes<P>(predI: Callable<Interval<P>>, predB: Callable<BBoxPredicates.BBox<P>>,
                                 a: Interval3D<P>, b: Interval3D<P>, c: Interval3D<P>, d: Interval3D<P>,
                                 predL: seq<BBoxPredicates.BBox<P>> -> bool, s: seq<Interval3D<P>>, u: seq<Interval3D<P>>)
    ensures a.t1 == c.t1 && a.t2 == c.t2 && a.payload == c.payload && b.t1 == d.t1 && b.t2 == d.t2 && b.payload == d.payload ==>
              T(predI, 1).value.f(a) == T(predI, 1).value.f(c) && T(predI, 2).value.g(a, b) == T(predI, 2).value.g(c, d)
    ensures a.x1 == c.x1 && a.x2 == c.x2 && a.payload == c.payload && b.x1 == d.x1 && b.x2 == d.x2 && b.payload == d.payload ==>
              X(predI, 1).value.f(a) == X(predI, 1).value.f(c) && X(predI, 2).value.g(a, b) == X(predI, 2).value.g(c, d)
    ensures a.y1 == c.y1 && a.y2 == c.y2 && a.payload == c.payload && b.y1 == d.y1 && b.y2 == d.y2 && b.payload == d.payload ==>
              Y(predI, 1).value.f(a) == Y(predI, 1).value.f(c) && Y(predI, 2).value.g(a, b) == Y(predI, 2).value.g(c, d)
    ensures ToBBox(a) == ToBBox(c) && ToBBox(b) == ToBBox(d) ==>
              XY(predB, 1).value.f(a) == XY(predB, 1).value.f(c) && XY(predB, 2).value.g(a, b) == XY(predB, 2).value.g(c, d)
    ensures Seqs.Map(s, ToBBox) == Seqs.Map(u, ToBBox) ==> XYList(predL)(s) == XYList(predL)(u)
  {
    AdaptMeaning(predI, TimeOf, a, b);
    AdaptMeaning(predI, TimeOf, c, d);
    AdaptMeaning(predI, XOf, a, b);
    AdaptMeaning(predI, XOf, c, d);
    AdaptMeaning(predI, YOf, a, b);
    AdaptMeaning(predI, YOf, c, d);
    AdaptMeaning(predB, ToBBox, a, b);
    AdaptMeaning(predB, ToBBox, c, d);
  }

  // -------------------------------------------------------------------
  // Touching boxes

  /** `overlaps_or_meets()`: overlapping, or one ends exactly where the other starts. */
  predicate OverlapsOrMeets<P>(a: Interval<P>, b: Interval<P>)
  {
    Overlaps(a, b) || MeetsBefore(0.0, a, b) || MeetsAfter(0.0, a, b)
  }

  /** `overlaps_or_meets_3D()`: the time, x and y projections all overlap or meet. */
  predicate Touch3D<P>(a: Interval3D<P>, b: Interval3D<P>)
  {
    OverlapsOrMeets(TimeOf(a), TimeOf(b)) && OverlapsOrMeets(XOf(a), XOf(b)) && OverlapsOrMeets(YOf(a), YOf(b))
  }

  /** `overlaps_or_meets_3D()` is built from the `T`, `X` and `Y` adapters with their default arity. */
  lemma Touch3DIsAdapted<P>(one: Interval<P> -> bool, a: Interval3D<P>, b: Interval3D<P>)
    ensures var p := Callable(one, OverlapsOrMeets);
            Touch3D(a, b) == (T(p, 2).value.g(a, b) && X(p, 2).value.g(a, b) && Y(p, 2).value.g(a, b))
  {
  }

  /** On well-formed intervals, overlapping or meeting is sharing at least one point. */
  lemma OverlapsOrMeetsIsSharing<P>(a: Interval<P>, b: Interval<P>)
    requires a.start <= a.end && b.start <= b.end
    ensures OverlapsOrMeets(a, b) <==> a.start <= b.end && b.start <= a.end
  {
  }

  /** A well-formed box: no axis runs backwards. */
  predicate WellFormed<P>(a: Interval3D<P>)
  {
    a.t1 <= a.t2 && a.x1 <= a.x2 && a.y1 <= a.y2
  }

  /** Well-formed boxes touch exactly when their closed extents share a point on every axis. */
  lemma Touch3DIsSharing<P>(a: Interval3D<P>, b: Interval3D<P>)
    requires WellFormed(a) && WellFormed(b)
    ensures Touch3D(a, b) <==> a.t1 <= b.t2 && b.t1 <= a.t2 && a.x1 <= b.x2 && b.x1 <= a.x2 && a.y1 <= b.y2 && b.y1 <= a.y2
  {
    OverlapsOrMeetsIsSharing(TimeOf(a), TimeOf(b));
    OverlapsOrMeetsIsSharing(XOf(a), XOf(b));
    OverlapsOrMeetsIsSharing(YOf(a), YOf(b));
  }

  // -------------------------------------------------------------------
  // The list

  const NumIntervalsThreshold: nat := 1000
  /** `1/100` under Python 3 division. */
  const WindowFraction: real := 0.01

  datatype IntervalList3D<P> = IntervalList3D(intrvls: seq<Interval3D<P>>, workingWindow: real)
  {
    /** Sorted by the sort key, with the window the constructor computes. */
    ghost predicate Valid()
    {
      SortedBy(intrvls, SortKey) && workingWindow == WorkingWindow(intrvls)
    }
  }

  /** The largest end time of the boxes: what the working window is set to. */
  function MaxEnd<P>(s: seq<Interval3D<P>>): (m: real)
    requires |s| > 0
    ensures forall i :: 0 <= i < |s| ==> s[i].t2 <= m
    ensures exists i :: 0 <= i < |s| && s[i].t2 == m
  {
    if |s| == 1 then s[0].t2
    else
      var m := MaxEnd(s[..|s| - 1]);
      assert forall i :: 0 <= i < |s| - 1 ==> s[..|s| - 1][i] == s[i];
      Max(m, s[|s| - 1].t2)
  }

  /**
   * `working_window`: 0 for no intervals; otherwise the distance from the
   * first start to the latest end, a hundredth of it above 1000 intervals.
   */
  function WorkingWindow<P>(s: seq<Interval3D<P>>): real
  {
    if |s| > 0 then
      var span := MaxEnd(s) - s[0].t1;
      if |s| > NumIntervalsThreshold then span * WindowFraction else span
    else 0.0
  }

  /** The start times of `s` never decrease. */
  ghost predicate StartsAscending<P>(s: seq<Interval3D<P>>)
  {
    forall i, j :: 0 <= i <= j < |s| ==> s[i].t1 <= s[j].t1
  }

  lemma SortedStartsAscending<P>(s: seq<Interval3D<P>>)
    requires SortedBy(s, SortKey)
    ensures StartsAscending(s)
  {
    forall i, j | 0 <= i <= j < |s| ensures s[i].t1 <= s[j].t1 {
      SortedFirstComponent(s, SortKey, i, j);
    }
  }

  ghost predicate AllWellFormed<P>(s: seq<Interval3D<P>>)
  {
    forall i :: 0 <= i < |s| ==> s[i].t1 <= s[i].t2
  }

  /**
   * The window of a sorted list of well-formed boxes is never negative, and
   * with at most 1000 boxes it reaches from every start to every end.
   */
  lemma WorkingWindowCovers<P>(s: seq<Interval3D<P>>)
    requires SortedBy(s, SortKey) && AllWellFormed(s)
    ensures WorkingWindow(s) >= 0.0
    ensures |s| <= NumIntervalsThreshold ==>
              forall i, j :: 0 <= i < |s| && 0 <= j < |s| ==> s[i].t1 - WorkingWindow(s) <= s[j].t2
  {
    if |s| > 0 {
      assert s[0].t1 <= s[0].t2 <= MaxEnd(s);
      SortedStartsAscending(s);
    }
  }

  /** `IntervalList3D(intrvls)`: the boxes sorted (stably) by the sort key, and the window. */
  function Make<P>(s: seq<Interval3D<P>>): (r: IntervalList3D<P>)
    ensures r.Valid()
    ensures multiset(r.intrvls) == multiset(s)
    ensures |s| == 0 ==> r.workingWindow == 0.0
  {
    var sorted := SortBy(s, SortKey);
    IntervalList3D(sorted, WorkingWindow(sorted))
  }

  /** The constructor keeps exactly the boxes it is given. */
  lemma MakeElements<P>(s: seq<Interval3D<P>>, x: Interval3D<P>)
    ensures x in Make(s).intrvls <==> x in s
  {
    assert x in Make(s).intrvls <==> x in multiset(Make(s).intrvls);
  }

  /** A sorted list is its own list: constructing from it changes nothing. */
  lemma MakeSorted<P>(s: seq<Interval3D<P>>)
    requires SortedBy(s, SortKey)
    ensures Make(s).intrvls == s
  {
    SortBySorted(s, SortKey);
  }

  /** Constructing from an `IntervalList3D` (the constructor unwraps it) gives back the same list. */
  lemma MakeOfValid<P>(L: IntervalList3D<P>)
    requires L.Valid()
    ensures Make(L.intrvls) == L
  {
    MakeSorted(L.intrvls);
  }

  /** The constructor reorders an unsorted input and measures the window over the whole extent. */
  lemma ConstructorExample()
    ensures var early, late := InFrame(0.0, 5.0, 0), InFrame(2.0, 3.0, 0);
            Make([late, early]) == IntervalList3D([early, late], 5.0)
  {
    var early, late := InFrame(0.0, 5.0, 0), InFrame(2.0, 3.0, 0);
    SortsTwo(late, early);
    assert MaxEnd([early, late]) == 5.0;
  }

  /** Two boxes given in the wrong order come out swapped. */
  lemma SortsTwo<P>(late: Interval3D<P>, early: Interval3D<P>)
    requires !LexLe(SortKey(late), SortKey(early))
    ensures SortBy([late, early], SortKey) == [early, late]
  {
    assert [late, early][1..] == [early];
    assert SortBy([early], SortKey) == Insert(early, [], SortKey) == [early];
    assert Insert(late, [early], SortKey) == [early] + Insert(late, [], SortKey);
  }

  // -------------------------------------------------------------------
  // Operations that build new lists

  /** `map(map_fn)`: every box mapped, then sorted again. */
  function Map<P>(L: IntervalList3D<P>, f: Interval3D<P> -> Interval3D<P>): (r: IntervalList3D<P>)
    ensures r.Valid()
    ensures multiset(r.intrvls) == multiset(Seqs.Map(L.intrvls, f))
  {
    Make(Seqs.Map(L.intrvls, f))
  }

  /** The box with its payload replaced by `func(payload)`. */
  function WithPayload<P>(func: P -> P): Interval3D<P> -> Interval3D<P>
  {
    (i: Interval3D<P>) => i.(payload := func(i.payload))
  }

  /** `experimental_map_payload(func)` */
  function MapPayload<P>(L: IntervalList3D<P>, func: P -> P): IntervalList3D<P>
  {
    Map(L, WithPayload(func))
  }

  /** Mapping the payloads keeps every box, its bounds and its position. */
  lemma MapPayloadKeepsBounds<P>(L: IntervalList3D<P>, func: P -> P)
    requires L.Valid()
    ensures var r := MapPayload(L, func);
            |r.intrvls| == |L.intrvls| &&
            (forall i :: 0 <= i < |L.intrvls| ==>
              SortKey(r.intrvls[i]) == SortKey(L.intrvls[i]) && r.intrvls[i].payload == func(L.intrvls[i].payload)) &&
            r.workingWindow == L.workingWindow
  {
    var s := L.intrvls;
    var m := Seqs.Map(s, WithPayload(func));
    PayloadsMapped(s, func, m);
    SameKeysSorted(s, m);
    MakeSorted(m);
    WorkingWindowOfTimes(s, m);
  }

  /** Replacing the payloads leaves every box's bounds where they were. */
  lemma PayloadsMapped<P>(s: seq<Interval3D<P>>, func: P -> P, m: seq<Interval3D<P>>)
    requires m == Seqs.Map(s, WithPayload(func))
    ensures |m| == |s|
    ensures forall i :: 0 <= i < |m| ==> m[i] == s[i].(payload := func(s[i].payload))
    ensures forall i :: 0 <= i < |m| ==> SortKey(m[i]) == SortKey(s[i]) && m[i].t1 == s[i].t1 && m[i].t2 == s[i].t2
  {
    assert forall i :: 0 <= i < |m| ==> m[i] == s[i].(payload := func(s[i].payload));
  }

  /** Boxes with the same keys, position by position, are sorted together. */
  lemma SameKeysSorted<P>(s: seq<Interval3D<P>>, m: seq<Interval3D<P>>)
    requires |s| == |m| && SortedBy(s, SortKey)
    requires forall i :: 0 <= i < |m| ==> SortKey(m[i]) == SortKey(s[i])
    ensures SortedBy(m, SortKey)
  {
  }

  /** The window depends only on the time bounds. */
  lemma WorkingWindowOfTimes<P>(s: seq<Interval3D<P>>, m: seq<Interval3D<P>>)
    requires |s| == |m|
    requires forall i :: 0 <= i < |s| ==> m[i].t1 == s[i].t1 && m[i].t2 == s[i].t2
    ensures WorkingWindow(m) == WorkingWindow(s)
  {
    if |s| > 0 {
      MaxEndKeys(s, m);
    }
  }

  /** Boxes with the same time bounds, position by position, have the same latest end. */
  lemma {:induction false} MaxEndKeys<P>(s: seq<Interval3D<P>>, m: seq<Interval3D<P>>)
    requires |s| == |m| > 0
    requires forall i :: 0 <= i < |s| ==> m[i].t2 == s[i].t2
    ensures MaxEnd(m) == MaxEnd(s)
  {
    if |s| > 1 {
      MaxEndKeys(s[..|s| - 1], m[..|m| - 1]);
    }
  }

  /** `filter(fn)`: copies of the boxes `fn` accepts. */
  function Filter<P>(L: IntervalList3D<P>, fn: Interval3D<P> -> bool): (r: IntervalList3D<P>)
    ensures r.Valid()
  {
    Make(Seqs.Filter(L.intrvls, fn))
  }

  /** On a list, `filter` keeps exactly the accepted boxes, in their order. */
  lemma FilterKeepsExactly<P>(L: IntervalList3D<P>, fn: Interval3D<P> -> bool)
    requires L.Valid()
    ensures Filter(L, fn).intrvls == Seqs.Filter(L.intrvls, fn)
    ensures forall x :: x in Filter(L, fn).intrvls <==> x in L.intrvls && fn(x)
  {
    FilterSortedBy(L.intrvls, fn, SortKey);
    MakeSorted(Seqs.Filter(L.intrvls, fn));
    Seqs.FilterMembers(L.intrvls, fn);
  }

  /** `set_union(other)`: both lists, duplicates kept, sorted again. */
  function SetUnion<P>(A: IntervalList3D<P>, B: IntervalList3D<P>): (r: IntervalList3D<P>)
    ensures r.Valid()
    ensures |r.intrvls| == |A.intrvls| + |B.intrvls|
    ensures multiset(r.intrvls) == multiset(A.intrvls) + multiset(B.intrvls)
  {
    Make(A.intrvls + B.intrvls)
  }
}
