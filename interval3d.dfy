// `Interval3D` of `rekall/interval_set_3d.py`: bounds on t, x and y with a
// payload, and the combinators that build one interval from two.

module Interval3DOps {
  import opened Common
  import opened BoundOps
  import opened Temporal

  /** t is arbitrary; x and y are fractions of the frame, (0, 1) by default. */
  datatype Interval3D<P> = Interval3D(t: Bound, x: Bound, y: Bound, payload: P)
  {
    function Length(): real
    {
      BoundSize(t)
    }

    function Width(): real
    {
      BoundSize(x)
    }

    function Height(): real
    {
      BoundSize(y)
    }
  }

  const FullFrame: Bound := (0.0, 1.0)

  /** The one-dimensional interval a time predicate sees (what the `T` adapter builds). */
  function TimeProjection<P>(i: Interval3D<P>): (r: Interval<P>)
    ensures r.start == i.t.0 && r.end == i.t.1 && r.payload == i.payload
  {
    Interval(i.t.0, i.t.1, i.payload)
  }

  /** `combine`: one combiner per axis and one for the payloads. */
  function Combine<P>(a: Interval3D<P>, b: Interval3D<P>,
                      tComb: (Bound, Bound) -> Bound, xComb: (Bound, Bound) -> Bound,
                      yComb: (Bound, Bound) -> Bound, payloadMerge: (P, P) -> P): (r: Interval3D<P>)
    ensures r.t == tComb(a.t, b.t) && r.x == xComb(a.x, b.x) && r.y == yComb(a.y, b.y)
    ensures r.payload == payloadMerge(a.payload, b.payload)
  {
    Interval3D(tComb(a.t, b.t), xComb(a.x, b.x), yComb(a.y, b.y), payloadMerge(a.payload, b.payload))
  }

  /** `merge`: the smallest interval spanning both on every axis. */
  function Merge<P>(a: Interval3D<P>, b: Interval3D<P>, payloadMerge: (P, P) -> P): (r: Interval3D<P>)
    ensures Within(a.t, r.t) && Within(b.t, r.t)
    ensures Within(a.x, r.x) && Within(b.x, r.x)
    ensures Within(a.y, r.y) && Within(b.y, r.y)
    ensures forall c: Bound :: Within(a.t, c) && Within(b.t, c) ==> Within(r.t, c)
    ensures forall c: Bound :: Within(a.x, c) && Within(b.x, c) ==> Within(r.x, c)
    ensures forall c: Bound :: Within(a.y, c) && Within(b.y, c) ==> Within(r.y, c)
    ensures r.payload == payloadMerge(a.payload, b.payload)
  {
    Combine(a, b, MergeBound, MergeBound, MergeBound, payloadMerge)
  }

  /**
   * `overlap_time_merge_space`: None when the time ranges do not overlap;
   * otherwise time is their intersection and space is the span of both.
   */
  function OverlapTimeMergeSpace<P>(a: Interval3D<P>, b: Interval3D<P>, payloadMerge: (P, P) -> P): (r: Option<Interval3D<P>>)
    ensures r.None? <==> !Overlaps(TimeProjection(a), TimeProjection(b))
    ensures r.Some? ==> Within(r.value.t, a.t) && Within(r.value.t, b.t)
    ensures r.Some? ==> forall c: Bound :: Within(c, a.t) && Within(c, b.t) ==> Within(c, r.value.t)
    ensures r.Some? ==> r.value.x == MergeBound(a.x, b.x) && r.value.y == MergeBound(a.y, b.y)
    ensures r.Some? ==> r.value.payload == payloadMerge(a.payload, b.payload)
  {
    if Overlaps(TimeProjection(a), TimeProjection(b)) then
      Some(Combine(a, b, OverlapBound, MergeBound, MergeBound, payloadMerge))
    else
      None
  }

  /** `expand_to_frame`: the whole frame in space, same time and payload. */
  function ExpandToFrame<P>(a: Interval3D<P>): (r: Interval3D<P>)
    ensures r.x == FullFrame && r.y == FullFrame
    ensures r.t == a.t && r.payload == a.payload
    ensures r.Width() == 1.0 && r.Height() == 1.0 && r.Length() == a.Length()
  {
    Interval3D(a.t, FullFrame, FullFrame, a.payload)
  }

  /** The time intersection of overlapping well-formed intervals is itself well formed. */
  lemma OverlapTimeNonEmpty<P>(a: Interval3D<P>, b: Interval3D<P>, payloadMerge: (P, P) -> P)
    requires a.t.0 <= a.t.1 && b.t.0 <= b.t.1
    requires Overlaps(TimeProjection(a), TimeProjection(b))
    ensures OverlapTimeMergeSpace(a, b, payloadMerge).value.Length() >= 0.0
  {
  }

  /** Merging is commutative up to the payload, and merging an interval with itself keeps its bounds. */
  lemma MergeLaws<P>(a: Interval3D<P>, b: Interval3D<P>, payloadMerge: (P, P) -> P)
    ensures Merge(a, b, payloadMerge).(payload := a.payload) == Merge(b, a, payloadMerge).(payload := a.payload)
    ensures Merge(a, a, payloadMerge) == a.(payload := payloadMerge(a.payload, a.payload))
  {
  }

  /** Expanding twice is expanding once. */
  lemma ExpandIdempotent<P>(a: Interval3D<P>)
    ensures ExpandToFrame(ExpandToFrame(a)) == ExpandToFrame(a)
  {
  }
}
