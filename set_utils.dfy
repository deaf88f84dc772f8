// The sort key and the axis-projection adapters of
// `rekall/interval_set_3d_utils.py`. An adapter turns a predicate over
// one-dimensional intervals (or bounding boxes) into a predicate over
// `Interval3D`s; `*interval_3ds` is a sequence of arguments here.

module SetUtils {
  import opened Temporal
  import opened Interval3DOps
  import BBoxPredicates
  import Seqs

  /** `sort_key_time_x_y`: the tuple (t0, t1, x0, x1, y0, y1). */
  function SortKey<P>(i: Interval3D<P>): (k: seq<real>)
    ensures |k| == 6 && k[0] == i.t.0 && k[1] == i.t.1
  {
    [i.t.0, i.t.1, i.x.0, i.x.1, i.y.0, i.y.1]
  }

  /** Two intervals have the same key exactly when they have the same bounds. */
  lemma SortKeyIdentifiesBounds<P>(a: Interval3D<P>, b: Interval3D<P>)
    ensures SortKey(a) == SortKey(b) <==> a.t == b.t && a.x == b.x && a.y == b.y
  {
    if SortKey(a) == SortKey(b) {
      assert SortKey(a)[2] == SortKey(b)[2] && SortKey(a)[3] == SortKey(b)[3];
      assert SortKey(a)[4] == SortKey(b)[4] && SortKey(a)[5] == SortKey(b)[5];
    }
  }

  function XProjection<P>(i: Interval3D<P>): Interval<P>
  {
    Interval(i.x.0, i.x.1, i.payload)
  }

  function YProjection<P>(i: Interval3D<P>): Interval<P>
  {
    Interval(i.y.0, i.y.1, i.payload)
  }

  /** `T(pred)`: `pred` applied to the time projections of all arguments. */
  function T<P>(pred: seq<Interval<P>> -> bool): seq<Interval3D<P>> -> bool
  {
    args => pred(Seqs.Map(args, TimeProjection))
  }

  /**
   * `X(pred)` as the module leaves it: the second definition named `X`
   * replaces the first, and it projects the y bounds. No adapter reads x.
   */
  function X<P>(pred: seq<Interval<P>> -> bool): seq<Interval3D<P>> -> bool
  {
    args => pred(Seqs.Map(args, YProjection))
  }

  /** The x adapter the first definition intended. */
  function XAxis<P>(pred: seq<Interval<P>> -> bool): seq<Interval3D<P>> -> bool
  {
    args => pred(Seqs.Map(args, XProjection))
  }

  /** The y adapter the second definition intended, under its own name. */
  function YAxis<P>(pred: seq<Interval<P>> -> bool): seq<Interval3D<P>> -> bool
  {
    args => pred(Seqs.Map(args, YProjection))
  }

  /** `_interval_3d_to_bbox`: the spatial bounds and the payload. */
  function ToBBox<P>(i: Interval3D<P>): (b: BBoxPredicates.BBox<P>)
    ensures b.x1 == i.x.0 && b.x2 == i.x.1 && b.y1 == i.y.0 && b.y2 == i.y.1 && b.payload == i.payload
  {
    BBoxPredicates.BBox(i.x.0, i.x.1, i.y.0, i.y.1, i.payload)
  }

  /** `XY(pred)`: a bounding-box predicate applied to the spatial extents. */
  function XY<P>(pred: seq<BBoxPredicates.BBox<P>> -> bool): seq<Interval3D<P>> -> bool
  {
    args => pred(Seqs.Map(args, ToBBox))
  }

  // -------------------------------------------------------------------
  // What each adapter reads

  /** Argument lists that agree, position by position, on the projection `proj`. */
  ghost predicate AgreeOn<P, U>(a: seq<Interval3D<P>>, b: seq<Interval3D<P>>, proj: Interval3D<P> -> U)
  {
    |a| == |b| && forall i :: 0 <= i < |a| ==> proj(a[i]) == proj(b[i])
  }

  lemma MapAgree<P, U>(a: seq<Interval3D<P>>, b: seq<Interval3D<P>>, proj: Interval3D<P> -> U)
    requires AgreeOn(a, b, proj)
    ensures Seqs.Map(a, proj) == Seqs.Map(b, proj)
  {
  }

  /** `T(pred)` reads only time and payload; `XY(pred)` reads only space and payload. */
  lemma AdaptersReadTheirAxes<P>(predT: seq<Interval<P>> -> bool, predB: seq<BBoxPredicates.BBox<P>> -> bool,
                                 a: seq<Interval3D<P>>, b: seq<Interval3D<P>>)
    ensures AgreeOn(a, b, TimeProjection) ==> T(predT)(a) == T(predT)(b)
    ensures AgreeOn(a, b, ToBBox) ==> XY(predB)(a) == XY(predB)(b)
    ensures AgreeOn(a, b, YProjection) ==> X(predT)(a) == X(predT)(b) && YAxis(predT)(a) == YAxis(predT)(b)
    ensures AgreeOn(a, b, XProjection) ==> XAxis(predT)(a) == XAxis(predT)(b)
  {
    if AgreeOn(a, b, TimeProjection) { MapAgree(a, b, TimeProjection); }
    if AgreeOn(a, b, ToBBox) { MapAgree(a, b, ToBBox); }
    if AgreeOn(a, b, YProjection) { MapAgree(a, b, YProjection); }
    if AgreeOn(a, b, XProjection) { MapAgree(a, b, XProjection); }
  }

  /** The surviving `X` is the y adapter: it never reads the x bounds. */
  lemma XIsYAxis<P>(pred: seq<Interval<P>> -> bool, args: seq<Interval3D<P>>)
    ensures X(pred)(args) == YAxis(pred)(args)
  {
  }

  /** A predicate that starts at 0: one interval whose x starts at 0 and whose y does not. */
  predicate StartsAtZero(args: seq<Interval<int>>)
  {
    |args| == 1 && args[0].start == 0.0
  }

  /**
   * The shadowing, on one interval: with x = (0, 0.5) and y = (0.5, 1), the
   * x adapter says its x bound starts at 0, but the exported `X` says it does not.
   */
  lemma XShadowingExample()
    ensures var i := Interval3D((0.0, 1.0), (0.0, 0.5), (0.5, 1.0), 0);
            XAxis(StartsAtZero)([i]) && !X(StartsAtZero)([i])
  {
    var i := Interval3D((0.0, 1.0), (0.0, 0.5), (0.5, 1.0), 0);
    var xs, ys := Seqs.Map([i], XProjection), Seqs.Map([i], YProjection);
    assert xs == [XProjection(i)] && ys == [YProjection(i)];
    assert StartsAtZero(xs) && !StartsAtZero(ys);
    assert XAxis(StartsAtZero)([i]) == StartsAtZero(xs);
    assert X(StartsAtZero)([i]) == StartsAtZero(ys);
  }
}
