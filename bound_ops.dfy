// The bound combinators of `rekall/interval_set_3d_utils.py`: a bound is a
// pair (lo, hi) along one axis.

module BoundOps {
  import opened Common

  type Bound = (real, real)

  /** `merge_bound`: the smallest bound spanning both. */
  function MergeBound(b1: Bound, b2: Bound): (r: Bound)
    ensures r.0 <= b1.0 && r.0 <= b2.0 && (r.0 == b1.0 || r.0 == b2.0)
    ensures r.1 >= b1.1 && r.1 >= b2.1 && (r.1 == b1.1 || r.1 == b2.1)
  {
    (Min(b1.0, b2.0), Max(b1.1, b2.1))
  }

  /** `overlap_bound`: the largest bound inside both. */
  function OverlapBound(b1: Bound, b2: Bound): (r: Bound)
    ensures r.0 >= b1.0 && r.0 >= b2.0 && (r.0 == b1.0 || r.0 == b2.0)
    ensures r.1 <= b1.1 && r.1 <= b2.1 && (r.1 == b1.1 || r.1 == b2.1)
  {
    (Max(b1.0, b2.0), Min(b1.1, b2.1))
  }

  /** `bound_size` */
  function BoundSize(b: Bound): real
  {
    b.1 - b.0
  }

  /** `b1` lies within `b2`. */
  predicate Within(b1: Bound, b2: Bound)
  {
    b2.0 <= b1.0 && b1.1 <= b2.1
  }

  /** The merged bound contains both inputs; merging is commutative, idempotent and associative. */
  lemma MergeBoundLaws(b1: Bound, b2: Bound, b3: Bound)
    ensures Within(b1, MergeBound(b1, b2)) && Within(b2, MergeBound(b1, b2))
    ensures MergeBound(b1, b2) == MergeBound(b2, b1)
    ensures MergeBound(b1, b1) == b1
    ensures MergeBound(MergeBound(b1, b2), b3) == MergeBound(b1, MergeBound(b2, b3))
  {
  }

  /** The merged bound is the least bound containing both. */
  lemma MergeBoundLeast(b1: Bound, b2: Bound, c: Bound)
    requires Within(b1, c) && Within(b2, c)
    ensures Within(MergeBound(b1, b2), c)
  {
  }

  /** The overlap of two bounds lies within each; overlapping is commutative and idempotent. */
  lemma OverlapBoundLaws(b1: Bound, b2: Bound)
    ensures OverlapBound(b1, b2) == OverlapBound(b2, b1)
    ensures OverlapBound(b1, b1) == b1
    ensures BoundSize(OverlapBound(b1, b2)) <= BoundSize(b1) || BoundSize(OverlapBound(b1, b2)) <= BoundSize(b2)
  {
  }

  /** The overlap is the greatest bound inside both. */
  lemma OverlapBoundGreatest(b1: Bound, b2: Bound, c: Bound)
    requires Within(c, b1) && Within(c, b2)
    ensures Within(c, OverlapBound(b1, b2))
  {
  }

  /** A merge never shrinks and an overlap never grows a well-formed bound. */
  lemma BoundSizeMonotone(b1: Bound, b2: Bound)
    requires b1.0 <= b1.1 && b2.0 <= b2.1
    ensures BoundSize(MergeBound(b1, b2)) >= BoundSize(b1)
    ensures BoundSize(OverlapBound(b1, b2)) <= BoundSize(b1)
  {
  }
}
