// The one-dimensional interval of `rekall.interval_list` and the binary
// temporal predicates over it: Allen's interval relations (J. F. Allen,
// "Maintaining Knowledge about Temporal Intervals", 1983) with the library's
// epsilon and minimum/maximum-distance variants.

module Temporal {
  import opened Common

  /** A time range [start, end] carrying a payload. */
  datatype Interval<P> = Interval(start: real, end: real, payload: P)
  {
    function Length(): real
    {
      end - start
    }
  }

  type BinPred<!P> = (Interval<P>, Interval<P>) -> bool

  predicate TruePred<P>(a: Interval<P>, b: Interval<P>)
  {
    true
  }

  predicate FalsePred<P>(a: Interval<P>, b: Interval<P>)
  {
    false
  }

  /** `before(min_dist, max_dist)`: b starts at least `min_dist` and at most `max_dist` after a ends. */
  predicate Before<P>(minDist: real, maxDist: MaxDist, a: Interval<P>, b: Interval<P>)
  {
    var gap := b.start - a.end;
    gap >= minDist && WithinMax(gap, maxDist)
  }

  /** `after(min_dist, max_dist)`: a starts at least `min_dist` and at most `max_dist` after b ends. */
  predicate After<P>(minDist: real, maxDist: MaxDist, a: Interval<P>, b: Interval<P>)
  {
    var gap := a.start - b.end;
    gap >= minDist && WithinMax(gap, maxDist)
  }

  /** The colloquial overlap test: crossing either end, or containing, or contained. */
  predicate Overlaps<P>(a: Interval<P>, b: Interval<P>)
  {
    (a.start < b.start && a.end > b.start) ||
    (a.start < b.end && a.end > b.end) ||
    (a.start <= b.start && a.end >= b.end) ||
    (a.start >= b.start && a.end <= b.end)
  }

  predicate OverlapsBefore<P>(a: Interval<P>, b: Interval<P>)
  {
    a.end > b.start && a.end < b.end && a.start < b.start
  }

  predicate OverlapsAfter<P>(a: Interval<P>, b: Interval<P>)
  {
    a.start > b.start && a.start < b.end && a.end > b.end
  }

  predicate Starts<P>(eps: real, a: Interval<P>, b: Interval<P>)
  {
    Abs(a.start - b.start) <= eps && a.end < b.end
  }

  predicate StartsInv<P>(eps: real, a: Interval<P>, b: Interval<P>)
  {
    Abs(a.start - b.start) <= eps && b.end < a.end
  }

  predicate Finishes<P>(eps: real, a: Interval<P>, b: Interval<P>)
  {
    Abs(a.end - b.end) <= eps && a.start > b.start
  }

  predicate FinishesInv<P>(eps: real, a: Interval<P>, b: Interval<P>)
  {
    Abs(a.end - b.end) <= eps && b.start > a.start
  }

  predicate During<P>(a: Interval<P>, b: Interval<P>)
  {
    a.start > b.start && a.end < b.end
  }

  predicate DuringInv<P>(a: Interval<P>, b: Interval<P>)
  {
    b.start > a.start && b.end < a.end
  }

  predicate MeetsBefore<P>(eps: real, a: Interval<P>, b: Interval<P>)
  {
    Abs(a.end - b.start) <= eps
  }

  predicate MeetsAfter<P>(eps: real, a: Interval<P>, b: Interval<P>)
  {
    Abs(b.end - a.start) <= eps
  }

  predicate Equal<P>(a: Interval<P>, b: Interval<P>)
  {
    a.start == b.start && a.end == b.end
  }

  /** `and_pred(pred1, pred2)` */
  function AndPred<P>(p1: BinPred<P>, p2: BinPred<P>): BinPred<P>
  {
    (a, b) => p1(a, b) && p2(a, b)
  }

  /** `or_pred(pred1, pred2)` */
  function OrPred<P>(p1: BinPred<P>, p2: BinPred<P>): BinPred<P>
  {
    (a, b) => p1(a, b) || p2(a, b)
  }

  // -------------------------------------------------------------------
  // Laws

  /** With the default distances, `before` holds exactly when b starts no earlier than a ends. */
  lemma BeforeDefaults<P>(a: Interval<P>, b: Interval<P>)
    ensures Before(0.0, Infty, a, b) <==> a.end <= b.start
  {
  }

  /** `after` is `before` with the arguments swapped. */
  lemma AfterIsConverse<P>(minDist: real, maxDist: MaxDist, a: Interval<P>, b: Interval<P>)
    ensures After(minDist, maxDist, a, b) <==> Before(minDist, maxDist, b, a)
  {
  }

  lemma OverlapsSymmetric<P>(a: Interval<P>, b: Interval<P>)
    ensures Overlaps(a, b) <==> Overlaps(b, a)
  {
  }

  lemma OverlapsReflexive<P>(a: Interval<P>)
    ensures Overlaps(a, a)
  {
  }

  /** Positive-length intervals that only touch do not overlap. */
  lemma TouchingDoNotOverlap<P>(a: Interval<P>, b: Interval<P>)
    requires a.start < a.end && b.start < b.end
    requires a.end == b.start
    ensures !Overlaps(a, b)
  {
  }

  /** For positive-length intervals, overlapping means sharing an open stretch of time. */
  lemma OverlapsPositive<P>(a: Interval<P>, b: Interval<P>)
    requires a.start < a.end && b.start < b.end
    ensures Overlaps(a, b) <==> a.start < b.end && b.start < a.end
  {
  }

  /**
   * `overlaps` is the union of the exact Allen relations other than before,
   * after and meets: equal, starts, finishes, during (each with its inverse)
   * and the two strict overlaps.
   */
  lemma OverlapsIsUnionOfAllen<P>(a: Interval<P>, b: Interval<P>)
    ensures Overlaps(a, b) <==>
      Equal(a, b) || Starts(0.0, a, b) || StartsInv(0.0, a, b) ||
      Finishes(0.0, a, b) || FinishesInv(0.0, a, b) || During(a, b) || DuringInv(a, b) ||
      OverlapsBefore(a, b) || OverlapsAfter(a, b)
  {
  }

  lemma EqualLaws<P>(a: Interval<P>, b: Interval<P>)
    ensures Equal(a, b) ==> Overlaps(a, b)
    ensures Equal(a, b) <==> Equal(b, a)
  {
  }

  lemma ConverseLaws<P>(eps: real, a: Interval<P>, b: Interval<P>)
    ensures OverlapsBefore(a, b) <==> OverlapsAfter(b, a)
    ensures During(a, b) <==> DuringInv(b, a)
    ensures MeetsBefore(eps, a, b) <==> MeetsAfter(eps, b, a)
    ensures Starts(eps, a, b) <==> StartsInv(eps, b, a)
    ensures Finishes(eps, a, b) <==> FinishesInv(eps, b, a)
  {
  }

  /** `starts`/`finishes`: within epsilon on the shared end, strictly ordered on the other. */
  lemma StartsFinishesShape<P>(eps: real, a: Interval<P>, b: Interval<P>)
    ensures Starts(eps, a, b) ==> b.start - eps <= a.start <= b.start + eps && a.end < b.end
    ensures Finishes(eps, a, b) ==> b.end - eps <= a.end <= b.end + eps && a.start > b.start
  {
  }

  lemma AndOrPredMeaning<P>(p1: BinPred<P>, p2: BinPred<P>, a: Interval<P>, b: Interval<P>)
    ensures AndPred(p1, p2)(a, b) <==> p1(a, b) && p2(a, b)
    ensures OrPred(p1, p2)(a, b) <==> p1(a, b) || p2(a, b)
  {
  }

  /** The cases the logical-predicate tests check. */
  lemma LogicalPredicateExamples()
    ensures var i1, i2 := Interval(1.0, 2.0, 1), Interval(1.0, 2.0, 3);
            AndPred(Equal, Overlaps)(i1, i2) &&
            !AndPred(Equal, OverlapsBefore)(i1, i2) &&
            !AndPred(OverlapsBefore, Equal)(i1, i2) &&
            !AndPred(OverlapsBefore, OverlapsAfter)(i1, i2)
    ensures var i1, i2 := Interval(1.0, 3.0, 1), Interval(2.0, 4.0, 1);
            OrPred(DefaultBefore, OverlapsBefore)(i1, i2) &&
            !OrPred(DefaultBefore, FalsePred)(i1, i2) &&
            OrPred(OverlapsBefore, Overlaps)(i1, i2) &&
            OrPred(OverlapsBefore, DefaultBefore)(i1, i2) &&
            Overlaps(i1, i2)
  {
    var i1, i2 := Interval(1.0, 2.0, 1), Interval(1.0, 2.0, 3);
    AndOrPredMeaning(Equal, Overlaps, i1, i2);
    AndOrPredMeaning(Equal, OverlapsBefore, i1, i2);
    AndOrPredMeaning(OverlapsBefore, Equal, i1, i2);
    AndOrPredMeaning(OverlapsBefore, OverlapsAfter, i1, i2);
    var j1, j2 := Interval(1.0, 3.0, 1), Interval(2.0, 4.0, 1);
    AndOrPredMeaning(DefaultBefore, OverlapsBefore, j1, j2);
    AndOrPredMeaning(DefaultBefore, FalsePred, j1, j2);
    AndOrPredMeaning(OverlapsBefore, Overlaps, j1, j2);
    AndOrPredMeaning(OverlapsBefore, DefaultBefore, j1, j2);
  }

  /** `before()` with its default distances. */
  predicate DefaultBefore<P>(a: Interval<P>, b: Interval<P>)
  {
    Before(0.0, Infty, a, b)
  }
}
