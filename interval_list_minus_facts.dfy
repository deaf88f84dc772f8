// What the recursive difference of `rekall/interval_list.py` leaves of an
// interval: against partners that each hold some time, the pieces hold
// exactly the times of the interval that no partner holds. The argument runs
// over the sorted cut points: a time no partner holds lies between two
// consecutive cut points that no partner overlaps, and the run loops accept
// exactly those steps.

module IntervalListMinusFacts {
  import opened Common
  import opened Temporal
  import opened IntervalListModel
  import opened IntervalListMinus
  import Seqs

  /** Every partner holds some time. */
  predicate AllPositive(ov: seq<Interval<int>>)
  {
    forall k :: 0 <= k < |ov| ==> ov[k].start < ov[k].end
  }

  /** Partners sorted by start, well-formed, of positive length, each overlapping `a`. */
  predicate Cutting(a: Interval<int>, ov: seq<Interval<int>>)
  {
    a.start <= a.end && AllWellFormed(ov) && Ascending(ov) && AllPositive(ov) &&
    forall k :: 0 <= k < |ov| ==> Overlaps(a, ov[k])
  }

  /** No partner overlaps the stretch from `s` to `e`. */
  predicate Free(ov: seq<Interval<int>>, s: real, e: real)
  {
    forall k :: 0 <= k < |ov| ==> !Overlaps(ov[k], Interval(s, e, 0))
  }

  // -------------------------------------------------------------------
  // The cut points

  lemma {:induction false} EndsAreCutPoints(a: Interval<int>, ov: seq<Interval<int>>)
    ensures a.start in EndpointSet(a, ov) && a.end in EndpointSet(a, ov)
  {
    if ov != [] {
      EndsAreCutPoints(a, ov[..|ov| - 1]);
    }
  }

  /** A partner's start after `a`'s start, and its end before `a`'s end, are cut points. */
  lemma {:induction false} PartnerEndsAreCutPoints(a: Interval<int>, ov: seq<Interval<int>>, k: nat)
    requires k < |ov|
    ensures ov[k].start > a.start ==> ov[k].start in EndpointSet(a, ov)
    ensures ov[k].end < a.end ==> ov[k].end in EndpointSet(a, ov)
  {
    var n := |ov| - 1;
    if k < n {
      PartnerEndsAreCutPoints(a, ov[..n], k);
      assert ov[..n][k] == ov[k];
    }
  }

  /** A cut point other than `a`'s ends is the start or the end of a partner. */
  lemma {:induction false} CutPointHasPartner(a: Interval<int>, ov: seq<Interval<int>>, y: real) returns (k: nat)
    requires y in EndpointSet(a, ov) && y != a.start && y != a.end
    ensures k < |ov| && (ov[k].start == y || ov[k].end == y)
  {
    assert ov != [];
    var n := |ov| - 1;
    if y in EndpointSet(a, ov[..n]) {
      k := CutPointHasPartner(a, ov[..n], y);
      assert ov[..n][k] == ov[k];
    } else {
      k := n;
    }
  }

  /** The sorted cut points run from `a`'s start to its end. */
  lemma CutPointsSpan(a: Interval<int>, ov: seq<Interval<int>>)
    requires a.start <= a.end && AllWellFormed(ov)
    requires forall k :: 0 <= k < |ov| ==> Overlaps(a, ov[k])
    ensures |EndpointList(a, ov)| >= 1
    ensures EndpointList(a, ov)[0] == a.start
    ensures EndpointList(a, ov)[|EndpointList(a, ov)| - 1] == a.end
    ensures forall m :: 0 <= m < |EndpointList(a, ov)| ==> a.start <= EndpointList(a, ov)[m] <= a.end
  {
    EndsListed(a, ov);
    CutPointsInside(a, ov);
    FirstAndLast(EndpointList(a, ov), a.start, a.end);
  }

  lemma EndsListed(a: Interval<int>, ov: seq<Interval<int>>)
    ensures a.start in EndpointList(a, ov) && a.end in EndpointList(a, ov)
  {
    EndsAreCutPoints(a, ov);
    EndpointListEnumerates(a, ov);
  }

  lemma CutPointsInside(a: Interval<int>, ov: seq<Interval<int>>)
    requires a.start <= a.end && AllWellFormed(ov)
    requires forall k :: 0 <= k < |ov| ==> Overlaps(a, ov[k])
    ensures forall m :: 0 <= m < |EndpointList(a, ov)| ==> a.start <= EndpointList(a, ov)[m] <= a.end
  {
    var eps := EndpointList(a, ov);
    EndpointListEnumerates(a, ov);
    EndpointsWithin(a, ov);
    forall m | 0 <= m < |eps| ensures a.start <= eps[m] <= a.end {
      assert eps[m] in eps;
    }
  }

  /** A strictly increasing sequence holding its own bounds starts at the lower one and ends at the upper one. */
  lemma FirstAndLast(eps: seq<real>, lo: real, hi: real)
    requires StrictlyIncreasing(eps) && lo in eps && hi in eps
    requires forall m :: 0 <= m < |eps| ==> lo <= eps[m] <= hi
    ensures |eps| >= 1 && eps[0] == lo && eps[|eps| - 1] == hi
  {
    var m0 :| 0 <= m0 < |eps| && eps[m0] == lo;
    var m1 :| 0 <= m1 < |eps| && eps[m1] == hi;
    assert eps[0] <= eps[m0];
    assert eps[m1] <= eps[|eps| - 1];
  }

  /** A time from the first cut point up to the last lies in some step between consecutive cut points. */
  lemma {:induction false} Bracket(eps: seq<real>, t: real, lo: nat) returns (i: nat)
    requires StrictlyIncreasing(eps)
    requires lo < |eps| && eps[lo] <= t < eps[|eps| - 1]
    ensures lo <= i && i + 1 < |eps| && eps[i] <= t < eps[i + 1]
    decreases |eps| - lo
  {
    if t < eps[lo + 1] {
      i := lo;
    } else {
      i := Bracket(eps, t, lo + 1);
    }
  }

  /** No cut point lies strictly inside a step. */
  lemma NothingBetween(eps: seq<real>, i: nat, y: real)
    requires StrictlyIncreasing(eps) && i + 1 < |eps| && y in eps
    ensures y <= eps[i] || eps[i + 1] <= y
  {
    var m :| 0 <= m < |eps| && eps[m] == y;
    if m < i {
      assert eps[m] < eps[i];
    } else if m > i + 1 {
      assert eps[i + 1] < eps[m];
    }
  }

  // -------------------------------------------------------------------
  // Steps no partner overlaps

  /** The step holding a time that no partner holds is overlapped by no partner. */
  lemma StepIsFree(a: Interval<int>, ov: seq<Interval<int>>, i: nat, t: real)
    requires Cutting(a, ov)
    requires i + 1 < |EndpointList(a, ov)|
    requires EndpointList(a, ov)[i] <= t < EndpointList(a, ov)[i + 1]
    requires forall k :: 0 <= k < |ov| ==> !(ov[k].start <= t < ov[k].end)
    ensures Free(ov, EndpointList(a, ov)[i], EndpointList(a, ov)[i + 1])
  {
    var eps := EndpointList(a, ov);
    CutPointsSpan(a, ov);
    EndpointListEnumerates(a, ov);
    forall k | 0 <= k < |ov| ensures !Overlaps(ov[k], Interval(eps[i], eps[i + 1], 0)) {
      var p := ov[k];
      OverlapsPositive(p, Interval(eps[i], eps[i + 1], 0));
      PartnerEndsAreCutPoints(a, ov, k);
      if eps[i] < p.start < eps[i + 1] {
        NothingBetween(eps, i, p.start);
      }
      if eps[i] < p.end < eps[i + 1] {
        NothingBetween(eps, i, p.end);
      }
    }
  }

  lemma {:induction false} EndClearOfFree(s: real, e: real, ov: seq<Interval<int>>, k: nat)
    requires k <= |ov|
    requires forall m :: k <= m < |ov| ==> !Overlaps(ov[m], Interval(s, e, 0))
    ensures EndClear(s, e, ov, k)
    decreases |ov| - k
  {
    if k < |ov| {
      EndClearOfFree(s, e, ov, k + 1);
    }
  }

  lemma {:induction false} StartClearOfFree(s: real, e: real, ov: seq<Interval<int>>, k: nat)
    requires k <= |ov| && s < e && AllPositive(ov)
    requires forall m :: k <= m < |ov| ==> !Overlaps(ov[m], Interval(s, e, 0))
    ensures StartClear(s, ov, k)
    decreases |ov| - k
  {
    if k < |ov| {
      OverlapsPositive(ov[k], Interval(s, e, 0));
      StartClearOfFree(s, e, ov, k + 1);
    }
  }

  /** A cut point strictly between the first and the last lies strictly inside `a`. */
  lemma InteriorCutPoint(a: Interval<int>, ov: seq<Interval<int>>, m: nat)
    requires a.start <= a.end && AllWellFormed(ov)
    requires forall k :: 0 <= k < |ov| ==> Overlaps(a, ov[k])
    requires 0 < m < |EndpointList(a, ov)| - 1
    ensures EndpointList(a, ov)[m] in EndpointSet(a, ov)
    ensures a.start < EndpointList(a, ov)[m] < a.end
  {
    var eps := EndpointList(a, ov);
    CutPointsSpan(a, ov);
    EndpointListEnumerates(a, ov);
    assert eps[0] < eps[m] < eps[|eps| - 1];
    assert eps[m] in eps;
  }

  /** A partner overlapping the stretch from `s` to `e` stops the `end` scan from accepting it. */
  lemma OverlapBlocks(s: real, e: real, ov: seq<Interval<int>>, k: nat)
    requires s <= e && Ascending(ov) && AllWellFormed(ov)
    requires k < |ov| && Overlaps(ov[k], Interval(s, e, 0))
    ensures !EndClear(s, e, ov, 0)
  {
    if EndClear(s, e, ov, 0) {
      EndClearMeaning(s, e, ov, 0);
    }
  }

  /** A run accepted by the `end` scan spans a single step: any cut point inside it belongs to a partner that overlaps it. */
  lemma OnlyNextStep(a: Interval<int>, ov: seq<Interval<int>>, i: nat, j: nat)
    requires Cutting(a, ov)
    requires i + 1 < j < |EndpointList(a, ov)|
    ensures !EndClear(EndpointList(a, ov)[i], EndpointList(a, ov)[j], ov, 0)
  {
    var eps := EndpointList(a, ov);
    var k := InteriorPartner(a, ov, i + 1);
    assert eps[i] < eps[i + 1] < eps[j];
    OverlapsPositive(ov[k], Interval(eps[i], eps[j], 0));
    OverlapBlocks(eps[i], eps[j], ov, k);
  }

  /** A cut point strictly between the first and the last is the start or the end of a partner. */
  lemma InteriorPartner(a: Interval<int>, ov: seq<Interval<int>>, m: nat) returns (k: nat)
    requires Cutting(a, ov)
    requires 0 < m < |EndpointList(a, ov)| - 1
    ensures k < |ov| && ov[k].start < ov[k].end
    ensures ov[k].start == EndpointList(a, ov)[m] || ov[k].end == EndpointList(a, ov)[m]
  {
    InteriorCutPoint(a, ov, m);
    k := CutPointHasPartner(a, ov, EndpointList(a, ov)[m]);
  }

  /** Two consecutive steps are never both accepted: the cut point between them belongs to a partner overlapping one of them. */
  lemma NoTwoClearSteps(a: Interval<int>, ov: seq<Interval<int>>, i: nat)
    requires Cutting(a, ov)
    requires 0 < i && i + 1 < |EndpointList(a, ov)|
    requires EndClear(EndpointList(a, ov)[i - 1], EndpointList(a, ov)[i], ov, 0)
    ensures !EndClear(EndpointList(a, ov)[i], EndpointList(a, ov)[i + 1], ov, 0)
  {
    var eps := EndpointList(a, ov);
    var k := InteriorPartner(a, ov, i);
    assert eps[i - 1] < eps[i] < eps[i + 1];
    EndClearMeaning(eps[i - 1], eps[i], ov, 0);
    OverlapsPositive(ov[k], Interval(eps[i - 1], eps[i], 0));
    OverlapsPositive(ov[k], Interval(eps[i], eps[i + 1], 0));
    OverlapBlocks(eps[i], eps[i + 1], ov, k);
  }

  lemma {:induction false} LastValidIs(eps: seq<real>, ov: seq<Interval<int>>, i: nat, lo: nat, lastJ: int)
    requires i < lo <= |eps|
    ensures LastValid(eps, ov, i, lo, lastJ) == lastJ ||
            (lo <= LastValid(eps, ov, i, lo, lastJ) < |eps| &&
             EndClear(eps[i], eps[LastValid(eps, ov, i, lo, lastJ)], ov, 0))
    decreases |eps| - lo
  {
    if lo < |eps| && !EndClear(eps[i], eps[lo], ov, 0) {
      LastValidIs(eps, ov, i, lo + 1, lastJ);
    }
  }

  /** The `end` scan accepts no run longer than one step. */
  predicate SingleSteps(eps: seq<real>, ov: seq<Interval<int>>)
  {
    forall i, j :: 0 <= i && i + 1 < j < |eps| ==> !EndClear(eps[i], eps[j], ov, 0)
  }

  /** The `end` scan never accepts two consecutive steps. */
  predicate NoTwoSteps(eps: seq<real>, ov: seq<Interval<int>>)
  {
    forall i :: 0 < i && i + 1 < |eps| && EndClear(eps[i - 1], eps[i], ov, 0) ==> !EndClear(eps[i], eps[i + 1], ov, 0)
  }

  lemma CutPointSteps(a: Interval<int>, ov: seq<Interval<int>>)
    requires Cutting(a, ov)
    ensures SingleSteps(EndpointList(a, ov), ov) && NoTwoSteps(EndpointList(a, ov), ov)
  {
    var eps := EndpointList(a, ov);
    forall i, j | 0 <= i && i + 1 < j < |eps| ensures !EndClear(eps[i], eps[j], ov, 0) {
      OnlyNextStep(a, ov, i, j);
    }
    forall i | 0 < i && i + 1 < |eps| && EndClear(eps[i - 1], eps[i], ov, 0) ensures !EndClear(eps[i], eps[i + 1], ov, 0) {
      NoTwoClearSteps(a, ov, i);
    }
  }

  /** An accepted start `k` before the accepted step `i` leaves `last_j` below `i`. */
  lemma NextLastJ(eps: seq<real>, ov: seq<Interval<int>>, k: nat, lastJ: int, i: nat)
    requires SingleSteps(eps, ov) && NoTwoSteps(eps, ov)
    requires k < i && i + 1 < |eps| && lastJ < i
    requires EndClear(eps[i], eps[i + 1], ov, 0)
    ensures LastValid(eps, ov, k, k + 1, lastJ) < i
  {
    var lastJ' := LastValid(eps, ov, k, k + 1, lastJ);
    LastValidIs(eps, ov, k, k + 1, lastJ);
    if lastJ' != lastJ {
      assert k + 1 <= lastJ' < |eps| && EndClear(eps[k], eps[lastJ'], ov, 0);
      assert lastJ' == k + 1;
      if k + 1 == i {
        assert false;
      }
    }
  }

  /** The run loops emit every accepted step they reach with `last_j` below it. */
  lemma {:induction false} RunsFromHas(eps: seq<real>, ov: seq<Interval<int>>, k: nat, lastJ: int, i: nat)
    requires SingleSteps(eps, ov) && NoTwoSteps(eps, ov)
    requires k <= i && i + 1 < |eps| && lastJ < i
    requires EndClear(eps[i], eps[i + 1], ov, 0) && StartClear(eps[i], ov, 0)
    ensures (eps[i], eps[i + 1]) in RunsFrom(eps, ov, k, lastJ)
    decreases i - k
  {
    if k == i {
      assert ValidRuns(eps, ov, i, i + 1) == ValidRuns(eps, ov, i, i + 2) + [(eps[i], eps[i + 1])];
      assert RunsFrom(eps, ov, i, lastJ) == ValidRuns(eps, ov, i, i + 1) + RunsFrom(eps, ov, i + 1, LastValid(eps, ov, i, i + 1, lastJ));
    } else if k <= lastJ || !StartClear(eps[k], ov, 0) {
      RunsFromHas(eps, ov, k + 1, lastJ, i);
      assert RunsFrom(eps, ov, k, lastJ) == RunsFrom(eps, ov, k + 1, lastJ);
    } else {
      var lastJ' := LastValid(eps, ov, k, k + 1, lastJ);
      NextLastJ(eps, ov, k, lastJ, i);
      RunsFromHas(eps, ov, k + 1, lastJ', i);
      assert RunsFrom(eps, ov, k, lastJ) == ValidRuns(eps, ov, k, k + 1) + RunsFrom(eps, ov, k + 1, lastJ');
    }
  }

  /**
   * A time of `a` that no partner holds lies in a step between consecutive
   * cut points that no partner overlaps, and the run loops emit that step.
   */
  lemma RunsComplete(a: Interval<int>, ov: seq<Interval<int>>, t: real) returns (i: nat)
    requires Cutting(a, ov)
    requires a.start <= t < a.end
    requires forall k :: 0 <= k < |ov| ==> !(ov[k].start <= t < ov[k].end)
    ensures i + 1 < |EndpointList(a, ov)|
    ensures EndpointList(a, ov)[i] <= t < EndpointList(a, ov)[i + 1]
    ensures Free(ov, EndpointList(a, ov)[i], EndpointList(a, ov)[i + 1])
    ensures (EndpointList(a, ov)[i], EndpointList(a, ov)[i + 1]) in RunsFrom(EndpointList(a, ov), ov, 0, -1)
  {
    var eps := EndpointList(a, ov);
    CutPointsSpan(a, ov);
    i := Bracket(eps, t, 0);
    StepIsFree(a, ov, i, t);
    EndClearOfFree(eps[i], eps[i + 1], ov, 0);
    StartClearOfFree(eps[i], eps[i + 1], ov, 0);
    CutPointSteps(a, ov);
    RunsFromHas(eps, ov, 0, -1, i);
  }

  /** A step no partner overlaps is touched at one of its ends by some partner. */
  lemma FreeStepTouches(a: Interval<int>, ov: seq<Interval<int>>, i: nat) returns (k: nat)
    requires Cutting(a, ov) && ov != []
    requires i + 1 < |EndpointList(a, ov)|
    requires Free(ov, EndpointList(a, ov)[i], EndpointList(a, ov)[i + 1])
    ensures k < |ov| && (ov[k].end == EndpointList(a, ov)[i] || ov[k].start == EndpointList(a, ov)[i + 1])
  {
    var eps := EndpointList(a, ov);
    CutPointsSpan(a, ov);
    EndpointListEnumerates(a, ov);
    var s, e := eps[i], eps[i + 1];
    assert s in eps && e in eps && s < e;
    if s != a.start {
      k := CutPointHasPartner(a, ov, s);
      OverlapsPositive(ov[k], Interval(s, e, 0));
    } else if e != a.end {
      k := CutPointHasPartner(a, ov, e);
      OverlapsPositive(ov[k], Interval(s, e, 0));
    } else {
      // the step is all of `a`, which every partner overlaps
      k := 0;
      OverlapsPositive(a, ov[0]);
      OverlapsPositive(ov[0], Interval(s, e, 0));
      assert false;
    }
  }

  // -------------------------------------------------------------------
  // Labelling the runs

  lemma {:induction false} FirstTouchingFinds(ov: seq<Interval<int>>, s: real, e: real, j: nat, k: nat)
    requires j <= k < |ov| && (ov[k].end == s || ov[k].start == e)
    ensures FirstTouching(ov, s, e, j).Some?
    decreases k - j
  {
    if j < k && !(ov[j].end == s || ov[j].start == e) {
      FirstTouchingFinds(ov, s, e, j + 1, k);
    }
  }

  lemma {:induction false} LabelledHas(a: Interval<int>, runs: seq<(real, real)>, n: nat, ov: seq<Interval<int>>, producer: Producer<int>, m: nat)
    requires m < n <= |runs|
    requires FirstTouching(ov, runs[m].0, runs[m].1, 0).Some?
    ensures Interval(runs[m].0, runs[m].1, producer(a, FirstTouching(ov, runs[m].0, runs[m].1, 0).value))
              in Labelled(a, runs, n, ov, producer)
  {
    if m < n - 1 {
      LabelledHas(a, runs, n - 1, ov, producer, m);
    }
  }

  /** Against positive-length partners, every time of `a` that no partner holds lies in one of the pieces. */
  lemma CutAgainstComplete(a: Interval<int>, ov: seq<Interval<int>>, producer: Producer<int>, t: real)
    requires Cutting(a, ov) && ov != []
    requires a.start <= t < a.end
    requires forall k :: 0 <= k < |ov| ==> !(ov[k].start <= t < ov[k].end)
    ensures exists x :: x in CutAgainst(a, ov, producer) && x.start <= t < x.end
  {
    var eps := EndpointList(a, ov);
    var runs := RunsFrom(eps, ov, 0, -1);
    var i := RunsComplete(a, ov, t);
    var k := FreeStepTouches(a, ov, i);
    var m :| 0 <= m < |runs| && runs[m] == (eps[i], eps[i + 1]);
    FirstTouchingFinds(ov, eps[i], eps[i + 1], 0, k);
    LabelledHas(a, runs, |runs|, ov, producer, m);
    assert CutAgainst(a, ov, producer) == Labelled(a, runs, |runs|, ov, producer);
  }

  // -------------------------------------------------------------------
  // The difference of one interval of the receiver

  /** Some partner of `a` in `o`, other than `a` itself, holds the time `t`. */
  predicate PartnerHolds(a: Interval<int>, i: nat, o: seq<Interval<int>>, pred: BinPred<int>, same: SameObject, t: real)
  {
    exists k :: 0 <= k < |o| && !same(i, k) && IsPartner(pred, a, o[k]) && o[k].start <= t < o[k].end
  }

  /** A partner holding a time of `a` is one `overlapping` collects. */
  lemma HolderCollected(a: Interval<int>, i: nat, o: seq<Interval<int>>, pred: BinPred<int>, same: SameObject, t: real, k: nat)
    requires Ascending(o) && a.start <= t < a.end
    requires k < |o| && !same(i, k) && IsPartner(pred, a, o[k]) && o[k].start <= t < o[k].end
    ensures o[k] in ScanFrom(a, i, o, 0, pred, same)
  {
    OverlappingIsPartners(a, i, o, pred, same, o[k]);
  }

  /**
   * When every partner holds some time, the pieces `minus` makes of `a`
   * hold exactly the times of `a` that no partner holds.
   */
  lemma CutRowIsDifference(a: Interval<int>, i: nat, o: seq<Interval<int>>, pred: BinPred<int>, producer: Producer<int>, same: SameObject, t: real)
    requires a.start <= a.end && AllWellFormed(o) && Ascending(o)
    requires forall k :: 0 <= k < |o| && !same(i, k) && IsPartner(pred, a, o[k]) ==> o[k].start < o[k].end
    requires a.start <= t < a.end
    ensures (exists x :: x in CutRow(a, i, o, pred, producer, same) && x.start <= t < x.end)
            <==> !PartnerHolds(a, i, o, pred, same, t)
  {
    var ov := ScanFrom(a, i, o, 0, pred, same);
    var cut := CutRow(a, i, o, pred, producer, same);
    if PartnerHolds(a, i, o, pred, same, t) {
      var k :| 0 <= k < |o| && !same(i, k) && IsPartner(pred, a, o[k]) && o[k].start <= t < o[k].end;
      HolderCollected(a, i, o, pred, same, t, k);
      forall x | x in cut ensures !(x.start <= t < x.end) {
        CutRowPieces(a, i, o, pred, producer, same, x);
        OverlapsPositive(o[k], x);
      }
    } else {
      CutRowPieces(a, i, o, pred, producer, same, a);
      if ov != [] {
        ScanIsPartners(a, i, o, pred, same);
        forall k | 0 <= k < |ov| ensures ov[k].start < ov[k].end && !(ov[k].start <= t < ov[k].end) {
          OverlappingIsPartners(a, i, o, pred, same, ov[k]);
        }
        CutAgainstComplete(a, ov, producer, t);
      }
    }
  }

  // -------------------------------------------------------------------
  // Partners of length zero

  /**
   * As written, a partner of length zero inside `a` makes all of `a` vanish:
   * `[0, 10]` cut against `[5, 5]` leaves nothing, although `[5, 5]` holds no
   * time. The point overlaps every step that ends or starts at it, so no step
   * is accepted, and `a` itself is only kept when there are no partners.
   */
  lemma PointPartnerSwallows(a: Interval<int>, ov: seq<Interval<int>>, producer: Producer<int>)
    requires a == Interval(0.0, 10.0, 0) && ov == [Interval(5.0, 5.0, 0)]
    ensures CutAgainst(a, ov, producer) == []
  {
    PointCutPoints(a, ov);
    PointRuns([0.0, 5.0, 10.0], ov);
  }

  /** The cut points of `[0, 10]` against `[5, 5]`. */
  lemma PointCutPoints(a: Interval<int>, ov: seq<Interval<int>>)
    requires a == Interval(0.0, 10.0, 0) && ov == [Interval(5.0, 5.0, 0)]
    ensures EndpointList(a, ov) == [0.0, 5.0, 10.0]
  {
    assert ov[..0] == [];
    assert EndpointList(a, []) == [0.0, 10.0] by {
      assert [0.0][1..] == [];
    }
    assert InsertPoint([0.0, 10.0], 5.0) == [0.0, 5.0, 10.0] by {
      assert [0.0, 10.0][1..] == [10.0];
    }
    assert InsertPoint([0.0, 5.0, 10.0], 5.0) == [0.0, 5.0, 10.0] by {
      assert [0.0, 5.0, 10.0][1..] == [5.0, 10.0];
    }
  }

  /** No step between the cut points of `[0, 10]` is accepted against `[5, 5]`. */
  lemma PointRuns(eps: seq<real>, ov: seq<Interval<int>>)
    requires eps == [0.0, 5.0, 10.0] && ov == [Interval(5.0, 5.0, 0)]
    ensures RunsFrom(eps, ov, 0, -1) == []
  {
    assert !EndClear(0.0, 5.0, ov, 0);
    assert !EndClear(0.0, 10.0, ov, 0);
    assert !EndClear(5.0, 10.0, ov, 0);
    assert ValidRuns(eps, ov, 0, 3) == [] && ValidRuns(eps, ov, 1, 3) == [];
    assert ValidRuns(eps, ov, 0, 2) == [] && ValidRuns(eps, ov, 1, 2) == [];
    assert ValidRuns(eps, ov, 0, 1) == [];
    assert LastValid(eps, ov, 0, 3, -1) == -1 && LastValid(eps, ov, 1, 3, -1) == -1;
    assert LastValid(eps, ov, 0, 2, -1) == -1;
    assert LastValid(eps, ov, 0, 1, -1) == -1 && LastValid(eps, ov, 1, 2, -1) == -1;
    assert RunsFrom(eps, ov, 2, -1) == ValidRuns(eps, ov, 2, 3) + RunsFrom(eps, ov, 3, -1);
  }

  /** A partner that holds some time. */
  predicate HoldsTime(b: Interval<int>)
  {
    b.start < b.end
  }

  /**
   * The evidently intended difference of one interval: partners of length
   * zero hold no time, so they are set aside before cutting, as the
   * difference of interval sets does. An interval of length zero with
   * partners still leaves nothing, as written.
   */
  function CutRowIntended(a: Interval<int>, i: nat, o: seq<Interval<int>>, pred: BinPred<int>, producer: Producer<int>, same: SameObject): seq<Interval<int>>
  {
    var ov := ScanFrom(a, i, o, 0, pred, same);
    if ov != [] && a.start == a.end then []
    else CutAgainst(a, Seqs.Filter(ov, HoldsTime), producer)
  }

  lemma {:induction false} FilterAscending(s: seq<Interval<int>>)
    requires Ascending(s)
    ensures Ascending(Seqs.Filter(s, HoldsTime))
  {
    if s != [] {
      var n := |s| - 1;
      assert Ascending(s[..n]);
      FilterAscending(s[..n]);
      Seqs.FilterMembers(s[..n], HoldsTime);
      var f := Seqs.Filter(s[..n], HoldsTime);
      forall j | 0 <= j < |f| ensures f[j].start <= s[n].start {
        assert f[j] in s[..n];
      }
      var g := Seqs.Filter(s, HoldsTime);
      assert g == f + (if HoldsTime(s[n]) then [s[n]] else []);
      forall j, k | 0 <= j < k < |g| ensures g[j].start <= g[k].start {
        if k < |f| {
          assert g[j] == f[j] && g[k] == f[k];
        }
      }
    }
  }

  /** Setting aside the partners of length zero keeps what `overlapping` promises and makes every partner hold time. */
  lemma FilteredPartners(a: Interval<int>, ov: seq<Interval<int>>)
    requires a.start <= a.end && PartnersOf(a, ov)
    ensures PartnersOf(a, Seqs.Filter(ov, HoldsTime)) && Cutting(a, Seqs.Filter(ov, HoldsTime))
    ensures forall x :: x in Seqs.Filter(ov, HoldsTime) <==> x in ov && HoldsTime(x)
  {
    var f := Seqs.Filter(ov, HoldsTime);
    Seqs.FilterMembers(ov, HoldsTime);
    FilterAscending(ov);
    forall k | 0 <= k < |f| ensures f[k].start <= f[k].end && Overlaps(a, f[k]) && f[k].start < a.end {
      assert f[k] in ov;
    }
  }

  /** With partners of length zero set aside, the pieces hold exactly the times of `a` that no partner holds. */
  lemma CutRowIntendedIsDifference(a: Interval<int>, i: nat, o: seq<Interval<int>>, pred: BinPred<int>, producer: Producer<int>, same: SameObject, t: real)
    requires a.start <= a.end && AllWellFormed(o) && Ascending(o)
    requires a.start <= t < a.end
    ensures (exists x :: x in CutRowIntended(a, i, o, pred, producer, same) && x.start <= t < x.end)
            <==> !PartnerHolds(a, i, o, pred, same, t)
  {
    var ov := ScanFrom(a, i, o, 0, pred, same);
    var f := Seqs.Filter(ov, HoldsTime);
    var cut := CutRowIntended(a, i, o, pred, producer, same);
    assert cut == CutAgainst(a, f, producer);
    ScanIsPartners(a, i, o, pred, same);
    FilteredPartners(a, ov);
    if PartnerHolds(a, i, o, pred, same, t) {
      var k :| 0 <= k < |o| && !same(i, k) && IsPartner(pred, a, o[k]) && o[k].start <= t < o[k].end;
      HolderCollected(a, i, o, pred, same, t, k);
      assert o[k] in f;
      forall x | x in cut ensures !(x.start <= t < x.end) {
        CutAgainstPieces(a, f, producer, x);
        OverlapsPositive(o[k], x);
      }
    } else if f == [] {
      var runs := RunsFrom(EndpointList(a, f), f, 0, -1);
      LabelledWithoutPartners(a, runs, |runs|, producer);
      assert a in cut;
    } else {
      forall k | 0 <= k < |f| ensures !(f[k].start <= t < f[k].end) {
        assert f[k] in ov;
        OverlappingIsPartners(a, i, o, pred, same, f[k]);
      }
      CutAgainstComplete(a, f, producer, t);
    }
  }
}
