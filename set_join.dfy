// `IntervalSet3D.join` of `rekall/interval_set_3d.py`: a sweep over the
// receiver in sort order that keeps a start index into `other`, skipping the
// intervals of `other` that end before the receptive window of the current
// interval and stopping at the first one that starts after it. The sweep is
// proved equal to a filtered cross product: every pair within the window that
// satisfies the predicate contributes `merge_op(a, b)`, in loop order.

module SetJoin {
  import opened Common
  import opened LexSort
  import opened Interval3DOps
  import opened SetUtils
  import opened IntervalSet3DModel
  import Seqs

  /** What one pair contributes to the output. */
  function JoinCell<P>(pred: (Interval3D<P>, Interval3D<P>) -> bool,
                       mergeOp: (Interval3D<P>, Interval3D<P>) -> seq<Interval3D<P>>,
                       w: real): (Interval3D<P>, Interval3D<P>) -> seq<Interval3D<P>>
  {
    (a, b) => if Admitted(a, b, w) && pred(a, b) then mergeOp(a, b) else []
  }

  /** The pairs on which the predicate is evaluated. */
  function PairCell<P>(w: real): (Interval3D<P>, Interval3D<P>) -> seq<(Interval3D<P>, Interval3D<P>)>
  {
    (a, b) => if Admitted(a, b, w) then [(a, b)] else []
  }

  /** `time_window`, defaulting to the receiver's window. */
  function Window<P>(S: IntervalSet3D<P>, timeWindow: Option<real>): real
  {
    if timeWindow.None? then S.timeWindow else timeWindow.value
  }

  /** The set `join` returns. */
  function JoinSpec<P>(S: IntervalSet3D<P>, O: IntervalSet3D<P>,
                       pred: (Interval3D<P>, Interval3D<P>) -> bool,
                       mergeOp: (Interval3D<P>, Interval3D<P>) -> seq<Interval3D<P>>,
                       timeWindow: Option<real>): IntervalSet3D<P>
  {
    Make(Seqs.Cross(S.intrvls, O.intrvls, JoinCell(pred, mergeOp, Window(S, timeWindow))))
  }

  /** Every cell of a row from `lo` on is empty when `other` starts too late from `lo` on. */
  lemma TailNotAdmitted<P>(a: Interval3D<P>, o: seq<Interval3D<P>>, lo: int, w: real)
    requires StartsAscending(o)
    requires 0 <= lo < |o| && o[lo].t.0 - w > a.t.1
    ensures forall k :: lo <= k < |o| ==> !Admitted(a, o[k], w)
  {
  }

  /** Once `other` ends before the window of `s[i]`, no later receiver interval adds any output. */
  lemma RestNotAdmitted<P>(s: seq<Interval3D<P>>, o: seq<Interval3D<P>>, i: int, w: real,
                           pred: (Interval3D<P>, Interval3D<P>) -> bool,
                           mergeOp: (Interval3D<P>, Interval3D<P>) -> seq<Interval3D<P>>)
    requires StartsAscending(s)
    requires 0 <= i < |s|
    requires EndBefore(o, |o|, s[i], w)
    ensures Seqs.CrossPrefix(s, o, |s|, JoinCell(pred, mergeOp, w)) == Seqs.CrossPrefix(s, o, i + 1, JoinCell(pred, mergeOp, w))
  {
    TailRowsEmpty(s, o, i, w, pred, mergeOp);
    Seqs.CrossPrefixSkip(s, o, i + 1, |s|, JoinCell(pred, mergeOp, w));
  }

  /** Nor is any pair of a later receiver interval evaluated. */
  lemma RestNotEvaluated<P>(s: seq<Interval3D<P>>, o: seq<Interval3D<P>>, i: int, w: real)
    requires StartsAscending(s)
    requires 0 <= i < |s|
    requires EndBefore(o, |o|, s[i], w)
    ensures Seqs.CrossPrefix(s, o, |s|, PairCell(w)) == Seqs.CrossPrefix(s, o, i + 1, PairCell(w))
  {
    TailRowsEmpty(s, o, i, w, (a, b) => true, (a, b) => []);
    Seqs.CrossPrefixSkip(s, o, i + 1, |s|, PairCell(w));
  }

  /** Every receiver interval after the `i`-th starts no earlier, so its window misses all of `other` too. */
  lemma TailRowsEmpty<P>(s: seq<Interval3D<P>>, o: seq<Interval3D<P>>, i: int, w: real,
                         pred: (Interval3D<P>, Interval3D<P>) -> bool,
                         mergeOp: (Interval3D<P>, Interval3D<P>) -> seq<Interval3D<P>>)
    requires StartsAscending(s)
    requires 0 <= i < |s|
    requires EndBefore(o, |o|, s[i], w)
    ensures forall m :: i + 1 <= m < |s| ==>
              Seqs.Row(s[m], o, JoinCell(pred, mergeOp, w)) == [] && Seqs.Row(s[m], o, PairCell(w)) == []
  {
    EndBeforeMeaning(o, |o|, s[i], w);
    forall m | i + 1 <= m < |s|
      ensures Seqs.Row(s[m], o, JoinCell(pred, mergeOp, w)) == [] && Seqs.Row(s[m], o, PairCell(w)) == []
    {
      RowNotAdmitted(s[m], o, w, pred, mergeOp);
    }
  }

  /** A receiver interval whose window every interval of `other` ends before contributes nothing. */
  lemma RowNotAdmitted<P>(a: Interval3D<P>, o: seq<Interval3D<P>>, w: real,
                          pred: (Interval3D<P>, Interval3D<P>) -> bool,
                          mergeOp: (Interval3D<P>, Interval3D<P>) -> seq<Interval3D<P>>)
    requires forall k :: 0 <= k < |o| ==> o[k].t.1 < a.t.0 - w
    ensures Seqs.Row(a, o, JoinCell(pred, mergeOp, w)) == [] && Seqs.Row(a, o, PairCell(w)) == []
  {
    var cell, pcell := JoinCell(pred, mergeOp, w), PairCell<P>(w);
    assert forall k :: 0 <= k < |o| ==> cell(a, o[k]) == [] && pcell(a, o[k]) == [];
    Seqs.RowPrefixSkip(a, o, 0, |o|, cell);
    Seqs.RowPrefixSkip(a, o, 0, |o|, pcell);
  }

  /** The intervals of `other` that end before the window of `a` add nothing to its row. */
  lemma SkippedAreEmpty<P>(a: Interval3D<P>, o: seq<Interval3D<P>>, n: nat, w: real,
                           pred: (Interval3D<P>, Interval3D<P>) -> bool,
                           mergeOp: (Interval3D<P>, Interval3D<P>) -> seq<Interval3D<P>>)
    requires n <= |o| && EndBefore(o, n, a, w)
    ensures Seqs.RowPrefix(a, o, n, JoinCell(pred, mergeOp, w)) == []
    ensures Seqs.RowPrefix(a, o, n, PairCell(w)) == []
  {
    var cell, pcell := JoinCell(pred, mergeOp, w), PairCell<P>(w);
    EndBeforeMeaning(o, n, a, w);
    assert forall k :: 0 <= k < n ==> cell(a, o[k]) == [] && pcell(a, o[k]) == [];
    Seqs.RowPrefixSkip(a, o, 0, n, cell);
    Seqs.RowPrefixSkip(a, o, 0, n, pcell);
  }

  /** Once an interval of `other` starts after the window of `a` closes, the rest add nothing to its row. */
  lemma LaterAreEmpty<P>(a: Interval3D<P>, o: seq<Interval3D<P>>, lo: int, w: real,
                         pred: (Interval3D<P>, Interval3D<P>) -> bool,
                         mergeOp: (Interval3D<P>, Interval3D<P>) -> seq<Interval3D<P>>)
    requires StartsAscending(o)
    requires 0 <= lo < |o| && o[lo].t.0 - w > a.t.1
    ensures Seqs.Row(a, o, JoinCell(pred, mergeOp, w)) == Seqs.RowPrefix(a, o, lo, JoinCell(pred, mergeOp, w))
    ensures Seqs.Row(a, o, PairCell(w)) == Seqs.RowPrefix(a, o, lo, PairCell(w))
  {
    var cell, pcell := JoinCell(pred, mergeOp, w), PairCell<P>(w);
    TailNotAdmitted(a, o, lo, w);
    Seqs.RowPrefixSkip(a, o, lo, |o|, cell);
    Seqs.RowPrefixSkip(a, o, lo, |o|, pcell);
  }

  /** One more interval of `other` extends both rows by its cell. */
  lemma JoinStep<P>(a: Interval3D<P>, o: seq<Interval3D<P>>, idx: int, w: real,
                    pred: (Interval3D<P>, Interval3D<P>) -> bool,
                    mergeOp: (Interval3D<P>, Interval3D<P>) -> seq<Interval3D<P>>)
    requires 0 <= idx < |o|
    ensures Seqs.RowPrefix(a, o, idx + 1, JoinCell(pred, mergeOp, w)) ==
            Seqs.RowPrefix(a, o, idx, JoinCell(pred, mergeOp, w)) +
            (if Admitted(a, o[idx], w) && pred(a, o[idx]) then mergeOp(a, o[idx]) else [])
    ensures Seqs.RowPrefix(a, o, idx + 1, PairCell(w)) ==
            Seqs.RowPrefix(a, o, idx, PairCell(w)) + (if Admitted(a, o[idx], w) then [(a, o[idx])] else [])
  {
  }

  /**
   * The inner loop of `join` for one receiver interval `a`: scans `other` from
   * `startIndex`, collecting what is appended to the output and (ghost) the
   * pairs evaluated, and reports the first index whose interval does not end
   * before `a`'s window.
   */
  method JoinRow<P>(a: Interval3D<P>, o: seq<Interval3D<P>>, startIndex: nat, w: real,
                    pred: (Interval3D<P>, Interval3D<P>) -> bool,
                    mergeOp: (Interval3D<P>, Interval3D<P>) -> seq<Interval3D<P>>)
    returns (row: seq<Interval3D<P>>, ghost evaluated: seq<(Interval3D<P>, Interval3D<P>)>, newStart: Option<nat>)
    requires StartsAscending(o)
    requires startIndex <= |o|
    requires EndBefore(o, startIndex, a, w)
    ensures row == Seqs.Row(a, o, JoinCell(pred, mergeOp, w))
    ensures evaluated == Seqs.Row(a, o, PairCell(w))
    ensures newStart.None? ==> EndBefore(o, |o|, a, w)
    ensures newStart.Some? ==> startIndex <= newStart.value < |o| && EndBefore(o, newStart.value, a, w)
  {
    var cell := JoinCell(pred, mergeOp, w);
    ghost var pcell := PairCell<P>(w);
    SkippedAreEmpty(a, o, startIndex, w, pred, mergeOp);
    row, evaluated, newStart := [], [], None;
    var idx := startIndex;
    while idx < |o|
      invariant startIndex <= idx <= |o|
      invariant row == Seqs.RowPrefix(a, o, idx, cell)
      invariant evaluated == Seqs.RowPrefix(a, o, idx, pcell)
      invariant newStart.None? ==> EndBefore(o, idx, a, w)
      invariant newStart.Some? ==> startIndex <= newStart.value < idx && EndBefore(o, newStart.value, a, w)
    {
      var b := o[idx];
      JoinStep(a, o, idx, w, pred, mergeOp);
      if a.t.0 - w <= b.t.1 {
        // every later interval of the receiver starts no earlier than `a`
        if newStart.None? {
          newStart := Some(idx);
        }
        // every later interval of `other` starts no earlier than `b`
        if b.t.0 - w > a.t.1 {
          LaterAreEmpty(a, o, idx, w, pred, mergeOp);
          return;
        }
        evaluated := evaluated + [(a, b)];
        if pred(a, b) {
          var newIntrvls := mergeOp(a, b);
          if |newIntrvls| > 0 {
            row := row + newIntrvls;
          } else {
            assert row + newIntrvls == row;
          }
        }
      }
      idx := idx + 1;
    }
  }

  /**
   * The two loops of `join` over the interval lists `s` and `o` with window
   * `w`; the ghost `evaluated` records each pair on which the predicate is
   * called.
   */
  method JoinSweep<P>(s: seq<Interval3D<P>>, o: seq<Interval3D<P>>, w: real,
                      pred: (Interval3D<P>, Interval3D<P>) -> bool,
                      mergeOp: (Interval3D<P>, Interval3D<P>) -> seq<Interval3D<P>>)
    returns (output: seq<Interval3D<P>>, ghost evaluated: seq<(Interval3D<P>, Interval3D<P>)>)
    requires StartsAscending(s) && StartsAscending(o)
    ensures output == Seqs.Cross(s, o, JoinCell(pred, mergeOp, w))
    ensures evaluated == Seqs.Cross(s, o, PairCell(w))
  {
    ghost var cell, pcell := JoinCell(pred, mergeOp, w), PairCell<P>(w);
    output, evaluated := [], [];
    var startIndex := 0;
    var i := 0;
    while i < |s|
      invariant 0 <= i <= |s| && 0 <= startIndex <= |o|
      invariant output == Seqs.CrossPrefix(s, o, i, cell)
      invariant evaluated == Seqs.CrossPrefix(s, o, i, pcell)
      invariant i < |s| ==> EndBefore(o, startIndex, s[i], w)
    {
      var row, newStart;
      ghost var pairs;
      row, pairs, newStart := JoinRow(s[i], o, startIndex, w, pred, mergeOp);
      output, evaluated := output + row, evaluated + pairs;
      assert output == Seqs.CrossPrefix(s, o, i + 1, cell);
      assert evaluated == Seqs.CrossPrefix(s, o, i + 1, pcell);
      // what is left of `other` ends too early for every later interval of the receiver
      if newStart.None? {
        RestNotAdmitted(s, o, i, w, pred, mergeOp);
        RestNotEvaluated(s, o, i, w);
        return;
      }
      if i + 1 < |s| {
        EndBeforeLater(o, newStart.value, s[i], s[i + 1], w);
      }
      startIndex := newStart.value;
      i := i + 1;
    }
  }

  /** `join(other, predicate, merge_op, time_window)` */
  method Join<P>(S: IntervalSet3D<P>, O: IntervalSet3D<P>,
                 pred: (Interval3D<P>, Interval3D<P>) -> bool,
                 mergeOp: (Interval3D<P>, Interval3D<P>) -> seq<Interval3D<P>>,
                 timeWindow: Option<real>)
    returns (r: IntervalSet3D<P>, ghost evaluated: seq<(Interval3D<P>, Interval3D<P>)>)
    requires SortedBy(S.intrvls, SortKey) && SortedBy(O.intrvls, SortKey)
    ensures r == JoinSpec(S, O, pred, mergeOp, timeWindow)
    ensures evaluated == Seqs.Cross(S.intrvls, O.intrvls, PairCell(Window(S, timeWindow)))
  {
    var w := Window(S, timeWindow);
    SortedStartsAscending(S.intrvls);
    SortedStartsAscending(O.intrvls);
    var output;
    output, evaluated := JoinSweep(S.intrvls, O.intrvls, w, pred, mergeOp);
    r := Make(output);
  }

  // -------------------------------------------------------------------
  // What the join returns

  /** An output comes from a pair within the window that satisfies the predicate, and every such pair contributes. */
  lemma JoinOutputs<P>(S: IntervalSet3D<P>, O: IntervalSet3D<P>,
                       pred: (Interval3D<P>, Interval3D<P>) -> bool,
                       mergeOp: (Interval3D<P>, Interval3D<P>) -> seq<Interval3D<P>>,
                       timeWindow: Option<real>, x: Interval3D<P>)
    ensures var w := Window(S, timeWindow);
            x in JoinSpec(S, O, pred, mergeOp, timeWindow).intrvls <==>
            exists i, j :: 0 <= i < |S.intrvls| && 0 <= j < |O.intrvls| &&
              Admitted(S.intrvls[i], O.intrvls[j], w) && pred(S.intrvls[i], O.intrvls[j]) &&
              x in mergeOp(S.intrvls[i], O.intrvls[j])
  {
    var w := Window(S, timeWindow);
    var cell := JoinCell(pred, mergeOp, w);
    var c := Seqs.Cross(S.intrvls, O.intrvls, cell);
    assert x in JoinSpec(S, O, pred, mergeOp, timeWindow).intrvls <==> x in multiset(c);
    Seqs.CrossMember(S.intrvls, O.intrvls, cell, x);
  }

  /** The predicate is evaluated on exactly the pairs within the window. */
  lemma EvaluatedPairs<P>(S: IntervalSet3D<P>, O: IntervalSet3D<P>, w: real, a: Interval3D<P>, b: Interval3D<P>)
    ensures (a, b) in Seqs.Cross(S.intrvls, O.intrvls, PairCell(w)) <==>
            a in S.intrvls && b in O.intrvls && Admitted(a, b, w)
  {
    Seqs.CrossMember(S.intrvls, O.intrvls, PairCell(w), (a, b));
    if a in S.intrvls && b in O.intrvls && Admitted(a, b, w) {
      var i :| 0 <= i < |S.intrvls| && S.intrvls[i] == a;
      var j :| 0 <= j < |O.intrvls| && O.intrvls[j] == b;
      assert (a, b) in PairCell(w)(S.intrvls[i], O.intrvls[j]);
    }
  }

  /** An empty receiver or an empty `other` gives an empty set. */
  lemma JoinOfEmpty<P>(S: IntervalSet3D<P>, O: IntervalSet3D<P>,
                       pred: (Interval3D<P>, Interval3D<P>) -> bool,
                       mergeOp: (Interval3D<P>, Interval3D<P>) -> seq<Interval3D<P>>,
                       timeWindow: Option<real>)
    requires S.intrvls == [] || O.intrvls == []
    ensures JoinSpec(S, O, pred, mergeOp, timeWindow).intrvls == []
  {
    Seqs.CrossOfEmpty(S.intrvls, O.intrvls, JoinCell(pred, mergeOp, Window(S, timeWindow)));
  }

  /** The output has as many intervals as the admitted, predicate-true pairs' merges produce. */
  lemma JoinSize<P>(S: IntervalSet3D<P>, O: IntervalSet3D<P>,
                    pred: (Interval3D<P>, Interval3D<P>) -> bool,
                    mergeOp: (Interval3D<P>, Interval3D<P>) -> seq<Interval3D<P>>,
                    timeWindow: Option<real>)
    ensures |JoinSpec(S, O, pred, mergeOp, timeWindow).intrvls| ==
            Seqs.CrossSize(S.intrvls, O.intrvls, |S.intrvls|, JoinCell(pred, mergeOp, Window(S, timeWindow)))
  {
    Seqs.CrossPrefixLength(S.intrvls, O.intrvls, |S.intrvls|, JoinCell(pred, mergeOp, Window(S, timeWindow)));
  }
}
