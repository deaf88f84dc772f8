// `IntervalList3D.minus` and `IntervalList3D.experimental_minus_temporal_only`
// of `rekall/interval_list_3d.py`. The first is not implemented. The second
// cuts each receiver box, in time only, against all of its partners in
// `other`: the boxes that overlap it in time and satisfy the predicate. Each
// receiver box scans `other` from a start index that moves forward as in
// `join`, but the scan does not break early.
//
// The cut points, the runs between them and the scans that accept a run read
// only the start and end times of the partners. They are the loops of
// `IntervalList.minus`, so the model runs those loops (`IntervalListMinus`) on
// the partners' time spans (`Flat`).

module List3DMinus {
  import opened Common
  import opened Temporal
  import opened IntervalList3DModel
  import opened List3DSweep
  import List3DJoin
  import Seqs
  import IntervalListMinus

  /** `minus(other, ...)`: raises `NotImplementedError` whatever it is given. */
  function Minus<P>(L: IntervalList3D<P>, other: IntervalList3D<P>): (r: Result<IntervalList3D<P>>)
    ensures r.Err? && r.error == NotImplemented
  {
    Err(NotImplemented)
  }

  /** The pairs the difference works on: overlapping in time and accepted by the predicate. */
  predicate IsPartner<P>(pred: (Interval3D<P>, Interval3D<P>) -> bool, a: Interval3D<P>, b: Interval3D<P>)
  {
    Overlaps(TimeOf(a), TimeOf(b)) && pred(a, b)
  }

  /** `overlapping` once the scan has looked at `o[start..start + n]`. */
  function PartnersIn<P>(a: Interval3D<P>, o: seq<Interval3D<P>>, start: nat, n: nat,
                         pred: (Interval3D<P>, Interval3D<P>) -> bool): (r: seq<Interval3D<P>>)
    requires start + n <= |o|
    ensures |r| <= n
  {
    if n == 0 then []
    else PartnersIn(a, o, start, n - 1, pred) + (if IsPartner(pred, a, o[start + n - 1]) then [o[start + n - 1]] else [])
  }

  lemma PartnersInNext<P>(a: Interval3D<P>, o: seq<Interval3D<P>>, start: nat, n: nat,
                          pred: (Interval3D<P>, Interval3D<P>) -> bool)
    requires start + n < |o|
    ensures PartnersIn(a, o, start, n + 1, pred) ==
            PartnersIn(a, o, start, n, pred) + (if IsPartner(pred, a, o[start + n]) then [o[start + n]] else [])
  {
  }

  /** `start_index` when the outer loop reaches the receiver box at position `i`: each scan runs to the end of `other`. */
  function MinusStart<P>(s: seq<Interval3D<P>>, o: seq<Interval3D<P>>, w: real, i: nat): (r: nat)
    requires i <= |s|
    ensures r <= |o|
  {
    if i == 0 then 0
    else
      var st := MinusStart(s, o, w, i - 1);
      NextStart(s[i - 1], o, w, st, |o| - st)
  }

  /** The partners the receiver box at `i` collects: those in `other` from its start index on. */
  function RowPartners<P>(s: seq<Interval3D<P>>, o: seq<Interval3D<P>>, w: real, i: nat,
                          pred: (Interval3D<P>, Interval3D<P>) -> bool): seq<Interval3D<P>>
    requires i < |s|
  {
    var st := MinusStart(s, o, w, i);
    PartnersIn(s[i], o, st, |o| - st, pred)
  }

  // -------------------------------------------------------------------
  // Cutting one box

  /** The time span of a box, as the interval the cut-point loops read. */
  function Flat<P>(b: Interval3D<P>): Interval<int>
  {
    Interval(b.t1, b.t2, 0)
  }

  /** `longest_subsequences`: the runs between the cut points of `a` that no partner overlaps. */
  function Runs<P>(a: Interval3D<P>, ov: seq<Interval3D<P>>): seq<(real, real)>
  {
    var f := Seqs.Map(ov, Flat);
    IntervalListMinus.RunsFrom(IntervalListMinus.EndpointList(Flat(a), f), f, 0, -1)
  }

  /** The first partner touching the run `(start, end)` at one of its ends. */
  function FirstTouching<P>(ov: seq<Interval3D<P>>, start: real, end: real, k: nat): (r: Option<Interval3D<P>>)
    requires k <= |ov|
    ensures r.Some? ==> r.value in ov && (r.value.t2 == start || r.value.t1 == end)
    decreases |ov| - k
  {
    if k == |ov| then None
    else if ov[k].t2 == start || ov[k].t1 == end then Some(ov[k])
    else FirstTouching(ov, start, end, k + 1)
  }

  /** The box the last loop makes of a run: `a`'s space, the run's time, a merged payload. */
  function Piece<P>(a: Interval3D<P>, start: real, end: real, payload: P): Interval3D<P>
  {
    Interval3D(start, end, a.x1, a.x2, a.y1, a.y2, payload)
  }

  /** The boxes the last loop makes of the first `n` runs. */
  function Labelled<P>(a: Interval3D<P>, runs: seq<(real, real)>, n: nat, ov: seq<Interval3D<P>>,
                       payloadMerge: (P, P) -> P): seq<Interval3D<P>>
    requires n <= |runs|
  {
    if n == 0 then []
    else
      var (start, end) := runs[n - 1];
      Labelled(a, runs, n - 1, ov, payloadMerge) +
      match FirstTouching(ov, start, end, 0)
      case None => []
      case Some(b) => [Piece(a, start, end, payloadMerge(a.payload, b.payload))]
  }

  /**
   * What the outer loop appends for `a` with partners `ov`: a copy of `a` when
   * there are none; nothing more when `a` has length zero and partners;
   * otherwise the labelled runs.
   */
  function CutAgainst<P>(a: Interval3D<P>, ov: seq<Interval3D<P>>, payloadMerge: (P, P) -> P): seq<Interval3D<P>>
  {
    if ov != [] && a.Length() == 0.0 then []
    else
      var runs := Runs(a, ov);
      (if ov == [] then [a] else []) + Labelled(a, runs, |runs|, ov, payloadMerge)
  }

  /** The output after the first `m` receiver boxes. */
  function CutRows<P>(s: seq<Interval3D<P>>, o: seq<Interval3D<P>>, w: real, m: nat,
                      pred: (Interval3D<P>, Interval3D<P>) -> bool, payloadMerge: (P, P) -> P): seq<Interval3D<P>>
    requires m <= |s|
  {
    if m == 0 then []
    else CutRows(s, o, w, m - 1, pred, payloadMerge) + CutAgainst(s[m - 1], RowPartners(s, o, w, m - 1, pred), payloadMerge)
  }

  /** One more receiver box: its pieces are appended. */
  lemma CutRowsNext<P>(s: seq<Interval3D<P>>, o: seq<Interval3D<P>>, w: real, i: nat,
                       pred: (Interval3D<P>, Interval3D<P>) -> bool, payloadMerge: (P, P) -> P)
    requires i < |s|
    ensures CutRows(s, o, w, i + 1, pred, payloadMerge) ==
            CutRows(s, o, w, i, pred, payloadMerge) + CutAgainst(s[i], RowPartners(s, o, w, i, pred), payloadMerge)
  {
  }

  /** One more receiver box: the start index moves on by its scan. */
  lemma MinusStartNext<P>(s: seq<Interval3D<P>>, o: seq<Interval3D<P>>, w: real, i: nat)
    requires i < |s|
    ensures MinusStart(s, o, w, i + 1) == NextStart(s[i], o, w, MinusStart(s, o, w, i), |o| - MinusStart(s, o, w, i))
  {
  }

  /** `experimental_minus_temporal_only`: not implemented pair by pair; otherwise the cut boxes of every receiver box. */
  function MinusSpec<P>(L: IntervalList3D<P>, other: IntervalList3D<P>, recursiveDiff: bool,
                        pred: (Interval3D<P>, Interval3D<P>) -> bool, payloadMerge: (P, P) -> P,
                        workingWindow: Option<real>): Result<IntervalList3D<P>>
  {
    if !recursiveDiff then Err(NotImplemented)
    else
      var s := L.intrvls;
      Ok(Make(CutRows(s, other.intrvls, List3DJoin.Window(L, workingWindow), |s|, pred, payloadMerge)))
  }

  // -------------------------------------------------------------------
  // The loops

  /** The scan of `other[start_index:]` for the receiver box `a`: its partners and `new_start_index`. */
  method CollectPartners<P>(a: Interval3D<P>, o: seq<Interval3D<P>>, w: real, start: nat,
                            pred: (Interval3D<P>, Interval3D<P>) -> bool)
    returns (overlapping: seq<Interval3D<P>>, newStart: nat)
    requires start <= |o|
    ensures overlapping == PartnersIn(a, o, start, |o| - start, pred)
    ensures newStart == NextStart(a, o, w, start, |o| - start)
  {
    overlapping := [];
    var found: Option<nat> := None;
    for idx := 0 to |o| - start
      invariant overlapping == PartnersIn(a, o, start, idx, pred)
      invariant found == FirstQualifying(a, o, w, start, idx)
    {
      var intrvl2 := o[start + idx];
      FirstQualifyingNext(a, o, w, start, idx);
      PartnersInNext(a, o, start, idx, pred);
      if found.None? {
        if a.t1 < intrvl2.t1 {
          found := Some(idx);
        } else if a.t1 - w <= intrvl2.t2 {
          found := Some(idx);
        }
      }
      if Overlaps(TimeOf(a), TimeOf(intrvl2)) && pred(a, intrvl2) {
        overlapping := overlapping + [intrvl2];
      }
    }
    newStart := if found.Some? then start + found.value else start;
  }

  /** The last loop for one receiver box: labelling every run by its first touching partner. */
  method LabelRuns<P>(a: Interval3D<P>, runs: seq<(real, real)>, overlapping: seq<Interval3D<P>>,
                      payloadMerge: (P, P) -> P)
    returns (pieces: seq<Interval3D<P>>)
    ensures pieces == Labelled(a, runs, |runs|, overlapping, payloadMerge)
  {
    pieces := [];
    for n := 0 to |runs|
      invariant pieces == Labelled(a, runs, n, overlapping, payloadMerge)
    {
      var (start, end) := runs[n];
      var k := 0;
      while k < |overlapping| && !(overlapping[k].t2 == start || overlapping[k].t1 == end)
        invariant k <= |overlapping|
        invariant FirstTouching(overlapping, start, end, k) == FirstTouching(overlapping, start, end, 0)
      {
        k := k + 1;
      }
      if k < |overlapping| {
        pieces := pieces + [Piece(a, start, end, payloadMerge(a.payload, overlapping[k].payload))];
      }
    }
  }

  /** The body of the outer loop for the receiver box `intrvl1`, whose scan starts at `start`. */
  method MinusRow<P>(intrvl1: Interval3D<P>, o: seq<Interval3D<P>>, w: real, start: nat,
                     pred: (Interval3D<P>, Interval3D<P>) -> bool, payloadMerge: (P, P) -> P)
    returns (pieces: seq<Interval3D<P>>, newStart: nat)
    requires start <= |o|
    ensures pieces == CutAgainst(intrvl1, PartnersIn(intrvl1, o, start, |o| - start, pred), payloadMerge)
    ensures newStart == NextStart(intrvl1, o, w, start, |o| - start)
  {
    var overlapping;
    overlapping, newStart := CollectPartners(intrvl1, o, w, start, pred);
    pieces := [];
    if |overlapping| == 0 {
      pieces := pieces + [intrvl1];
    }
    if intrvl1.Length() == 0.0 && |overlapping| != 0 {
      return;
    }
    // the cut points and the runs, from the partners' time spans
    var flat := Seqs.Map(overlapping, Flat);
    var endpointsList := IntervalListMinus.Endpoints(Flat(intrvl1), flat);
    var longest := IntervalListMinus.LongestRuns(endpointsList, flat);
    var labelled := LabelRuns(intrvl1, longest, overlapping, payloadMerge);
    pieces := pieces + labelled;
  }

  /** The outer loop over the receiver's boxes `s` with window `w`. */
  method MinusSweep<P>(s: seq<Interval3D<P>>, o: seq<Interval3D<P>>, w: real,
                       pred: (Interval3D<P>, Interval3D<P>) -> bool, payloadMerge: (P, P) -> P)
    returns (output: seq<Interval3D<P>>)
    ensures output == CutRows(s, o, w, |s|, pred, payloadMerge)
  {
    output := [];
    var startIndex: nat := 0;
    for i := 0 to |s|
      invariant startIndex == MinusStart(s, o, w, i)
      invariant output == CutRows(s, o, w, i, pred, payloadMerge)
    {
      CutRowsNext(s, o, w, i, pred, payloadMerge);
      MinusStartNext(s, o, w, i);
      var pieces;
      pieces, startIndex := MinusRow(s[i], o, w, startIndex, pred, payloadMerge);
      output := output + pieces;
    }
  }

  /** `experimental_minus_temporal_only(other, recursive_diff, predicate, payload_merge_op, working_window)` */
  method ExperimentalMinus<P>(L: IntervalList3D<P>, other: IntervalList3D<P>, recursiveDiff: bool,
                              pred: (Interval3D<P>, Interval3D<P>) -> bool, payloadMerge: (P, P) -> P,
                              workingWindow: Option<real>)
    returns (r: Result<IntervalList3D<P>>)
    ensures r == MinusSpec(L, other, recursiveDiff, pred, payloadMerge, workingWindow)
  {
    if !recursiveDiff {
      return Err(NotImplemented);
    }
    var w := if workingWindow.None? then L.workingWindow else workingWindow.value;
    var output := MinusSweep(L.intrvls, other.intrvls, w, pred, payloadMerge);
    r := Ok(Make(output));
  }
}
