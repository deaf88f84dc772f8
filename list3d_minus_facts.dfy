// What `IntervalList3D.experimental_minus_temporal_only` of
// `rekall/interval_list_3d.py` promises: the start index loses no partner, a
// box without partners is copied, and every other output box is a piece of a
// receiver box, inside it in time, keeping its space, overlapping none of its
// partners in time and labelled by a partner touching one of its ends.

module List3DMinusFacts {
  import opened Common
  import opened Temporal
  import opened IntervalList3DModel
  import opened List3DSweep
  import opened List3DMinus
  import Seqs
  import IntervalListMinus

  // -------------------------------------------------------------------
  // The start index

  /** Before the receiver box at `i` is scanned, every box behind the start index ends before its window opens. */
  lemma {:induction false} MinusStartEndsBefore<P>(s: seq<Interval3D<P>>, o: seq<Interval3D<P>>, w: real, i: nat)
    requires StartsAscending(s) && i < |s|
    ensures EndsBefore(o, MinusStart(s, o, w, i), s[i], w)
  {
    if i > 0 {
      var st := MinusStart(s, o, w, i - 1);
      MinusStartEndsBefore(s, o, w, i - 1);
      NextStartSkipsEarly(s[i - 1], o, w, st, |o| - st);
      EndsBeforeLater(o, MinusStart(s, o, w, i), s[i - 1], s[i], w);
    }
  }

  /** The partners of `o[..n]` are those of `o[..st]` followed by those of `o[st..n]`. */
  lemma {:induction false} PartnersInSplit<P>(a: Interval3D<P>, o: seq<Interval3D<P>>, st: nat, n: nat,
                                              pred: (Interval3D<P>, Interval3D<P>) -> bool)
    requires st <= n <= |o|
    ensures PartnersIn(a, o, 0, n, pred) == PartnersIn(a, o, 0, st, pred) + PartnersIn(a, o, st, n - st, pred)
    decreases n
  {
    if st < n {
      PartnersInSplit(a, o, st, n - 1, pred);
    }
  }

  /** A stretch of `o` holding no partner contributes none. */
  lemma {:induction false} NoPartnersIn<P>(a: Interval3D<P>, o: seq<Interval3D<P>>, n: nat,
                                           pred: (Interval3D<P>, Interval3D<P>) -> bool)
    requires n <= |o|
    requires forall k :: 0 <= k < n ==> !IsPartner(pred, a, o[k])
    ensures PartnersIn(a, o, 0, n, pred) == []
  {
    if n > 0 {
      NoPartnersIn(a, o, n - 1, pred);
    }
  }

  /**
   * On a receiver sorted by start, with well-formed boxes and a window of at
   * least zero, the start index skips no partner: each receiver box collects
   * exactly what a scan of all of `other` would.
   */
  lemma RowPartnersAreAll<P>(s: seq<Interval3D<P>>, o: seq<Interval3D<P>>, w: real, i: nat,
                             pred: (Interval3D<P>, Interval3D<P>) -> bool)
    requires StartsAscending(s) && AllWellFormed(s) && AllWellFormed(o) && w >= 0.0 && i < |s|
    ensures RowPartners(s, o, w, i, pred) == PartnersIn(s[i], o, 0, |o|, pred)
  {
    var st := MinusStart(s, o, w, i);
    MinusStartEndsBefore(s, o, w, i);
    forall k | 0 <= k < st ensures !IsPartner(pred, s[i], o[k]) {
      EarlyDoesNotOverlap(s[i], o[k], w);
    }
    NoPartnersIn(s[i], o, st, pred);
    PartnersInSplit(s[i], o, st, |o|, pred);
    assert [] + PartnersIn(s[i], o, st, |o| - st, pred) == PartnersIn(s[i], o, st, |o| - st, pred);
  }

  /** Every box collected from `o[start..start + n]` is a partner found there. */
  lemma {:induction false} PartnersInSound<P>(a: Interval3D<P>, o: seq<Interval3D<P>>, start: nat, n: nat,
                                              pred: (Interval3D<P>, Interval3D<P>) -> bool)
    requires start + n <= |o|
    ensures forall j :: 0 <= j < |PartnersIn(a, o, start, n, pred)| ==>
              IsPartner(pred, a, PartnersIn(a, o, start, n, pred)[j]) &&
              exists k :: start <= k < start + n && o[k] == PartnersIn(a, o, start, n, pred)[j]
  {
    if n > 0 {
      PartnersInSound(a, o, start, n - 1, pred);
    }
  }

  /** Every partner in `o[start..start + n]` is collected. */
  lemma {:induction false} PartnersInComplete<P>(a: Interval3D<P>, o: seq<Interval3D<P>>, start: nat, n: nat,
                                                 pred: (Interval3D<P>, Interval3D<P>) -> bool)
    requires start + n <= |o|
    ensures forall k :: start <= k < start + n && IsPartner(pred, a, o[k]) ==> o[k] in PartnersIn(a, o, start, n, pred)
  {
    if n > 0 {
      PartnersInComplete(a, o, start, n - 1, pred);
      var prev := PartnersIn(a, o, start, n - 1, pred);
      var last := o[start + n - 1];
      assert PartnersIn(a, o, start, n, pred) == prev + (if IsPartner(pred, a, last) then [last] else []);
      forall k | start <= k < start + n && IsPartner(pred, a, o[k]) ensures o[k] in PartnersIn(a, o, start, n, pred) {
        if k < start + n - 1 {
          assert o[k] in prev;
        }
      }
    }
  }

  /** The partners, collected in the order of `o`, start in ascending order and are well-formed when `o`'s boxes are. */
  lemma {:induction false} PartnersInOrdered<P>(a: Interval3D<P>, o: seq<Interval3D<P>>, n: nat,
                                                pred: (Interval3D<P>, Interval3D<P>) -> bool)
    requires n <= |o| && StartsAscending(o) && AllWellFormed(o)
    ensures StartsAscending(PartnersIn(a, o, 0, n, pred)) && AllWellFormed(PartnersIn(a, o, 0, n, pred))
  {
    if n > 0 {
      PartnersInOrdered(a, o, n - 1, pred);
      PartnersInSound(a, o, 0, n - 1, pred);
      var prev := PartnersIn(a, o, 0, n - 1, pred);
      forall j | 0 <= j < |prev| ensures prev[j].t1 <= o[n - 1].t1 {
        var k :| 0 <= k < n - 1 && o[k] == prev[j];
        assert o[k].t1 <= o[n - 1].t1;
      }
    }
  }

  // -------------------------------------------------------------------
  // Cutting one box

  /** A box without partners is copied, and a box of length zero with partners leaves nothing. */
  lemma CutAgainstCases<P>(a: Interval3D<P>, ov: seq<Interval3D<P>>, payloadMerge: (P, P) -> P)
    ensures ov == [] ==> CutAgainst(a, ov, payloadMerge) == [a]
    ensures ov != [] && a.t1 == a.t2 ==> CutAgainst(a, ov, payloadMerge) == []
  {
    if ov == [] {
      var runs := Runs(a, ov);
      LabelledWithoutPartners(a, runs, |runs|, payloadMerge);
    }
  }

  lemma {:induction false} LabelledWithoutPartners<P>(a: Interval3D<P>, runs: seq<(real, real)>, n: nat, payloadMerge: (P, P) -> P)
    requires n <= |runs|
    ensures Labelled(a, runs, n, [], payloadMerge) == []
  {
    if n > 0 {
      LabelledWithoutPartners(a, runs, n - 1, payloadMerge);
    }
  }

  /** `x` is the run `run` in `a`'s space, labelled by a partner touching one of its ends. */
  ghost predicate LabelledRun<P>(a: Interval3D<P>, ov: seq<Interval3D<P>>, payloadMerge: (P, P) -> P,
                           run: (real, real), x: Interval3D<P>)
  {
    x.t1 == run.0 && x.t2 == run.1 && x.x1 == a.x1 && x.x2 == a.x2 && x.y1 == a.y1 && x.y2 == a.y2 &&
    exists b :: b in ov && (b.t2 == run.0 || b.t1 == run.1) && x.payload == payloadMerge(a.payload, b.payload)
  }

  lemma {:induction false} LabelledFromRuns<P>(a: Interval3D<P>, runs: seq<(real, real)>, n: nat,
                                               ov: seq<Interval3D<P>>, payloadMerge: (P, P) -> P, x: Interval3D<P>)
    requires n <= |runs|
    requires x in Labelled(a, runs, n, ov, payloadMerge)
    ensures exists m :: 0 <= m < n && LabelledRun(a, ov, payloadMerge, runs[m], x)
  {
    if x in Labelled(a, runs, n - 1, ov, payloadMerge) {
      LabelledFromRuns(a, runs, n - 1, ov, payloadMerge, x);
    } else {
      assert LabelledRun(a, ov, payloadMerge, runs[n - 1], x);
    }
  }

  /** The time spans of well-formed boxes sorted by start, as the cut-point loops see them. */
  lemma FlatOrdered<P>(ov: seq<Interval3D<P>>)
    requires StartsAscending(ov) && AllWellFormed(ov)
    ensures IntervalListMinus.Ascending(Seqs.Map(ov, Flat)) && IntervalListMinus.AllWellFormed(Seqs.Map(ov, Flat))
  {
  }

  /** A piece is a run between two cut points of `a`, in `a`'s space, labelled by a partner touching one of its ends. */
  lemma PieceIsRun<P>(a: Interval3D<P>, ov: seq<Interval3D<P>>, payloadMerge: (P, P) -> P, x: Interval3D<P>)
    requires x in CutAgainst(a, ov, payloadMerge) && ov != []
    ensures IntervalListMinus.IsRun(IntervalListMinus.EndpointList(Flat(a), Seqs.Map(ov, Flat)), Seqs.Map(ov, Flat), (x.t1, x.t2))
    ensures x.x1 == a.x1 && x.x2 == a.x2 && x.y1 == a.y1 && x.y2 == a.y2
    ensures exists b :: b in ov && (b.t2 == x.t1 || b.t1 == x.t2) && x.payload == payloadMerge(a.payload, b.payload)
  {
    var f := Seqs.Map(ov, Flat);
    var eps := IntervalListMinus.EndpointList(Flat(a), f);
    var runs := Runs(a, ov);
    LabelledFromRuns(a, runs, |runs|, ov, payloadMerge, x);
    var m :| 0 <= m < |runs| && LabelledRun(a, ov, payloadMerge, runs[m], x);
    IntervalListMinus.RunsFromAreRuns(eps, f, 0, -1);
    assert IntervalListMinus.IsRun(eps, f, runs[m]);
  }

  /** The cut points of `a` against partners it overlaps lie within `a`. */
  lemma CutPointsWithin<P>(a: Interval3D<P>, ov: seq<Interval3D<P>>, y: real)
    requires a.t1 <= a.t2 && AllWellFormed(ov)
    requires forall k :: 0 <= k < |ov| ==> Overlaps(TimeOf(a), TimeOf(ov[k]))
    requires y in IntervalListMinus.EndpointList(Flat(a), Seqs.Map(ov, Flat))
    ensures a.t1 <= y <= a.t2
  {
    var f := Seqs.Map(ov, Flat);
    IntervalListMinus.EndpointListEnumerates(Flat(a), f);
    IntervalListMinus.EndpointsWithin(Flat(a), f);
  }

  /** A run accepted by the `end` scan over partners sorted by start overlaps none of them. */
  lemma ClearRunAvoids<P>(ov: seq<Interval3D<P>>, x: Interval3D<P>)
    requires x.t1 <= x.t2 && StartsAscending(ov) && AllWellFormed(ov)
    requires IntervalListMinus.EndClear(x.t1, x.t2, Seqs.Map(ov, Flat), 0)
    ensures forall b :: b in ov ==> !Overlaps(TimeOf(b), TimeOf(x))
  {
    var f := Seqs.Map(ov, Flat);
    FlatOrdered(ov);
    IntervalListMinus.EndClearMeaning(x.t1, x.t2, f, 0);
    forall b | b in ov ensures !Overlaps(TimeOf(b), TimeOf(x)) {
      var k :| 0 <= k < |ov| && ov[k] == b;
      assert !Overlaps(f[k], Interval(x.t1, x.t2, 0));
    }
  }

  /**
   * Against a non-empty list of partners sorted by start, each box `a` is cut
   * into pieces of positive length inside it in time, in its space, overlapping
   * no partner in time, each labelled by a partner touching one of its ends.
   */
  lemma CutAgainstPieces<P>(a: Interval3D<P>, ov: seq<Interval3D<P>>, payloadMerge: (P, P) -> P, x: Interval3D<P>)
    requires a.t1 <= a.t2 && ov != [] && StartsAscending(ov) && AllWellFormed(ov)
    requires forall k :: 0 <= k < |ov| ==> Overlaps(TimeOf(a), TimeOf(ov[k]))
    requires x in CutAgainst(a, ov, payloadMerge)
    ensures a.t1 <= x.t1 < x.t2 <= a.t2
    ensures x.x1 == a.x1 && x.x2 == a.x2 && x.y1 == a.y1 && x.y2 == a.y2
    ensures forall b :: b in ov ==> !Overlaps(TimeOf(b), TimeOf(x))
    ensures exists b :: b in ov && (b.t2 == x.t1 || b.t1 == x.t2) && x.payload == payloadMerge(a.payload, b.payload)
  {
    PieceIsRun(a, ov, payloadMerge, x);
    CutPointsWithin(a, ov, x.t1);
    CutPointsWithin(a, ov, x.t2);
    ClearRunAvoids(ov, x);
  }

  // -------------------------------------------------------------------
  // The whole difference

  /** A receiver box with no partner in `other` is copied as it is. */
  lemma MinusRowAlone<P>(a: Interval3D<P>, o: seq<Interval3D<P>>, pred: (Interval3D<P>, Interval3D<P>) -> bool,
                         payloadMerge: (P, P) -> P)
    requires forall k :: 0 <= k < |o| ==> !IsPartner(pred, a, o[k])
    ensures CutAgainst(a, PartnersIn(a, o, 0, |o|, pred), payloadMerge) == [a]
  {
    NoPartnersIn(a, o, |o|, pred);
    CutAgainstCases(a, PartnersIn(a, o, 0, |o|, pred), payloadMerge);
  }

  /**
   * A well-formed receiver box `a` with a partner in a sorted `other` is cut
   * into pieces of positive length inside it in time, in its space, that
   * overlap none of its partners in time.
   */
  lemma MinusRowPieces<P>(a: Interval3D<P>, o: seq<Interval3D<P>>, pred: (Interval3D<P>, Interval3D<P>) -> bool,
                          payloadMerge: (P, P) -> P, x: Interval3D<P>, p: nat)
    requires a.t1 <= a.t2 && StartsAscending(o) && AllWellFormed(o)
    requires p < |o| && IsPartner(pred, a, o[p])
    requires x in CutAgainst(a, PartnersIn(a, o, 0, |o|, pred), payloadMerge)
    ensures a.t1 <= x.t1 < x.t2 <= a.t2
    ensures x.x1 == a.x1 && x.x2 == a.x2 && x.y1 == a.y1 && x.y2 == a.y2
    ensures forall k :: 0 <= k < |o| && IsPartner(pred, a, o[k]) ==> !Overlaps(TimeOf(o[k]), TimeOf(x))
  {
    var ov := PartnersIn(a, o, 0, |o|, pred);
    PartnersInSound(a, o, 0, |o|, pred);
    PartnersInComplete(a, o, 0, |o|, pred);
    assert o[p] in ov;
    PartnersInOrdered(a, o, |o|, pred);
    CutAgainstPieces(a, ov, payloadMerge, x);
  }
}
