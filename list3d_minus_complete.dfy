// What `IntervalList3D.experimental_minus_temporal_only` of
// `rekall/interval_list_3d.py` leaves of a receiver box, in time: against
// partners that each hold some time, the pieces hold exactly the times of
// the box that no partner holds. The cut points and the runs are those of
// `IntervalList.minus` on the partners' time spans, so the argument of
// `IntervalListMinusFacts` carries over.

module List3DMinusComplete {
  import opened Common
  import opened Temporal
  import opened IntervalList3DModel
  import opened List3DMinus
  import opened List3DMinusFacts
  import Seqs
  import IntervalListMinus
  import IntervalListMinusFacts

  /** A box that holds some time. */
  predicate HoldsTime<P>(b: Interval3D<P>)
  {
    b.t1 < b.t2
  }

  /** Partners sorted by start, well-formed, each holding time and overlapping `a` in time. */
  ghost predicate Cutting<P>(a: Interval3D<P>, ov: seq<Interval3D<P>>)
  {
    a.t1 <= a.t2 && StartsAscending(ov) && AllWellFormed(ov) &&
    forall k :: 0 <= k < |ov| ==> Overlaps(TimeOf(a), TimeOf(ov[k])) && HoldsTime(ov[k])
  }

  /** The time spans of such partners are what the cut-point loops need. */
  lemma FlatCutting<P>(a: Interval3D<P>, ov: seq<Interval3D<P>>)
    requires Cutting(a, ov)
    ensures IntervalListMinusFacts.Cutting(Flat(a), Seqs.Map(ov, Flat))
  {
    FlatOrdered(ov);
  }

  lemma {:induction false} FirstTouchingFinds<P>(ov: seq<Interval3D<P>>, s: real, e: real, j: nat, k: nat)
    requires j <= k < |ov| && (ov[k].t2 == s || ov[k].t1 == e)
    ensures FirstTouching(ov, s, e, j).Some?
    decreases k - j
  {
    if j < k && !(ov[j].t2 == s || ov[j].t1 == e) {
      FirstTouchingFinds(ov, s, e, j + 1, k);
    }
  }

  lemma {:induction false} LabelledHas<P>(a: Interval3D<P>, runs: seq<(real, real)>, n: nat, ov: seq<Interval3D<P>>,
                                          payloadMerge: (P, P) -> P, m: nat)
    requires m < n <= |runs|
    requires FirstTouching(ov, runs[m].0, runs[m].1, 0).Some?
    ensures Piece(a, runs[m].0, runs[m].1, payloadMerge(a.payload, FirstTouching(ov, runs[m].0, runs[m].1, 0).value.payload))
              in Labelled(a, runs, n, ov, payloadMerge)
  {
    if m < n - 1 {
      LabelledHas(a, runs, n - 1, ov, payloadMerge, m);
    }
  }

  /** Against partners holding time, every time of `a` that no partner holds lies in one of the pieces. */
  lemma CutAgainstComplete<P>(a: Interval3D<P>, ov: seq<Interval3D<P>>, payloadMerge: (P, P) -> P, t: real)
    requires Cutting(a, ov) && ov != []
    requires a.t1 <= t < a.t2
    requires forall k :: 0 <= k < |ov| ==> !(ov[k].t1 <= t < ov[k].t2)
    ensures exists x :: x in CutAgainst(a, ov, payloadMerge) && x.t1 <= t < x.t2
  {
    var f := Seqs.Map(ov, Flat);
    var eps := IntervalListMinus.EndpointList(Flat(a), f);
    var runs := Runs(a, ov);
    FlatCutting(a, ov);
    forall k | 0 <= k < |f| ensures !(f[k].start <= t < f[k].end) {
      assert f[k] == Flat(ov[k]);
    }
    var i := IntervalListMinusFacts.RunsComplete(Flat(a), f, t);
    var k := IntervalListMinusFacts.FreeStepTouches(Flat(a), f, i);
    assert f[k] == Flat(ov[k]);
    var m :| 0 <= m < |runs| && runs[m] == (eps[i], eps[i + 1]);
    FirstTouchingFinds(ov, eps[i], eps[i + 1], 0, k);
    LabelledHas(a, runs, |runs|, ov, payloadMerge, m);
    assert CutAgainst(a, ov, payloadMerge) == Labelled(a, runs, |runs|, ov, payloadMerge);
  }

  /** Some partner of `a` in `o` holds the time `t`. */
  ghost predicate PartnerHolds<P>(a: Interval3D<P>, o: seq<Interval3D<P>>, pred: (Interval3D<P>, Interval3D<P>) -> bool, t: real)
  {
    exists k :: 0 <= k < |o| && IsPartner(pred, a, o[k]) && o[k].t1 <= t < o[k].t2
  }

  /** The partners the scan collects are partners found in `o`, sorted by start. */
  lemma Collected<P>(a: Interval3D<P>, o: seq<Interval3D<P>>, pred: (Interval3D<P>, Interval3D<P>) -> bool)
    requires StartsAscending(o) && AllWellFormed(o)
    ensures StartsAscending(PartnersIn(a, o, 0, |o|, pred)) && AllWellFormed(PartnersIn(a, o, 0, |o|, pred))
    ensures forall b :: b in PartnersIn(a, o, 0, |o|, pred) <==> exists k :: 0 <= k < |o| && o[k] == b && IsPartner(pred, a, b)
  {
    var ov := PartnersIn(a, o, 0, |o|, pred);
    PartnersInSound(a, o, 0, |o|, pred);
    PartnersInComplete(a, o, 0, |o|, pred);
    PartnersInOrdered(a, o, |o|, pred);
    forall b | b in ov ensures exists k :: 0 <= k < |o| && o[k] == b && IsPartner(pred, a, b) {
      var j :| 0 <= j < |ov| && ov[j] == b;
    }
  }

  /**
   * When every partner holds some time, the pieces the difference makes of a
   * well-formed receiver box hold exactly the times of the box that no
   * partner holds.
   */
  lemma MinusRowIsDifference<P>(a: Interval3D<P>, o: seq<Interval3D<P>>, pred: (Interval3D<P>, Interval3D<P>) -> bool,
                                payloadMerge: (P, P) -> P, t: real)
    requires a.t1 <= a.t2 && StartsAscending(o) && AllWellFormed(o)
    requires forall k :: 0 <= k < |o| && IsPartner(pred, a, o[k]) ==> o[k].t1 < o[k].t2
    requires a.t1 <= t < a.t2
    ensures (exists x :: x in CutAgainst(a, PartnersIn(a, o, 0, |o|, pred), payloadMerge) && x.t1 <= t < x.t2)
            <==> !PartnerHolds(a, o, pred, t)
  {
    var ov := PartnersIn(a, o, 0, |o|, pred);
    var cut := CutAgainst(a, ov, payloadMerge);
    Collected(a, o, pred);
    if PartnerHolds(a, o, pred, t) {
      var k :| 0 <= k < |o| && IsPartner(pred, a, o[k]) && o[k].t1 <= t < o[k].t2;
      forall x | x in cut ensures !(x.t1 <= t < x.t2) {
        MinusRowPieces(a, o, pred, payloadMerge, x, k);
        OverlapsPositive(TimeOf(o[k]), TimeOf(x));
      }
    } else if ov == [] {
      CutAgainstCases(a, ov, payloadMerge);
      assert a in cut;
    } else {
      forall j | 0 <= j < |ov| ensures Overlaps(TimeOf(a), TimeOf(ov[j])) && HoldsTime(ov[j]) && !(ov[j].t1 <= t < ov[j].t2) {
        assert ov[j] in ov;
      }
      CutAgainstComplete(a, ov, payloadMerge, t);
    }
  }

  // -------------------------------------------------------------------
  // Partners of length zero

  /**
   * As written, a partner of length zero inside a box makes all of the box
   * vanish: a box over `[0, 10]` cut against one over `[5, 5]` leaves nothing.
   */
  lemma PointPartnerSwallows<P>(a: Interval3D<P>, ov: seq<Interval3D<P>>, payloadMerge: (P, P) -> P)
    requires a.t1 == 0.0 && a.t2 == 10.0
    requires |ov| == 1 && ov[0].t1 == 5.0 && ov[0].t2 == 5.0
    ensures CutAgainst(a, ov, payloadMerge) == []
  {
    var f := Seqs.Map(ov, Flat);
    assert f == [Interval(5.0, 5.0, 0)];
    IntervalListMinusFacts.PointCutPoints(Flat(a), f);
    IntervalListMinusFacts.PointRuns([0.0, 5.0, 10.0], f);
  }

  /**
   * The evidently intended cut of a box: partners of length zero hold no
   * time, so they are set aside, as the difference of interval sets does.
   * A box of length zero with partners still leaves nothing, as written.
   */
  function CutAgainstIntended<P>(a: Interval3D<P>, ov: seq<Interval3D<P>>, payloadMerge: (P, P) -> P): seq<Interval3D<P>>
  {
    if ov != [] && a.Length() == 0.0 then []
    else CutAgainst(a, Seqs.Filter(ov, HoldsTime), payloadMerge)
  }

  lemma {:induction false} FilterKeepsOrder<P>(s: seq<Interval3D<P>>)
    requires StartsAscending(s) && AllWellFormed(s)
    ensures StartsAscending(Seqs.Filter(s, HoldsTime)) && AllWellFormed(Seqs.Filter(s, HoldsTime))
  {
    if s != [] {
      var n := |s| - 1;
      assert StartsAscending(s[..n]) && AllWellFormed(s[..n]);
      FilterKeepsOrder(s[..n]);
      Seqs.FilterMembers(s[..n], HoldsTime);
      var f := Seqs.Filter(s[..n], HoldsTime);
      forall j | 0 <= j < |f| ensures f[j].t1 <= s[n].t1 {
        assert f[j] in s[..n];
      }
      var g := Seqs.Filter(s, HoldsTime);
      assert g == f + (if HoldsTime(s[n]) then [s[n]] else []);
      forall j, k | 0 <= j <= k < |g| ensures g[j].t1 <= g[k].t1 {
        if k < |f| {
          assert g[j] == f[j] && g[k] == f[k];
        }
      }
    }
  }

  /** Setting aside the partners of length zero keeps them sorted, well-formed and overlapping `a`. */
  lemma FilteredCutting<P>(a: Interval3D<P>, o: seq<Interval3D<P>>, pred: (Interval3D<P>, Interval3D<P>) -> bool)
    requires a.t1 <= a.t2 && StartsAscending(o) && AllWellFormed(o)
    ensures Cutting(a, Seqs.Filter(PartnersIn(a, o, 0, |o|, pred), HoldsTime))
  {
    PartnersInOrdered(a, o, |o|, pred);
    FilterKeepsOrder(PartnersIn(a, o, 0, |o|, pred));
    FilteredOverlap(a, o, pred);
  }

  lemma FilteredOverlap<P>(a: Interval3D<P>, o: seq<Interval3D<P>>, pred: (Interval3D<P>, Interval3D<P>) -> bool)
    ensures forall j :: 0 <= j < |Seqs.Filter(PartnersIn(a, o, 0, |o|, pred), HoldsTime)| ==>
              Overlaps(TimeOf(a), TimeOf(Seqs.Filter(PartnersIn(a, o, 0, |o|, pred), HoldsTime)[j]))
  {
    var ov := PartnersIn(a, o, 0, |o|, pred);
    var f := Seqs.Filter(ov, HoldsTime);
    PartnersInSound(a, o, 0, |o|, pred);
    Seqs.FilterMembers(ov, HoldsTime);
    forall j | 0 <= j < |f| ensures Overlaps(TimeOf(a), TimeOf(f[j])) {
      assert f[j] in ov;
      var i :| 0 <= i < |ov| && ov[i] == f[j];
    }
  }

  /** When no partner holds `t`, no partner kept by the filter does. */
  lemma FilteredFree<P>(a: Interval3D<P>, o: seq<Interval3D<P>>, pred: (Interval3D<P>, Interval3D<P>) -> bool, t: real)
    requires !PartnerHolds(a, o, pred, t)
    ensures forall j :: 0 <= j < |Seqs.Filter(PartnersIn(a, o, 0, |o|, pred), HoldsTime)| ==>
              !(Seqs.Filter(PartnersIn(a, o, 0, |o|, pred), HoldsTime)[j].t1 <= t < Seqs.Filter(PartnersIn(a, o, 0, |o|, pred), HoldsTime)[j].t2)
  {
    var ov := PartnersIn(a, o, 0, |o|, pred);
    var f := Seqs.Filter(ov, HoldsTime);
    PartnersInSound(a, o, 0, |o|, pred);
    Seqs.FilterMembers(ov, HoldsTime);
    forall j | 0 <= j < |f| ensures !(f[j].t1 <= t < f[j].t2) {
      assert f[j] in ov;
      var i :| 0 <= i < |ov| && ov[i] == f[j];
    }
  }

  /** A partner holding some time survives the filter. */
  lemma HolderKept<P>(a: Interval3D<P>, o: seq<Interval3D<P>>, pred: (Interval3D<P>, Interval3D<P>) -> bool, k: nat)
    requires k < |o| && IsPartner(pred, a, o[k]) && HoldsTime(o[k])
    ensures o[k] in Seqs.Filter(PartnersIn(a, o, 0, |o|, pred), HoldsTime)
  {
    PartnersInComplete(a, o, 0, |o|, pred);
    Seqs.FilterMembers(PartnersIn(a, o, 0, |o|, pred), HoldsTime);
  }

  /** A partner holding `t` keeps `t` out of every piece. */
  lemma HolderExcludes<P>(a: Interval3D<P>, ov: seq<Interval3D<P>>, payloadMerge: (P, P) -> P, b: Interval3D<P>, t: real)
    requires Cutting(a, ov) && b in ov && b.t1 <= t < b.t2
    ensures forall x :: x in CutAgainst(a, ov, payloadMerge) ==> !(x.t1 <= t < x.t2)
  {
    forall x | x in CutAgainst(a, ov, payloadMerge) ensures !(x.t1 <= t < x.t2) {
      List3DMinusFacts.CutAgainstPieces(a, ov, payloadMerge, x);
      OverlapsPositive(TimeOf(b), TimeOf(x));
    }
  }

  /** With partners of length zero set aside, the pieces of a receiver box hold exactly the times of the box that no partner holds. */
  lemma MinusRowIntendedIsDifference<P>(a: Interval3D<P>, o: seq<Interval3D<P>>, pred: (Interval3D<P>, Interval3D<P>) -> bool,
                                        payloadMerge: (P, P) -> P, t: real)
    requires a.t1 <= a.t2 && StartsAscending(o) && AllWellFormed(o)
    requires a.t1 <= t < a.t2
    ensures (exists x :: x in CutAgainstIntended(a, PartnersIn(a, o, 0, |o|, pred), payloadMerge) && x.t1 <= t < x.t2)
            <==> !PartnerHolds(a, o, pred, t)
  {
    var ov := PartnersIn(a, o, 0, |o|, pred);
    var f := Seqs.Filter(ov, HoldsTime);
    var cut := CutAgainstIntended(a, ov, payloadMerge);
    assert cut == CutAgainst(a, f, payloadMerge);
    FilteredCutting(a, o, pred);
    if PartnerHolds(a, o, pred, t) {
      var k :| 0 <= k < |o| && IsPartner(pred, a, o[k]) && o[k].t1 <= t < o[k].t2;
      HolderKept(a, o, pred, k);
      HolderExcludes(a, f, payloadMerge, o[k], t);
    } else if f == [] {
      CutAgainstCases(a, f, payloadMerge);
      assert a in cut;
    } else {
      FilteredFree(a, o, pred, t);
      CutAgainstComplete(a, f, payloadMerge, t);
    }
  }

  // -------------------------------------------------------------------
  // The whole list

  /** The pieces a receiver box leaves once all of `other` is scanned for its partners. */
  function RowPieces<P>(a: Interval3D<P>, o: seq<Interval3D<P>>, pred: (Interval3D<P>, Interval3D<P>) -> bool,
                        payloadMerge: (P, P) -> P): seq<Interval3D<P>>
  {
    CutAgainst(a, PartnersIn(a, o, 0, |o|, pred), payloadMerge)
  }

  /** The pieces of every receiver box, each scanned against all of `other`, box by box. */
  function AllRows<P>(s: seq<Interval3D<P>>, o: seq<Interval3D<P>>,
                      pred: (Interval3D<P>, Interval3D<P>) -> bool, payloadMerge: (P, P) -> P): (rows: seq<seq<Interval3D<P>>>)
    ensures |rows| == |s|
  {
    seq(|s|, i requires 0 <= i < |s| => RowPieces(s[i], o, pred, payloadMerge))
  }

  /** The row of receiver box `i`. */
  lemma AllRowsAt<P>(s: seq<Interval3D<P>>, o: seq<Interval3D<P>>,
                     pred: (Interval3D<P>, Interval3D<P>) -> bool, payloadMerge: (P, P) -> P, i: nat)
    requires i < |s|
    ensures AllRows(s, o, pred, payloadMerge)[i] == CutAgainst(s[i], PartnersIn(s[i], o, 0, |o|, pred), payloadMerge)
  {
  }

  /** Flattening one more row appends it. */
  lemma FlattenPrefixStep<T>(rows: seq<seq<T>>, m: nat, prefix: seq<T>, row: seq<T>)
    requires 0 < m <= |rows| && prefix == Seqs.Flatten(rows[..m - 1]) && row == rows[m - 1]
    ensures Seqs.Flatten(rows[..m]) == prefix + row
  {
    assert rows[..m][..m - 1] == rows[..m - 1];
  }

  /** The pieces the sweep emits for receiver box `i` are its row. */
  lemma SweptRowIsRow<P>(s: seq<Interval3D<P>>, o: seq<Interval3D<P>>, w: real, i: nat,
                         pred: (Interval3D<P>, Interval3D<P>) -> bool, payloadMerge: (P, P) -> P)
    requires i < |s| && StartsAscending(s) && AllWellFormed(s) && AllWellFormed(o) && w >= 0.0
    ensures CutAgainst(s[i], RowPartners(s, o, w, i, pred), payloadMerge) == AllRows(s, o, pred, payloadMerge)[i]
  {
    RowPartnersAreAll(s, o, w, i, pred);
    AllRowsAt(s, o, pred, payloadMerge, i);
  }

  /** On sorted well-formed lists and a window of at least zero, the sweep loses no partner of any box. */
  lemma {:induction false} CutRowsAreAllRows<P>(s: seq<Interval3D<P>>, o: seq<Interval3D<P>>, w: real, m: nat,
                                                pred: (Interval3D<P>, Interval3D<P>) -> bool, payloadMerge: (P, P) -> P)
    requires m <= |s| && StartsAscending(s) && AllWellFormed(s) && AllWellFormed(o) && w >= 0.0
    ensures CutRows(s, o, w, m, pred, payloadMerge) == Seqs.Flatten(AllRows(s, o, pred, payloadMerge)[..m])
  {
    if m > 0 {
      var rows := AllRows(s, o, pred, payloadMerge);
      CutRowsAreAllRows(s, o, w, m - 1, pred, payloadMerge);
      SweptRowIsRow(s, o, w, m - 1, pred, payloadMerge);
      var prefix := CutRows(s, o, w, m - 1, pred, payloadMerge);
      var row := CutAgainst(s[m - 1], RowPartners(s, o, w, m - 1, pred), payloadMerge);
      assert CutRows(s, o, w, m, pred, payloadMerge) == prefix + row;
      FlattenPrefixStep(rows, m, prefix, row);
    }
  }

  /**
   * `experimental_minus_temporal_only` with `recursive_diff` on sorted
   * well-formed lists and a window of at least zero returns exactly the pieces
   * of every receiver box, each cut against all of its partners in `other`.
   */
  lemma ExperimentalMinusMembers<P>(L: IntervalList3D<P>, other: IntervalList3D<P>,
                                    pred: (Interval3D<P>, Interval3D<P>) -> bool, payloadMerge: (P, P) -> P,
                                    workingWindow: Option<real>)
    requires L.Valid() && other.Valid() && AllWellFormed(L.intrvls) && AllWellFormed(other.intrvls)
    requires workingWindow.Some? ==> workingWindow.value >= 0.0
    ensures MinusSpec(L, other, true, pred, payloadMerge, workingWindow).Ok?
    ensures forall x :: x in MinusSpec(L, other, true, pred, payloadMerge, workingWindow).value.intrvls <==>
              exists j :: 0 <= j < |L.intrvls| && x in AllRows(L.intrvls, other.intrvls, pred, payloadMerge)[j]
  {
    var s := L.intrvls;
    var o := other.intrvls;
    var w := List3DJoin.Window(L, workingWindow);
    SortedStartsAscending(s);
    WorkingWindowCovers(s);
    var out := CutRows(s, o, w, |s|, pred, payloadMerge);
    var rows := AllRows(s, o, pred, payloadMerge);
    CutRowsAreAllRows(s, o, w, |s|, pred, payloadMerge);
    assert rows[..|s|] == rows;
    assert MinusSpec(L, other, true, pred, payloadMerge, workingWindow) == Ok(Make(out));
    forall x
      ensures x in Make(out).intrvls <==> exists j :: 0 <= j < |s| && x in rows[j]
    {
      MakeElements(out, x);
      Seqs.FlattenMember(rows, x);
    }
  }

  /** The pieces of each receiver box are in the returned list. */
  lemma RowInResult<P>(L: IntervalList3D<P>, other: IntervalList3D<P>,
                       pred: (Interval3D<P>, Interval3D<P>) -> bool, payloadMerge: (P, P) -> P,
                       workingWindow: Option<real>, i: nat)
    requires L.Valid() && other.Valid() && AllWellFormed(L.intrvls) && AllWellFormed(other.intrvls)
    requires workingWindow.Some? ==> workingWindow.value >= 0.0
    requires i < |L.intrvls|
    ensures MinusSpec(L, other, true, pred, payloadMerge, workingWindow).Ok?
    ensures forall x :: x in AllRows(L.intrvls, other.intrvls, pred, payloadMerge)[i] ==>
              x in MinusSpec(L, other, true, pred, payloadMerge, workingWindow).value.intrvls
  {
    var s := L.intrvls;
    var o := other.intrvls;
    var w := List3DJoin.Window(L, workingWindow);
    SortedStartsAscending(s);
    WorkingWindowCovers(s);
    var out := CutRows(s, o, w, |s|, pred, payloadMerge);
    var rows := AllRows(s, o, pred, payloadMerge);
    CutRowsAreAllRows(s, o, w, |s|, pred, payloadMerge);
    assert rows[..|s|] == rows;
    assert MinusSpec(L, other, true, pred, payloadMerge, workingWindow) == Ok(Make(out));
    forall x | x in rows[i]
      ensures x in Make(out).intrvls
    {
      Seqs.FlattenMember(rows, x);
      MakeElements(out, x);
    }
  }

  /**
   * The whole difference for one receiver box: its pieces are all in the
   * returned list, and they hold exactly the times of the box that none of its
   * partners holds (partners holding time).
   */
  lemma ExperimentalMinusIsDifference<P>(L: IntervalList3D<P>, other: IntervalList3D<P>,
                                         pred: (Interval3D<P>, Interval3D<P>) -> bool, payloadMerge: (P, P) -> P,
                                         workingWindow: Option<real>, i: nat, t: real)
    requires L.Valid() && other.Valid() && AllWellFormed(L.intrvls) && AllWellFormed(other.intrvls)
    requires workingWindow.Some? ==> workingWindow.value >= 0.0
    requires i < |L.intrvls| && L.intrvls[i].t1 <= t < L.intrvls[i].t2
    requires forall k :: 0 <= k < |other.intrvls| && IsPartner(pred, L.intrvls[i], other.intrvls[k]) ==>
               other.intrvls[k].t1 < other.intrvls[k].t2
    ensures MinusSpec(L, other, true, pred, payloadMerge, workingWindow).Ok?
    ensures forall x :: x in AllRows(L.intrvls, other.intrvls, pred, payloadMerge)[i] ==>
              x in MinusSpec(L, other, true, pred, payloadMerge, workingWindow).value.intrvls
    ensures (exists x :: x in AllRows(L.intrvls, other.intrvls, pred, payloadMerge)[i] && x.t1 <= t < x.t2)
            <==> !PartnerHolds(L.intrvls[i], other.intrvls, pred, t)
  {
    var a := L.intrvls[i];
    var o := other.intrvls;
    RowInResult(L, other, pred, payloadMerge, workingWindow, i);
    SortedStartsAscending(o);
    AllRowsAt(L.intrvls, o, pred, payloadMerge, i);
    MinusRowIsDifference(a, o, pred, payloadMerge, t);
  }
}
