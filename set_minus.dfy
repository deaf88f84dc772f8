// `IntervalSet3D.minus` of `rekall/interval_set_3d.py`: the temporal
// difference. Each interval of the receiver loses the time covered by the
// intervals of `other` it touches; its spatial bounds and payload are kept.
// An outer sweep with a start index collects the touching intervals of
// `other`; an inner loop then walks a point `start` forward through the
// interval, emitting a piece for every stretch no interval of `other` covers.

module SetMinus {
  import opened Common
  import opened LexSort
  import opened Temporal
  import opened Interval3DOps
  import opened SetUtils
  import opened IntervalSet3DModel
  import Seqs

  predicate IsFullFrame<P>(b: Interval3D<P>)
  {
    b.x == FullFrame && b.y == FullFrame
  }

  /** `b` ends no earlier than `a` starts and starts no later than `a` ends. */
  predicate Touches<P>(a: Interval3D<P>, b: Interval3D<P>)
  {
    b.t.1 >= a.t.0 && b.t.0 <= a.t.1
  }

  function TouchesOf<P>(a: Interval3D<P>): Interval3D<P> -> bool
  {
    b => Touches(a, b)
  }

  /** The intervals of `o` that `a` touches, in order. */
  function Touching<P>(a: Interval3D<P>, o: seq<Interval3D<P>>): seq<Interval3D<P>>
  {
    Seqs.Filter(o, TouchesOf(a))
  }

  function HasPositiveLength<P>(): Interval3D<P> -> bool
  {
    (i: Interval3D<P>) => i.Length() > 0.0
  }

  /** `p` is a positive-length piece of `a`'s time range with `a`'s space and payload. */
  ghost predicate Piece<P>(a: Interval3D<P>, p: Interval3D<P>)
  {
    p.t.0 < p.t.1 && a.t.0 <= p.t.0 && p.t.1 <= a.t.1 &&
    p.x == a.x && p.y == a.y && p.payload == a.payload
  }

  /** `p` overlaps no positive-length interval of `o`. */
  ghost predicate Clear<P>(p: Interval3D<P>, o: seq<Interval3D<P>>)
  {
    forall k :: 0 <= k < |o| && o[k].t.0 < o[k].t.1 ==> !Overlaps(TimeProjection(p), TimeProjection(o[k]))
  }

  /** Some interval of `o` holds time `t`, counting its start but not its end. */
  ghost predicate CoveredAt<P>(o: seq<Interval3D<P>>, t: real)
  {
    exists k :: 0 <= k < |o| && o[k].t.0 <= t < o[k].t.1
  }

  /** Some piece of `part` holds time `t`, counting its start but not its end. */
  ghost predicate InPiece<P>(part: seq<Interval3D<P>>, t: real)
  {
    exists j :: 0 <= j < |part| && part[j].t.0 <= t < part[j].t.1
  }

  /** Each piece ends strictly before the next one starts. */
  ghost predicate Ascending<P>(part: seq<Interval3D<P>>)
  {
    forall j, j' :: 0 <= j < j' < |part| ==> part[j].t.1 < part[j'].t.0
  }

  /**
   * What `minus` makes of one receiver interval `a`: a copy when it touches
   * nothing in `o`; otherwise pieces of it, in ascending order and apart from
   * each other, that overlap nothing in `o` and together hold every time of
   * `a` that no interval of `o` holds.
   */
  ghost predicate MinusPart<P>(a: Interval3D<P>, o: seq<Interval3D<P>>, part: seq<Interval3D<P>>)
  {
    if Touching(a, o) == [] then part == [a]
    else
      && (forall j :: 0 <= j < |part| ==> Piece(a, part[j]) && Clear(part[j], o))
      && Ascending(part)
      && (forall t :: a.t.0 <= t < a.t.1 && !CoveredAt(o, t) ==> InPiece(part, t))
  }

  /** Positive-length intervals that are apart (at most touching) do not overlap. */
  lemma ApartNoOverlap<P>(p: Interval3D<P>, b: Interval3D<P>)
    requires p.t.0 < p.t.1 && b.t.0 < b.t.1
    requires b.t.1 <= p.t.0 || p.t.1 <= b.t.0
    ensures !Overlaps(TimeProjection(p), TimeProjection(b))
  {
    OverlapsPositive(TimeProjection(p), TimeProjection(b));
  }

  // -------------------------------------------------------------------
  // The measure of the inner loop

  /** How many intervals of `ov` end after `x`. */
  function CountAbove<P>(ov: seq<Interval3D<P>>, x: real): nat
  {
    if ov == [] then 0
    else CountAbove(ov[..|ov| - 1], x) + (if ov[|ov| - 1].t.1 > x then 1 else 0)
  }

  lemma {:induction false} CountAboveMonotone<P>(ov: seq<Interval3D<P>>, x: real, y: real)
    requires x <= y
    ensures CountAbove(ov, y) <= CountAbove(ov, x)
  {
    if ov != [] {
      CountAboveMonotone(ov[..|ov| - 1], x, y);
    }
  }

  /** Moving `x` past the end of some interval lowers the count. */
  lemma {:induction false} CountAboveDrops<P>(ov: seq<Interval3D<P>>, x: real, y: real, k: int)
    requires x <= y && 0 <= k < |ov| && x < ov[k].t.1 <= y
    ensures CountAbove(ov, y) < CountAbove(ov, x)
  {
    var n := |ov| - 1;
    if k == n {
      CountAboveMonotone(ov[..n], x, y);
    } else {
      CountAboveDrops(ov[..n], x, y, k);
    }
  }

  /** Nothing that ends before `a` starts touches `a`. */
  lemma EarlierDoNotTouch<P>(a: Interval3D<P>, o: seq<Interval3D<P>>, n: nat)
    requires n <= |o| && EndBefore(o, n, a, 0.0)
    ensures Seqs.Filter(o[..n], TouchesOf(a)) == []
  {
    EndBeforeMeaning(o, n, a, 0.0);
    Seqs.FilterNonePass(o[..n], TouchesOf(a));
  }

  /** In `o` ordered by start, nothing from an interval starting after `a` ends on touches `a`. */
  lemma LaterDoNotTouch<P>(a: Interval3D<P>, o: seq<Interval3D<P>>, idx: int)
    requires StartsAscending(o)
    requires 0 <= idx < |o| && o[idx].t.0 > a.t.1
    ensures Touching(a, o) == Seqs.Filter(o[..idx], TouchesOf(a))
  {
    var tail := o[idx..];
    forall j | 0 <= j < |tail| ensures !TouchesOf(a)(tail[j]) {
      assert tail[j] == o[idx + j];
    }
    Seqs.FilterNonePass(tail, TouchesOf(a));
    Seqs.FilterAppend(o[..idx], tail, TouchesOf(a));
    assert o[..idx] + tail == o;
  }

  // -------------------------------------------------------------------
  // The loops

  /**
   * The loop over `other` for one receiver interval `a`: from `startIndex`,
   * collects the intervals `a` touches, and reports the first index whose
   * interval does not end before `a` starts.
   */
  method CollectOverlapped<P>(a: Interval3D<P>, o: seq<Interval3D<P>>, startIndex: nat)
    returns (overlapped: seq<Interval3D<P>>, newStart: Option<nat>)
    requires StartsAscending(o)
    requires startIndex <= |o|
    requires EndBefore(o, startIndex, a, 0.0)
    ensures overlapped == Touching(a, o)
    ensures newStart.None? ==> overlapped == [] && EndBefore(o, |o|, a, 0.0)
    ensures newStart.Some? ==> startIndex <= newStart.value < |o| && EndBefore(o, newStart.value, a, 0.0)
  {
    EarlierDoNotTouch(a, o, startIndex);
    overlapped, newStart := [], None;
    var idx := startIndex;
    while idx < |o|
      invariant startIndex <= idx <= |o|
      invariant overlapped == Seqs.Filter(o[..idx], TouchesOf(a))
      invariant newStart.None? ==> overlapped == [] && EndBefore(o, idx, a, 0.0)
      invariant newStart.Some? ==> startIndex <= newStart.value < idx && EndBefore(o, newStart.value, a, 0.0)
    {
      var b := o[idx];
      Seqs.FilterPrefixStep(o, idx, TouchesOf(a));
      assert TouchesOf(a)(b) == (b.t.1 >= a.t.0 && b.t.0 <= a.t.1);
      if b.t.1 >= a.t.0 {
        if newStart.None? {
          newStart := Some(idx);
        }
        if b.t.0 > a.t.1 {
          // every later interval of `other` starts after `a` ends
          LaterDoNotTouch(a, o, idx);
          return;
        }
        overlapped := overlapped + [b];
      }
      assert overlapped == Seqs.Filter(o[..idx + 1], TouchesOf(a));
      idx := idx + 1;
    }
    assert o[..idx] == o;
  }

  /**
   * The inner `for` over `ov[overlappedIndex..]` for one proposed `start`:
   * collects the intervals across `start`, stops at the first interval that
   * starts after it (reported with its ghost index `afterIndex`), and finds
   * the first index whose interval ends after `start`.
   */
  method ScanAcross<P>(ov: seq<Interval3D<P>>, overlappedIndex: nat, start: real)
    returns (across: seq<Interval3D<P>>, firstAfter: Option<Interval3D<P>>,
             newOverlappedIndex: Option<nat>, ghost afterIndex: nat)
    requires overlappedIndex <= |ov|
    ensures overlappedIndex <= afterIndex <= |ov|
    ensures forall x :: x in across ==> x in ov && x.t.0 <= start < x.t.1
    ensures forall k :: overlappedIndex <= k < afterIndex ==> ov[k].t.0 <= start
    ensures firstAfter.None? ==> afterIndex == |ov|
    ensures firstAfter.Some? ==> afterIndex < |ov| && firstAfter.value == ov[afterIndex] && ov[afterIndex].t.0 > start
    ensures across == [] ==> forall k :: overlappedIndex <= k < afterIndex ==> ov[k].t.1 <= start
    ensures newOverlappedIndex.None? ==> forall k :: overlappedIndex <= k < afterIndex ==> ov[k].t.1 <= start
    ensures newOverlappedIndex.Some? ==>
              overlappedIndex <= newOverlappedIndex.value < |ov| &&
              forall k :: overlappedIndex <= k < newOverlappedIndex.value ==> ov[k].t.1 <= start
  {
    across, firstAfter, newOverlappedIndex := [], None, None;
    var idx := overlappedIndex;
    while idx < |ov|
      invariant overlappedIndex <= idx <= |ov|
      invariant forall k :: overlappedIndex <= k < idx ==> ov[k].t.0 <= start
      invariant forall x :: x in across ==> x in ov && x.t.0 <= start < x.t.1
      invariant across == [] ==> forall k :: overlappedIndex <= k < idx ==> ov[k].t.1 <= start
      invariant newOverlappedIndex.None? ==> forall k :: overlappedIndex <= k < idx ==> ov[k].t.1 <= start
      invariant newOverlappedIndex.Some? ==>
                  overlappedIndex <= newOverlappedIndex.value < idx &&
                  forall k :: overlappedIndex <= k < newOverlappedIndex.value ==> ov[k].t.1 <= start
    {
      var v1, v2 := ov[idx].t.0, ov[idx].t.1;
      if newOverlappedIndex.None? && v2 > start {
        newOverlappedIndex := Some(idx);
      }
      if v1 <= start && v2 > start {
        across := across + [ov[idx]];
      } else if v1 > start {
        // `ov` is sorted by start time
        firstAfter := Some(ov[idx]);
        afterIndex := idx;
        return;
      }
      idx := idx + 1;
    }
    afterIndex := |ov|;
  }

  /**
   * The stretch from a free `start` to the start of the first interval after
   * it overlaps no positive-length interval of the sorted `ov`.
   */
  lemma GapIsClear<P>(ov: seq<Interval3D<P>>, p: Interval3D<P>, afterIndex: nat)
    requires StartsAscending(ov)
    requires forall k :: 0 <= k < |ov| ==> ov[k].t.0 < ov[k].t.1
    requires afterIndex <= |ov| && p.t.0 < p.t.1
    requires forall k :: 0 <= k < afterIndex ==> ov[k].t.1 <= p.t.0
    requires afterIndex < |ov| ==> p.t.1 <= ov[afterIndex].t.0
    ensures forall k :: 0 <= k < |ov| ==> !Overlaps(TimeProjection(p), TimeProjection(ov[k]))
  {
    forall k | 0 <= k < |ov| ensures !Overlaps(TimeProjection(p), TimeProjection(ov[k])) {
      ApartNoOverlap(p, ov[k]);
    }
  }

  /**
   * One pass of the `while start < intrvl.t[1]` loop: scans for the
   * intervals across `start`; when there are none, proposes the piece from
   * `start` to the next interval (or to the end of `a`) and moves `start` to
   * that interval's end; otherwise moves `start` to the furthest end among
   * the intervals across it.
   */
  method CarveStep<P>(a: Interval3D<P>, ov: seq<Interval3D<P>>, overlappedIndex: nat, start: real)
    returns (piece: Option<Interval3D<P>>, newStart: real, newOverlappedIndex: nat)
    requires StartsAscending(ov)
    requires forall k :: 0 <= k < |ov| ==> ov[k].t.0 < ov[k].t.1 && ov[k].t.0 <= a.t.1
    requires overlappedIndex <= |ov| && a.t.0 <= start < a.t.1
    requires forall k :: 0 <= k < overlappedIndex ==> ov[k].t.1 <= start
    ensures start < newStart && newOverlappedIndex <= |ov|
    ensures forall k :: 0 <= k < newOverlappedIndex ==> ov[k].t.1 <= newStart
    ensures CountAbove(ov, newStart) + (if newStart < a.t.1 then 1 else 0) < CountAbove(ov, start) + 1
    ensures piece.Some? ==> Piece(a, piece.value) &&
                            forall k :: 0 <= k < |ov| ==> !Overlaps(TimeProjection(piece.value), TimeProjection(ov[k]))
    ensures piece.Some? ==> piece.value.t.0 == start && (piece.value.t.1 < newStart || a.t.1 <= newStart)
    ensures forall t :: start <= t < newStart && t < a.t.1 && !CoveredAt(ov, t) ==>
              piece.Some? && piece.value.t.0 <= t < piece.value.t.1
  {
    var across, firstAfter, next, afterIndex := ScanAcross(ov, overlappedIndex, start);
    newOverlappedIndex := if next.Some? then next.value else overlappedIndex;
    piece := None;
    if across == [] {
      // `start` is free; the piece runs to the next interval or to the end
      var end;
      if firstAfter.None? {
        end := a.t.1;
        newStart := end;
      } else {
        end := firstAfter.value.t.0;
        newStart := firstAfter.value.t.1;
      }
      if end > start {
        var p := Interval3D((start, end), a.x, a.y, a.payload);
        GapIsClear(ov, p, afterIndex);
        piece := Some(p);
      }
      if firstAfter.Some? {
        CountAboveDrops(ov, start, newStart, afterIndex);
        forall t | end <= t < newStart ensures CoveredAt(ov, t) {
          assert ov[afterIndex].t.0 <= t < ov[afterIndex].t.1;
        }
      } else {
        CountAboveMonotone(ov, start, newStart);
      }
    } else {
      // `start` is covered; move it to the furthest end among the covering intervals
      newStart := MaxEnd(across);
      ghost var m :| 0 <= m < |across| && across[m].t.1 == newStart;
      ghost var k :| 0 <= k < |ov| && ov[k] == across[m];
      CountAboveDrops(ov, start, newStart, k);
      forall t | start <= t < newStart ensures CoveredAt(ov, t) {
        assert ov[k].t.0 <= t < ov[k].t.1;
      }
    }
  }

  /** Every piece in `pieces` is a piece of `a` that overlaps no interval of `ov`. */
  ghost predicate Carved<P>(a: Interval3D<P>, ov: seq<Interval3D<P>>, pieces: seq<Interval3D<P>>)
  {
    pieces == [] ||
    (Carved(a, ov, pieces[..|pieces| - 1]) && Piece(a, pieces[|pieces| - 1]) &&
     forall k :: 0 <= k < |ov| ==> !Overlaps(TimeProjection(pieces[|pieces| - 1]), TimeProjection(ov[k])))
  }

  lemma {:induction false} CarvedMeaning<P>(a: Interval3D<P>, ov: seq<Interval3D<P>>, pieces: seq<Interval3D<P>>)
    requires Carved(a, ov, pieces)
    ensures forall j :: 0 <= j < |pieces| ==> Piece(a, pieces[j])
    ensures forall j, k :: 0 <= j < |pieces| && 0 <= k < |ov| ==>
              !Overlaps(TimeProjection(pieces[j]), TimeProjection(ov[k]))
  {
    if pieces != [] {
      var n := |pieces| - 1;
      CarvedMeaning(a, ov, pieces[..n]);
      assert forall j :: 0 <= j < n ==> pieces[j] == pieces[..n][j];
    }
  }

  /**
   * The `while start < intrvl.t[1]` loop: `ov` holds the positive-length
   * intervals `a` touches, in order; the pieces are the stretches of `a`
   * that none of them covers.
   */
  method Carve<P>(a: Interval3D<P>, ov: seq<Interval3D<P>>) returns (pieces: seq<Interval3D<P>>)
    requires StartsAscending(ov)
    requires forall k :: 0 <= k < |ov| ==> ov[k].t.0 < ov[k].t.1 && ov[k].t.0 <= a.t.1
    ensures forall j :: 0 <= j < |pieces| ==> Piece(a, pieces[j])
    ensures forall j, k :: 0 <= j < |pieces| && 0 <= k < |ov| ==>
              !Overlaps(TimeProjection(pieces[j]), TimeProjection(ov[k]))
    ensures Ascending(pieces)
    ensures forall t :: a.t.0 <= t < a.t.1 && !CoveredAt(ov, t) ==> InPiece(pieces, t)
  {
    pieces := [];
    var start := a.t.0;
    var overlappedIndex := 0;
    while start < a.t.1
      invariant CarveState(a, ov, start, overlappedIndex, pieces)
      decreases CountAbove(ov, start) + (if start < a.t.1 then 1 else 0)
    {
      var piece, newStart, newIndex := CarveStep(a, ov, overlappedIndex, start);
      var pieces' := if piece.Some? then pieces + [piece.value] else pieces;
      CarvePassKeeps(a, ov, start, overlappedIndex, pieces, piece, newStart, newIndex, pieces');
      pieces, start, overlappedIndex := pieces', newStart, newIndex;
    }
    CarvedMeaning(a, ov, pieces);
  }

  /** What the carving loop has established when `start` has been reached. */
  ghost predicate CarveState<P>(a: Interval3D<P>, ov: seq<Interval3D<P>>, start: real, overlappedIndex: int,
                                pieces: seq<Interval3D<P>>)
  {
    && 0 <= overlappedIndex <= |ov| && a.t.0 <= start
    && (forall k :: 0 <= k < overlappedIndex ==> ov[k].t.1 <= start)
    && Carved(a, ov, pieces)
    && Ascending(pieces)
    && (forall j :: 0 <= j < |pieces| ==> pieces[j].t.1 < start || a.t.1 <= start)
    && (forall t :: a.t.0 <= t < start && t < a.t.1 && !CoveredAt(ov, t) ==> InPiece(pieces, t))
  }

  /** One pass of the carving loop, as `CarveStep` describes it, keeps the loop's state. */
  lemma CarvePassKeeps<P>(a: Interval3D<P>, ov: seq<Interval3D<P>>, start: real, overlappedIndex: nat,
                          pieces: seq<Interval3D<P>>, piece: Option<Interval3D<P>>, newStart: real,
                          newIndex: nat, pieces': seq<Interval3D<P>>)
    requires CarveState(a, ov, start, overlappedIndex, pieces) && start < a.t.1
    requires pieces' == if piece.Some? then pieces + [piece.value] else pieces
    requires start < newStart && newIndex <= |ov|
    requires forall k :: 0 <= k < newIndex ==> ov[k].t.1 <= newStart
    requires piece.Some? ==> Piece(a, piece.value) &&
                             forall k :: 0 <= k < |ov| ==> !Overlaps(TimeProjection(piece.value), TimeProjection(ov[k]))
    requires piece.Some? ==> piece.value.t.0 == start && (piece.value.t.1 < newStart || a.t.1 <= newStart)
    requires forall t :: start <= t < newStart && t < a.t.1 && !CoveredAt(ov, t) ==>
               piece.Some? && piece.value.t.0 <= t < piece.value.t.1
    ensures CarveState(a, ov, newStart, newIndex, pieces')
  {
    if piece.Some? {
      assert pieces'[..|pieces|] == pieces;
      AscendingAppend(pieces, piece.value, start, newStart, a.t.1);
    }
    HeldThroughPass(a, ov, start, newStart, piece, pieces, pieces');
  }

  /** A piece from `start` on, after pieces that end before `start`, keeps them ascending. */
  lemma AscendingAppend<P>(pieces: seq<Interval3D<P>>, p: Interval3D<P>, start: real, newStart: real, aEnd: real)
    requires Ascending(pieces)
    requires forall j :: 0 <= j < |pieces| ==> pieces[j].t.1 < start
    requires p.t.0 == start < newStart && (p.t.1 < newStart || aEnd <= newStart)
    ensures Ascending(pieces + [p])
    ensures forall j :: 0 <= j < |pieces| + 1 ==> (pieces + [p])[j].t.1 < newStart || aEnd <= newStart
  {
    var ps := pieces + [p];
    forall j | 0 <= j < |ps| ensures ps[j].t.1 < newStart || aEnd <= newStart {
      if j < |pieces| {
        assert ps[j] == pieces[j];
      }
    }
    forall j, j' | 0 <= j < j' < |ps| ensures ps[j].t.1 < ps[j'].t.0 {
      assert ps[j] == pieces[j];
      if j' < |pieces| {
        assert ps[j'] == pieces[j'];
      }
    }
  }

  /** One pass of the carving loop keeps every free time before the new `start` held. */
  lemma HeldThroughPass<P>(a: Interval3D<P>, ov: seq<Interval3D<P>>, start: real, newStart: real,
                           piece: Option<Interval3D<P>>, pieces: seq<Interval3D<P>>, pieces': seq<Interval3D<P>>)
    requires pieces' == if piece.Some? then pieces + [piece.value] else pieces
    requires forall t :: start <= t < newStart && t < a.t.1 && !CoveredAt(ov, t) ==>
               piece.Some? && piece.value.t.0 <= t < piece.value.t.1
    requires forall t :: a.t.0 <= t < start && t < a.t.1 && !CoveredAt(ov, t) ==> InPiece(pieces, t)
    ensures forall t :: a.t.0 <= t < newStart && t < a.t.1 && !CoveredAt(ov, t) ==> InPiece(pieces', t)
  {
    forall t | a.t.0 <= t < newStart && t < a.t.1 && !CoveredAt(ov, t) ensures InPiece(pieces', t) {
      HeldAfterPass(pieces, piece, pieces', start, t);
    }
  }

  /** A time held before a pass, or by the pass's piece, is held after it. */
  lemma HeldAfterPass<P>(pieces: seq<Interval3D<P>>, piece: Option<Interval3D<P>>, pieces': seq<Interval3D<P>>,
                         start: real, t: real)
    requires pieces' == if piece.Some? then pieces + [piece.value] else pieces
    requires t < start ==> InPiece(pieces, t)
    requires start <= t ==> piece.Some? && piece.value.t.0 <= t < piece.value.t.1
    ensures InPiece(pieces', t)
  {
    if t < start {
      var j :| 0 <= j < |pieces| && pieces[j].t.0 <= t < pieces[j].t.1;
      assert pieces'[j] == pieces[j];
    } else {
      assert pieces'[|pieces|] == piece.value;
    }
  }

  // -------------------------------------------------------------------
  // minus

  /** A piece clear of the touching positive-length intervals is clear of all of `o`. */
  lemma ClearOfAll<P>(a: Interval3D<P>, o: seq<Interval3D<P>>, ov: seq<Interval3D<P>>, p: Interval3D<P>)
    requires ov == Seqs.Filter(Touching(a, o), HasPositiveLength())
    requires Piece(a, p)
    requires forall k :: 0 <= k < |ov| ==> !Overlaps(TimeProjection(p), TimeProjection(ov[k]))
    ensures Clear(p, o)
  {
    forall k | 0 <= k < |o| && o[k].t.0 < o[k].t.1
      ensures !Overlaps(TimeProjection(p), TimeProjection(o[k]))
    {
      if Touches(a, o[k]) {
        assert TouchesOf(a)(o[k]);
        Seqs.FilterMembers(o, TouchesOf(a));
        assert o[k] in Touching(a, o);
        assert HasPositiveLength<P>()(o[k]);
        Seqs.FilterMembers(Touching(a, o), HasPositiveLength());
        assert o[k] in ov;
      } else {
        ApartNoOverlap(p, o[k]);
      }
    }
  }

  /** Time held by intervals drawn from `o` is held by `o`. */
  lemma CoveredWithin<P>(ov: seq<Interval3D<P>>, o: seq<Interval3D<P>>, t: real)
    requires forall x :: x in ov ==> x in o
    requires CoveredAt(ov, t)
    ensures CoveredAt(o, t)
  {
    var k :| 0 <= k < |ov| && ov[k].t.0 <= t < ov[k].t.1;
    assert ov[k] in ov;
    var k' :| 0 <= k' < |o| && o[k'] == ov[k];
  }

  /**
   * The body of the outer loop of `minus` for one receiver interval `a`: its
   * contribution, and where the next receiver interval's scan of `other` starts.
   */
  method MinusOne<P>(a: Interval3D<P>, o: seq<Interval3D<P>>, startIndex: nat)
    returns (part: seq<Interval3D<P>>, newStartIndex: nat)
    requires StartsAscending(o)
    requires startIndex <= |o|
    requires EndBefore(o, startIndex, a, 0.0)
    ensures MinusPart(a, o, part)
    ensures newStartIndex <= |o| && EndBefore(o, newStartIndex, a, 0.0)
  {
    var overlapped, newStart := CollectOverlapped(a, o, startIndex);
    if newStart.None? {
      part := [a];
      newStartIndex := |o|;
    } else {
      newStartIndex := newStart.value;
      if |overlapped| == 0 {
        part := [a];
      } else {
        // take only nontrivial overlaps
        var positive := Seqs.Filter(overlapped, HasPositiveLength());
        FilterStartsAscending(o, TouchesOf(a));
        FilterStartsAscending(overlapped, HasPositiveLength());
        Seqs.FilterMembers(o, TouchesOf(a));
        Seqs.FilterMembers(overlapped, HasPositiveLength());
        forall k | 0 <= k < |positive| ensures positive[k].t.0 < positive[k].t.1 && positive[k].t.0 <= a.t.1 {
          assert HasPositiveLength<P>()(positive[k]);
          assert positive[k] in positive;
          assert TouchesOf(a)(positive[k]);
        }
        part := Carve(a, positive);
        forall j | 0 <= j < |part| ensures Clear(part[j], o) {
          ClearOfAll(a, o, positive, part[j]);
        }
        forall t | a.t.0 <= t < a.t.1 && !CoveredAt(o, t) ensures InPiece(part, t) {
          if CoveredAt(positive, t) {
            CoveredWithin(positive, o, t);
          }
        }
      }
    }
  }

  /**
   * `minus(other)`. Returns NotImplementedError unless every interval of
   * `other` spans the whole frame; otherwise the set of the parts, where the
   * ghost `parts[i]` is what receiver interval `i` contributes.
   */
  method Minus<P>(S: IntervalSet3D<P>, O: IntervalSet3D<P>)
    returns (r: Result<IntervalSet3D<P>>, ghost parts: seq<seq<Interval3D<P>>>)
    requires SortedBy(S.intrvls, SortKey) && SortedBy(O.intrvls, SortKey)
    ensures r.Err? <==> exists k :: 0 <= k < |O.intrvls| && !IsFullFrame(O.intrvls[k])
    ensures r.Err? ==> r.error == NotImplemented
    ensures r.Ok? ==> |parts| == |S.intrvls| && r.value == Make(Seqs.Flatten(parts))
    ensures r.Ok? ==> forall i :: 0 <= i < |S.intrvls| ==> MinusPart(S.intrvls[i], O.intrvls, parts[i])
  {
    var s, o := S.intrvls, O.intrvls;
    parts := [];
    // Only full-frame intervals are allowed in `other`.
    for k := 0 to |o|
      invariant forall m :: 0 <= m < k ==> IsFullFrame(o[m])
    {
      if !IsFullFrame(o[k]) {
        return Err(NotImplemented), parts;
      }
    }
    SortedStartsAscending(s);
    SortedStartsAscending(o);
    var output;
    output, parts := MinusSweep(s, o);
    r := Ok(Make(output));
  }

  /** The outer loop of `minus`: each interval of `s` in turn, with a start index into `o`. */
  method MinusSweep<P>(s: seq<Interval3D<P>>, o: seq<Interval3D<P>>)
    returns (output: seq<Interval3D<P>>, ghost parts: seq<seq<Interval3D<P>>>)
    requires StartsAscending(s) && StartsAscending(o)
    ensures |parts| == |s| && output == Seqs.Flatten(parts)
    ensures forall i :: 0 <= i < |s| ==> MinusPart(s[i], o, parts[i])
  {
    output, parts := [], [];
    var startIndex := 0;
    for i := 0 to |s|
      invariant 0 <= startIndex <= |o|
      invariant |parts| == i && output == Seqs.Flatten(parts)
      invariant forall m :: 0 <= m < i ==> MinusPart(s[m], o, parts[m])
      invariant i < |s| ==> EndBefore(o, startIndex, s[i], 0.0)
    {
      var part;
      part, startIndex := MinusOne(s[i], o, startIndex);
      assert (parts + [part])[..i] == parts;
      output := output + part;
      parts := parts + [part];
      if i + 1 < |s| {
        EndBeforeLater(o, startIndex, s[i], s[i + 1], 0.0);
      }
    }
  }

  // -------------------------------------------------------------------
  // Laws of the difference

  /** The first piece made of a receiver interval that touches something in `other`. */
  lemma TouchedPart<P>(a: Interval3D<P>, o: seq<Interval3D<P>>, part: seq<Interval3D<P>>)
    requires MinusPart(a, o, part) && Touching(a, o) != []
    ensures part == [] || (Piece(a, part[0]) && Clear(part[0], o))
  {
  }

  /**
   * The pieces of a touched receiver interval hold exactly the times of it
   * that no interval of `other` holds: nothing is lost and nothing of
   * `other` is kept.
   */
  lemma TouchedPartIsDifference<P>(a: Interval3D<P>, o: seq<Interval3D<P>>, part: seq<Interval3D<P>>, t: real)
    requires MinusPart(a, o, part) && Touching(a, o) != []
    requires a.t.0 <= t < a.t.1
    ensures InPiece(part, t) <==> !CoveredAt(o, t)
  {
    if InPiece(part, t) && CoveredAt(o, t) {
      var j :| 0 <= j < |part| && part[j].t.0 <= t < part[j].t.1;
      var k :| 0 <= k < |o| && o[k].t.0 <= t < o[k].t.1;
      OverlapsPositive(TimeProjection(part[j]), TimeProjection(o[k]));
      assert false;
    }
  }

  /** A receiver interval that touches nothing in `other` is copied unchanged. */
  lemma UntouchedIsCopied<P>(a: Interval3D<P>, o: seq<Interval3D<P>>, part: seq<Interval3D<P>>)
    requires MinusPart(a, o, part)
    requires forall k :: 0 <= k < |o| ==> !Touches(a, o[k])
    ensures part == [a]
  {
    Seqs.FilterNonePass(o, TouchesOf(a));
  }

  /** A zero-length interval that touches something in `other` leaves nothing. */
  lemma ZeroLengthTouchedVanishes<P>(a: Interval3D<P>, o: seq<Interval3D<P>>, part: seq<Interval3D<P>>, k: int)
    requires MinusPart(a, o, part)
    requires a.t.0 == a.t.1 && 0 <= k < |o| && Touches(a, o[k])
    ensures part == []
  {
    assert TouchesOf(a)(o[k]);
    Seqs.FilterMembers(o, TouchesOf(a));
    assert o[k] in Touching(a, o);
    TouchedPart(a, o, part);
  }

  /** A well-formed set minus itself is empty. */
  lemma MinusOfSelfIsEmpty<P>(s: seq<Interval3D<P>>, parts: seq<seq<Interval3D<P>>>)
    requires WellFormed(s)
    requires |parts| == |s|
    requires forall i :: 0 <= i < |s| ==> MinusPart(s[i], s, parts[i])
    ensures Seqs.Flatten(parts) == []
  {
    forall i | 0 <= i < |s| ensures parts[i] == [] {
      var a := s[i];
      assert TouchesOf(a)(s[i]);
      Seqs.FilterMembers(s, TouchesOf(a));
      assert a in Touching(a, s);
      // a piece of `a` lies within `a`, so it overlaps `a` when `a` has positive length
      TouchedPart(a, s, parts[i]);
    }
    if Seqs.Flatten(parts) != [] {
      var x := Seqs.Flatten(parts)[0];
      Seqs.FlattenMember(parts, x);
    }
  }

  /** Every output of a successful `minus` is a piece of, or a copy of, some receiver interval. */
  lemma MinusOutputsFromReceiver<P>(s: seq<Interval3D<P>>, o: seq<Interval3D<P>>, parts: seq<seq<Interval3D<P>>>, x: Interval3D<P>)
    requires |parts| == |s|
    requires forall i :: 0 <= i < |s| ==> MinusPart(s[i], o, parts[i])
    requires x in Seqs.Flatten(parts)
    ensures exists i :: 0 <= i < |s| && (x == s[i] || (Piece(s[i], x) && Clear(x, o)))
  {
    Seqs.FlattenMember(parts, x);
    var i :| 0 <= i < |parts| && x in parts[i];
    var j :| 0 <= j < |parts[i]| && parts[i][j] == x;
  }
}
