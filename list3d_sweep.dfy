// The start index that `IntervalList3D.join` and
// `IntervalList3D.experimental_minus_temporal_only` of
// `rekall/interval_list_3d.py` carry from one receiver box to the next: the
// scan of `other` for a receiver box begins at the start index, and the
// offset of the first scanned box that starts after the receiver box, or that
// ends no earlier than the receiver box's window opens, is added to it.

module List3DSweep {
  import opened Common
  import opened Temporal
  import opened IntervalList3DModel

  /** The test that sets `new_start_index` at `b`: `b` starts after `a`, or does not end before `a`'s window opens. */
  predicate Qualifies<P>(a: Interval3D<P>, b: Interval3D<P>, w: real)
  {
    a.t1 < b.t1 || a.t1 - w <= b.t2
  }

  /**
   * `new_start_index` once the first `n` boxes of `other` from `start` have
   * been scanned for `a`: the offset of the first of them that qualifies.
   */
  function FirstQualifying<P>(a: Interval3D<P>, o: seq<Interval3D<P>>, w: real, start: nat, n: nat): (r: Option<nat>)
    requires start + n <= |o|
    ensures r.Some? ==> r.value < n && Qualifies(a, o[start + r.value], w)
  {
    if n == 0 then None
    else match FirstQualifying(a, o, w, start, n - 1)
      case Some(j) => Some(j)
      case None => if Qualifies(a, o[start + n - 1], w) then Some(n - 1) else None
  }

  /** No box the scan passed before the one it settled on qualifies. */
  lemma {:induction false} FirstQualifyingMeaning<P>(a: Interval3D<P>, o: seq<Interval3D<P>>, w: real, start: nat, n: nat)
    requires start + n <= |o|
    ensures var r := FirstQualifying(a, o, w, start, n);
            forall k :: start <= k < start + (if r.Some? then r.value else n) ==> !Qualifies(a, o[k], w)
  {
    if n > 0 {
      FirstQualifyingMeaning(a, o, w, start, n - 1);
    }
  }

  /** Scanning one more box settles on it exactly when none before it qualified and it does. */
  lemma FirstQualifyingNext<P>(a: Interval3D<P>, o: seq<Interval3D<P>>, w: real, start: nat, n: nat)
    requires start + n < |o|
    ensures FirstQualifying(a, o, w, start, n + 1) ==
            if FirstQualifying(a, o, w, start, n).Some? then FirstQualifying(a, o, w, start, n)
            else if Qualifies(a, o[start + n], w) then Some(n) else None
  {
  }

  /** `start_index += new_start_index` when the scan found a qualifying box; otherwise it stays. */
  function NextStart<P>(a: Interval3D<P>, o: seq<Interval3D<P>>, w: real, start: nat, n: nat): (r: nat)
    requires start + n <= |o|
    ensures start <= r <= start + n
  {
    match FirstQualifying(a, o, w, start, n)
    case Some(j) => start + j
    case None => start
  }

  /** Every box of `o` before position `n` ends before the window of `a` opens. */
  ghost predicate EndsBefore<P>(o: seq<Interval3D<P>>, n: nat, a: Interval3D<P>, w: real)
    requires n <= |o|
  {
    forall k :: 0 <= k < n ==> o[k].t2 < a.t1 - w
  }

  /** The start index only ever moves past boxes that end before the window of the current box opens. */
  lemma NextStartSkipsEarly<P>(a: Interval3D<P>, o: seq<Interval3D<P>>, w: real, start: nat, n: nat)
    requires start + n <= |o| && EndsBefore(o, start, a, w)
    ensures EndsBefore(o, NextStart(a, o, w, start, n), a, w)
  {
    FirstQualifyingMeaning(a, o, w, start, n);
  }

  /** A box that starts no earlier has a window that opens no earlier (for the same window width). */
  lemma EndsBeforeLater<P>(o: seq<Interval3D<P>>, n: nat, a: Interval3D<P>, b: Interval3D<P>, w: real)
    requires n <= |o| && EndsBefore(o, n, a, w) && a.t1 <= b.t1
    ensures EndsBefore(o, n, b, w)
  {
  }

  /**
   * With a window width of at least zero, a well-formed box that ends before
   * the window of a well-formed box opens does not overlap it in time.
   */
  lemma EarlyDoesNotOverlap<P>(a: Interval3D<P>, b: Interval3D<P>, w: real)
    requires w >= 0.0 && a.t1 <= a.t2 && b.t1 <= b.t2
    requires b.t2 < a.t1 - w
    ensures !Overlaps(TimeOf(a), TimeOf(b))
  {
  }
}
