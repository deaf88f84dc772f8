// `IntervalList3D.join` and `IntervalList3D.experimental_join` of
// `rekall/interval_list_3d.py`. For each receiver box in sort order the inner
// loop scans `other` from the start index and stops at the first box that
// starts after the receiver box's window closes; every box scanned before that
// one has the predicate evaluated on it. Unlike the join of `IntervalSet3D`,
// the scan does not check that a box ends inside the window: what it skips is
// decided only by the start index. The loops are proved equal to a
// definition by rows; the lemmas at the end say which pairs that reaches.

module List3DJoin {
  import opened Common
  import opened LexSort
  import opened IntervalList3DModel
  import opened List3DSweep

  /** The position from `k` on where the inner loop breaks: the first box that starts after `a`'s window closes. */
  function Reach<P>(a: Interval3D<P>, o: seq<Interval3D<P>>, w: real, k: nat): (r: nat)
    requires k <= |o|
    ensures k <= r <= |o|
    ensures r < |o| ==> o[r].t1 - w > a.t2
    decreases |o| - k
  {
    if k == |o| then |o|
    else if o[k].t1 - w > a.t2 then k
    else Reach(a, o, w, k + 1)
  }

  /** Every box before the break starts no later than `a`'s window closes. */
  lemma {:induction false} ReachMeaning<P>(a: Interval3D<P>, o: seq<Interval3D<P>>, w: real, k: nat)
    requires k <= |o|
    ensures forall m :: k <= m < Reach(a, o, w, k) ==> o[m].t1 - w <= a.t2
    decreases |o| - k
  {
    if k < |o| && o[k].t1 - w <= a.t2 {
      ReachMeaning(a, o, w, k + 1);
    }
  }

  /** How many boxes from `start` the inner loop looks at: those before the break and the one it breaks on. */
  function ScanLength<P>(a: Interval3D<P>, o: seq<Interval3D<P>>, w: real, start: nat): (n: nat)
    requires start <= |o|
    ensures start + n <= |o|
  {
    var r := Reach(a, o, w, start);
    if r < |o| then r - start + 1 else |o| - start
  }

  /** `start_index` when the outer loop reaches the receiver box at position `i`. */
  function StartBefore<P>(s: seq<Interval3D<P>>, o: seq<Interval3D<P>>, w: real, i: nat): (r: nat)
    requires i <= |s|
    ensures r <= |o|
  {
    if i == 0 then 0
    else
      var st := StartBefore(s, o, w, i - 1);
      NextStart(s[i - 1], o, w, st, ScanLength(s[i - 1], o, w, st))
  }

  /** For each receiver box, the positions of `other` it is scanned against: from the start index up to the break. */
  function Windows<P>(s: seq<Interval3D<P>>, o: seq<Interval3D<P>>, w: real): (ws: seq<(nat, nat)>)
    ensures |ws| == |s| && Fits(ws, |o|)
  {
    WindowsUpTo(s, o, w, |s|)
  }

  /** The windows of the first `m` receiver boxes. */
  function WindowsUpTo<P>(s: seq<Interval3D<P>>, o: seq<Interval3D<P>>, w: real, m: nat): (ws: seq<(nat, nat)>)
    requires m <= |s|
    ensures |ws| == m && Fits(ws, |o|)
  {
    if m == 0 then []
    else
      var st := StartBefore(s, o, w, m - 1);
      WindowsUpTo(s, o, w, m - 1) + [(st, Reach(s[m - 1], o, w, st))]
  }

  /** The window of receiver box `i` runs from its start index up to its break. */
  lemma {:induction false} WindowAt<P>(s: seq<Interval3D<P>>, o: seq<Interval3D<P>>, w: real, m: nat, i: nat)
    requires i < m <= |s|
    ensures WindowsUpTo(s, o, w, m)[i] == (StartBefore(s, o, w, i), Reach(s[i], o, w, StartBefore(s, o, w, i)))
  {
    if i < m - 1 {
      WindowAt(s, o, w, m - 1, i);
      WindowsUpToKeeps(s, o, w, m, i);
    } else {
      WindowLast(s, o, w, m, i);
    }
  }

  /** The window of receiver box `i` is the last of the first `i + 1`. */
  lemma WindowLast<P>(s: seq<Interval3D<P>>, o: seq<Interval3D<P>>, w: real, m: nat, i: nat)
    requires i + 1 == m <= |s|
    ensures WindowsUpTo(s, o, w, m)[i] == (StartBefore(s, o, w, i), Reach(s[i], o, w, StartBefore(s, o, w, i)))
  {
  }

  /** One more receiver box leaves the earlier windows as they were. */
  lemma WindowsUpToKeeps<P>(s: seq<Interval3D<P>>, o: seq<Interval3D<P>>, w: real, m: nat, i: nat)
    requires i + 1 < m <= |s|
    ensures WindowsUpTo(s, o, w, m)[i] == WindowsUpTo(s, o, w, m - 1)[i]
  {
  }

  /** Every window lies within positions `0..n`. */
  ghost predicate Fits(ws: seq<(nat, nat)>, n: nat)
  {
    forall i :: 0 <= i < |ws| ==> ws[i].0 <= ws[i].1 <= n
  }

  /** The pair of receiver box `i` and box `k` of `other` has the predicate evaluated on it. */
  predicate Evaluated<P>(s: seq<Interval3D<P>>, o: seq<Interval3D<P>>, w: real, i: nat, k: int)
    requires i < |s|
  {
    var ws := Windows(s, o, w);
    ws[i].0 <= k < ws[i].1
  }

  /** What the pairs of `a` with the boxes of `other` at positions `lo..hi` add, in scan order. */
  function SpanRow<P, Q>(a: Interval3D<P>, o: seq<Interval3D<P>>, lo: nat, hi: nat,
                         cell: (Interval3D<P>, Interval3D<P>) -> seq<Q>): seq<Q>
    requires lo <= hi <= |o|
    decreases hi
  {
    if hi == lo then [] else SpanRow(a, o, lo, hi - 1, cell) + cell(a, o[hi - 1])
  }

  /** A row over one more box adds that box's cell. */
  lemma SpanRowNext<P, Q>(a: Interval3D<P>, o: seq<Interval3D<P>>, lo: nat, hi: nat,
                          cell: (Interval3D<P>, Interval3D<P>) -> seq<Q>)
    requires lo <= hi < |o|
    ensures SpanRow(a, o, lo, hi + 1, cell) == SpanRow(a, o, lo, hi, cell) + cell(a, o[hi])
  {
  }

  /** What the first `m` receiver boxes add, each over its window of `other` (the first `m` of `ws`). */
  function Rows<P, Q>(s: seq<Interval3D<P>>, o: seq<Interval3D<P>>, ws: seq<(nat, nat)>, m: nat,
                      cell: (Interval3D<P>, Interval3D<P>) -> seq<Q>): seq<Q>
    requires m <= |s| && m <= |ws| && Fits(ws, |o|)
  {
    if m == 0 then []
    else Rows(s, o, ws, m - 1, cell) + SpanRow(s[m - 1], o, ws[m - 1].0, ws[m - 1].1, cell)
  }

  /** The rows of the first `m` receiver boxes depend only on the first `m` windows. */
  lemma {:induction false} RowsPrefix<P, Q>(s: seq<Interval3D<P>>, o: seq<Interval3D<P>>, ws: seq<(nat, nat)>,
                                            more: seq<(nat, nat)>, m: nat, cell: (Interval3D<P>, Interval3D<P>) -> seq<Q>)
    requires m <= |s| && m <= |ws| && Fits(ws, |o|) && Fits(ws + more, |o|)
    ensures Rows(s, o, ws, m, cell) == Rows(s, o, ws + more, m, cell)
  {
    if m > 0 {
      RowsPrefix(s, o, ws, more, m - 1, cell);
      assert (ws + more)[m - 1] == ws[m - 1];
    }
  }

  /** The rows of `m + 1` receiver boxes add the row of the last over its window. */
  lemma RowsNext<P, Q>(s: seq<Interval3D<P>>, o: seq<Interval3D<P>>, ws: seq<(nat, nat)>, m: nat,
                       cell: (Interval3D<P>, Interval3D<P>) -> seq<Q>, start: nat, end: nat, acc: seq<Q>, row: seq<Q>)
    requires m < |s| && m < |ws| && Fits(ws, |o|) && ws[m] == (start, end)
    requires acc == Rows(s, o, ws, m, cell)
    requires row == SpanRow(s[m], o, start, end, cell)
    ensures acc + row == Rows(s, o, ws, m + 1, cell)
  {
  }

  /** One more window adds the row of the next receiver box over it. */
  lemma RowsExtend<P, Q>(s: seq<Interval3D<P>>, o: seq<Interval3D<P>>, ws: seq<(nat, nat)>, m: nat,
                         cell: (Interval3D<P>, Interval3D<P>) -> seq<Q>, start: nat, end: nat, acc: seq<Q>, row: seq<Q>)
    requires m == |ws| < |s| && Fits(ws, |o|) && start <= end <= |o|
    requires acc == Rows(s, o, ws, m, cell)
    requires row == SpanRow(s[m], o, start, end, cell)
    ensures Fits(ws + [(start, end)], |o|)
    ensures acc + row == Rows(s, o, ws + [(start, end)], m + 1, cell)
  {
    var longer := ws + [(start, end)];
    FitsAppend(ws, start, end, |o|);
    RowsPrefix(s, o, ws, [(start, end)], m, cell);
    assert longer[m] == (start, end);
    RowsNext(s, o, longer, m, cell, start, end, acc, row);
  }

  /** One more receiver box extends both the output and the log of evaluations by its row. */
  lemma JoinRowsExtend<P, Q>(s: seq<Interval3D<P>>, o: seq<Interval3D<P>>, ws: seq<(nat, nat)>, m: nat,
                             mergeOp: (Interval3D<P>, Interval3D<P>) -> seq<Interval3D<Q>>,
                             pred: (Interval3D<P>, Interval3D<P>) -> bool, start: nat, end: nat,
                             output: seq<Interval3D<Q>>, row: seq<Interval3D<Q>>,
                             evaluated: seq<(Interval3D<P>, Interval3D<P>)>, pairs: seq<(Interval3D<P>, Interval3D<P>)>)
    requires m == |ws| < |s| && Fits(ws, |o|) && start <= end <= |o|
    requires output == Rows(s, o, ws, m, JoinCell(pred, mergeOp))
    requires evaluated == Rows(s, o, ws, m, PairCell())
    requires row == SpanRow(s[m], o, start, end, JoinCell(pred, mergeOp))
    requires pairs == SpanRow(s[m], o, start, end, PairCell())
    ensures Fits(ws + [(start, end)], |o|)
    ensures output + row == Rows(s, o, ws + [(start, end)], m + 1, JoinCell(pred, mergeOp))
    ensures evaluated + pairs == Rows(s, o, ws + [(start, end)], m + 1, PairCell())
  {
    RowsExtend(s, o, ws, m, JoinCell(pred, mergeOp), start, end, output, row);
    RowsExtend(s, o, ws, m, PairCell(), start, end, evaluated, pairs);
  }

  lemma FitsAppend(ws: seq<(nat, nat)>, start: nat, end: nat, n: nat)
    requires Fits(ws, n) && start <= end <= n
    ensures Fits(ws + [(start, end)], n)
  {
  }

  /** What one evaluated pair adds to the output. */
  function JoinCell<P, Q>(pred: (Interval3D<P>, Interval3D<P>) -> bool,
                          mergeOp: (Interval3D<P>, Interval3D<P>) -> seq<Interval3D<Q>>)
    : (Interval3D<P>, Interval3D<P>) -> seq<Interval3D<Q>>
  {
    (a, b) => if pred(a, b) then mergeOp(a, b) else []
  }

  /** One evaluated pair, as the log of evaluations records it. */
  function PairCell<P>(): (Interval3D<P>, Interval3D<P>) -> seq<(Interval3D<P>, Interval3D<P>)>
  {
    (a, b) => [(a, b)]
  }

  /** `working_window`, defaulting to the receiver's. */
  function Window<P>(L: IntervalList3D<P>, workingWindow: Option<real>): real
  {
    if workingWindow.None? then L.workingWindow else workingWindow.value
  }

  /** The list `join` returns. */
  function JoinSpec<P, Q>(L: IntervalList3D<P>, O: IntervalList3D<P>,
                          mergeOp: (Interval3D<P>, Interval3D<P>) -> seq<Interval3D<Q>>,
                          pred: (Interval3D<P>, Interval3D<P>) -> bool,
                          workingWindow: Option<real>): IntervalList3D<Q>
  {
    var s, o := L.intrvls, O.intrvls;
    Make(Rows(s, o, Windows(s, o, Window(L, workingWindow)), |s|, JoinCell(pred, mergeOp)))
  }

  // -------------------------------------------------------------------
  // The loops

  /**
   * The inner loop of `join` for the receiver box `a`: scans `other` from
   * `start`, collecting what is appended to the output and (ghost) the pairs
   * evaluated, and reports `new_start_index`.
   */
  method JoinRow<P, Q>(a: Interval3D<P>, o: seq<Interval3D<P>>, start: nat, w: real,
                       mergeOp: (Interval3D<P>, Interval3D<P>) -> seq<Interval3D<Q>>,
                       pred: (Interval3D<P>, Interval3D<P>) -> bool)
    returns (row: seq<Interval3D<Q>>, ghost evaluated: seq<(Interval3D<P>, Interval3D<P>)>, newStart: Option<nat>)
    requires start <= |o|
    ensures row == SpanRow(a, o, start, Reach(a, o, w, start), JoinCell(pred, mergeOp))
    ensures evaluated == SpanRow(a, o, start, Reach(a, o, w, start), PairCell())
    ensures newStart == FirstQualifying(a, o, w, start, ScanLength(a, o, w, start))
  {
    ghost var cell, pcell := JoinCell(pred, mergeOp), PairCell<P>();
    ReachMeaning(a, o, w, start);
    row, evaluated, newStart := [], [], None;
    var idx := 0;
    while idx < |o| - start
      invariant 0 <= idx <= |o| - start
      invariant start + idx <= Reach(a, o, w, start)
      invariant row == SpanRow(a, o, start, start + idx, cell)
      invariant evaluated == SpanRow(a, o, start, start + idx, pcell)
      invariant newStart == FirstQualifying(a, o, w, start, idx)
    {
      var b := o[start + idx];
      FirstQualifyingNext(a, o, w, start, idx);
      if newStart.None? {
        if a.t1 < b.t1 {
          newStart := Some(idx);
        } else if a.t1 - w <= b.t2 {
          newStart := Some(idx);
        }
      }
      if b.t1 - w > a.t2 {
        // the break position
        assert Reach(a, o, w, start) == start + idx;
        assert ScanLength(a, o, w, start) == idx + 1;
        return;
      }
      evaluated := evaluated + [(a, b)];
      row := AppendMerged(row, a, b, mergeOp, pred);
      idx := idx + 1;
    }
  }

  /** The body of the inner loop after the break test: the merge of a pair on which the predicate holds is appended. */
  method AppendMerged<P, Q>(output: seq<Interval3D<Q>>, a: Interval3D<P>, b: Interval3D<P>,
                            mergeOp: (Interval3D<P>, Interval3D<P>) -> seq<Interval3D<Q>>,
                            pred: (Interval3D<P>, Interval3D<P>) -> bool)
    returns (r: seq<Interval3D<Q>>)
    ensures r == output + JoinCell(pred, mergeOp)(a, b)
  {
    r := output;
    if pred(a, b) {
      var newIntrvls := mergeOp(a, b);
      if |newIntrvls| > 0 {
        r := r + newIntrvls;
      }
    }
  }

  /** The two loops of `join` over the box lists `s` and `o` with window `w`. */
  method JoinSweep<P, Q>(s: seq<Interval3D<P>>, o: seq<Interval3D<P>>, w: real,
                         mergeOp: (Interval3D<P>, Interval3D<P>) -> seq<Interval3D<Q>>,
                         pred: (Interval3D<P>, Interval3D<P>) -> bool)
    returns (output: seq<Interval3D<Q>>, ghost evaluated: seq<(Interval3D<P>, Interval3D<P>)>)
    ensures output == Rows(s, o, Windows(s, o, w), |s|, JoinCell(pred, mergeOp))
    ensures evaluated == Rows(s, o, Windows(s, o, w), |s|, PairCell())
  {
    output, evaluated := [], [];
    var startIndex: nat := 0;
    ghost var ws: seq<(nat, nat)> := [];
    for i := 0 to |s|
      invariant startIndex == StartBefore(s, o, w, i)
      invariant ws == WindowsUpTo(s, o, w, i)
      invariant output == Rows(s, o, ws, i, JoinCell(pred, mergeOp))
      invariant evaluated == Rows(s, o, ws, i, PairCell())
    {
      startIndex, ws, output, evaluated := SweepStep(s, o, w, mergeOp, pred, i, startIndex, ws, output, evaluated);
    }
  }

  /** One round of the outer loop of `join`: the receiver box at position `i` is scanned and the start index moves on. */
  method SweepStep<P, Q>(s: seq<Interval3D<P>>, o: seq<Interval3D<P>>, w: real,
                         mergeOp: (Interval3D<P>, Interval3D<P>) -> seq<Interval3D<Q>>,
                         pred: (Interval3D<P>, Interval3D<P>) -> bool, i: nat, startIndex: nat,
                         ghost ws: seq<(nat, nat)>, output: seq<Interval3D<Q>>, ghost evaluated: seq<(Interval3D<P>, Interval3D<P>)>)
    returns (startIndex': nat, ghost ws': seq<(nat, nat)>, output': seq<Interval3D<Q>>, ghost evaluated': seq<(Interval3D<P>, Interval3D<P>)>)
    requires i < |s| && startIndex == StartBefore(s, o, w, i) && ws == WindowsUpTo(s, o, w, i)
    requires output == Rows(s, o, ws, i, JoinCell(pred, mergeOp))
    requires evaluated == Rows(s, o, ws, i, PairCell())
    ensures startIndex' == StartBefore(s, o, w, i + 1) && ws' == WindowsUpTo(s, o, w, i + 1)
    ensures output' == Rows(s, o, ws', i + 1, JoinCell(pred, mergeOp))
    ensures evaluated' == Rows(s, o, ws', i + 1, PairCell())
  {
    var row, newStart;
    ghost var pairs;
    row, pairs, newStart := JoinRow(s[i], o, startIndex, w, mergeOp, pred);
    ghost var end := Reach(s[i], o, w, startIndex);
    JoinRowsExtend(s, o, ws, i, mergeOp, pred, startIndex, end, output, row, evaluated, pairs);
    output', evaluated' := output + row, evaluated + pairs;
    ws' := ws + [(startIndex, end)];
    startIndex' := startIndex;
    if newStart.Some? {
      startIndex' := startIndex + newStart.value;
    }
  }

  /** `join(other, merge_op, predicate, working_window)` */
  method Join<P, Q>(L: IntervalList3D<P>, O: IntervalList3D<P>,
                    mergeOp: (Interval3D<P>, Interval3D<P>) -> seq<Interval3D<Q>>,
                    pred: (Interval3D<P>, Interval3D<P>) -> bool,
                    workingWindow: Option<real>)
    returns (r: IntervalList3D<Q>, ghost evaluated: seq<(Interval3D<P>, Interval3D<P>)>)
    ensures r == JoinSpec(L, O, mergeOp, pred, workingWindow)
    ensures evaluated == Rows(L.intrvls, O.intrvls, Windows(L.intrvls, O.intrvls, Window(L, workingWindow)), |L.intrvls|, PairCell())
  {
    var w := if workingWindow.None? then L.workingWindow else workingWindow.value;
    var output;
    output, evaluated := JoinSweep(L.intrvls, O.intrvls, w, mergeOp, pred);
    r := Make(output);
  }

  // -------------------------------------------------------------------
  // `experimental_join`

  /** Boxes with the given bounds, all carrying `payload`. */
  function Stamp<Q>(keys: seq<Bounds>, payload: Q): (r: seq<Interval3D<Q>>)
    ensures |r| == |keys|
    ensures forall j :: 0 <= j < |r| ==> BoundsOf(r[j]) == keys[j] && r[j].payload == payload
  {
    if keys == [] then [] else [FromBounds(keys[0], payload)] + Stamp(keys[1..], payload)
  }

  /** The `merge_op` that `experimental_join` builds from its two generators. */
  function Generated<P, Q>(intervalGenerator: (Interval3D<P>, Interval3D<P>) -> seq<Bounds>,
                           payloadGenerator: (Interval3D<P>, Interval3D<P>) -> Q)
    : (Interval3D<P>, Interval3D<P>) -> seq<Interval3D<Q>>
  {
    (a, b) => Stamp(intervalGenerator(a, b), payloadGenerator(a, b))
  }

  /** The default `interval_generator`: the bounds of the receiver's box. */
  function DefaultIntervals<P>(a: Interval3D<P>, b: Interval3D<P>): seq<Bounds>
  {
    [BoundsOf(a)]
  }

  /** The default `payload_generator`: the receiver's payload paired with the other box. */
  function DefaultPayload<P>(a: Interval3D<P>, b: Interval3D<P>): (P, Interval3D<P>)
  {
    (a.payload, b)
  }

  /** `experimental_join(other, predicate, interval_generator, payload_generator, working_window)` */
  method ExperimentalJoin<P, Q>(L: IntervalList3D<P>, O: IntervalList3D<P>,
                                pred: (Interval3D<P>, Interval3D<P>) -> bool,
                                intervalGenerator: (Interval3D<P>, Interval3D<P>) -> seq<Bounds>,
                                payloadGenerator: (Interval3D<P>, Interval3D<P>) -> Q,
                                workingWindow: Option<real>)
    returns (r: IntervalList3D<Q>, ghost evaluated: seq<(Interval3D<P>, Interval3D<P>)>)
    ensures r == JoinSpec(L, O, Generated(intervalGenerator, payloadGenerator), pred, workingWindow)
    ensures evaluated == Rows(L.intrvls, O.intrvls, Windows(L.intrvls, O.intrvls, Window(L, workingWindow)), |L.intrvls|, PairCell())
  {
    r, evaluated := Join(L, O, Generated(intervalGenerator, payloadGenerator), pred, workingWindow);
  }

  // -------------------------------------------------------------------
  // Which pairs the join reaches

  /** A row holds exactly what the cells of its scanned boxes hold. */
  lemma {:induction false} SpanRowMembers<P, Q>(a: Interval3D<P>, o: seq<Interval3D<P>>, lo: nat, hi: nat,
                                                cell: (Interval3D<P>, Interval3D<P>) -> seq<Q>, x: Q)
    requires lo <= hi <= |o|
    ensures x in SpanRow(a, o, lo, hi, cell) <==> exists k :: lo <= k < hi && x in cell(a, o[k])
    decreases hi
  {
    if hi > lo {
      SpanRowMembers(a, o, lo, hi - 1, cell, x);
      assert SpanRow(a, o, lo, hi, cell) == SpanRow(a, o, lo, hi - 1, cell) + cell(a, o[hi - 1]);
    }
  }

  /** `x` comes from the cell of a pair within the windows of the first `m` receiver boxes. */
  ghost predicate InRows<P, Q>(s: seq<Interval3D<P>>, o: seq<Interval3D<P>>, ws: seq<(nat, nat)>, m: nat,
                               cell: (Interval3D<P>, Interval3D<P>) -> seq<Q>, x: Q)
    requires m <= |s| == |ws| && Fits(ws, |o|)
  {
    exists i, k :: 0 <= i < m && ws[i].0 <= k < ws[i].1 && x in cell(s[i], o[k])
  }

  /** The rows hold exactly what the cells of the pairs within the windows hold. */
  lemma {:induction false} RowsMembers<P, Q>(s: seq<Interval3D<P>>, o: seq<Interval3D<P>>, ws: seq<(nat, nat)>, m: nat,
                                             cell: (Interval3D<P>, Interval3D<P>) -> seq<Q>, x: Q)
    requires m <= |s| == |ws| && Fits(ws, |o|)
    ensures x in Rows(s, o, ws, m, cell) <==> InRows(s, o, ws, m, cell, x)
  {
    if m > 0 {
      var (st, en) := ws[m - 1];
      RowsMembers(s, o, ws, m - 1, cell, x);
      SpanRowMembers(s[m - 1], o, st, en, cell, x);
      if x in Rows(s, o, ws, m, cell) {
        if x in Rows(s, o, ws, m - 1, cell) {
          var i, k :| 0 <= i < m - 1 && ws[i].0 <= k < ws[i].1 && x in cell(s[i], o[k]);
          assert InRows(s, o, ws, m, cell, x);
        } else {
          var k :| st <= k < st + (en - st) && x in cell(s[m - 1], o[k]);
          assert InRows(s, o, ws, m, cell, x);
        }
      }
      if InRows(s, o, ws, m, cell, x) {
        var i, k :| 0 <= i < m && ws[i].0 <= k < ws[i].1 && x in cell(s[i], o[k]);
        if i < m - 1 {
          assert InRows(s, o, ws, m - 1, cell, x);
        }
      }
    }
  }

  /** Before the receiver box at `i` is scanned, every box behind the start index ends before its window opens. */
  lemma {:induction false} StartBeforeEndsBefore<P>(s: seq<Interval3D<P>>, o: seq<Interval3D<P>>, w: real, i: nat)
    requires StartsAscending(s) && i < |s|
    ensures EndsBefore(o, StartBefore(s, o, w, i), s[i], w)
  {
    if i > 0 {
      var st := StartBefore(s, o, w, i - 1);
      StartBeforeEndsBefore(s, o, w, i - 1);
      NextStartSkipsEarly(s[i - 1], o, w, st, ScanLength(s[i - 1], o, w, st));
      EndsBeforeLater(o, StartBefore(s, o, w, i), s[i - 1], s[i], w);
    }
  }

  /**
   * On sorted lists, every pair whose boxes lie within the window of each
   * other (`b.t1 - w <= a.t2` and `b.t2 >= a.t1 - w`) has the predicate
   * evaluated on it.
   */
  lemma JoinEvaluatesWindow<P>(s: seq<Interval3D<P>>, o: seq<Interval3D<P>>, w: real, i: nat, k: nat)
    requires StartsAscending(s) && StartsAscending(o)
    requires i < |s| && k < |o|
    requires o[k].t1 - w <= s[i].t2 && o[k].t2 >= s[i].t1 - w
    ensures Evaluated(s, o, w, i, k)
  {
    StartBeforeEndsBefore(s, o, w, i);
    WindowAt(s, o, w, |s|, i);
  }

  /** No pair whose box of `other` starts after the receiver box's window closes is evaluated. */
  lemma JoinEvaluatesOnlyReachable<P>(s: seq<Interval3D<P>>, o: seq<Interval3D<P>>, w: real, i: nat, k: int)
    requires i < |s| && Evaluated(s, o, w, i, k)
    ensures 0 <= k < |o| && o[k].t1 - w <= s[i].t2
  {
    ReachMeaning(s[i], o, w, StartBefore(s, o, w, i));
    WindowAt(s, o, w, |s|, i);
  }

  /** The predicate is evaluated on exactly the evaluated pairs, in the loops' order. */
  lemma JoinEvaluations<P>(L: IntervalList3D<P>, O: IntervalList3D<P>, w: real, a: Interval3D<P>, b: Interval3D<P>)
    ensures var s, o := L.intrvls, O.intrvls;
            (a, b) in Rows(s, o, Windows(s, o, w), |s|, PairCell()) <==>
            exists i, k :: 0 <= i < |s| && Evaluated(s, o, w, i, k) && s[i] == a && o[k] == b
  {
    var s, o := L.intrvls, O.intrvls;
    RowsMembers(s, o, Windows(s, o, w), |s|, PairCell(), (a, b));
  }

  /**
   * An output box comes from a merge of an evaluated pair on which the
   * predicate holds, and every such merge is in the output.
   */
  lemma JoinOutputs<P, Q>(L: IntervalList3D<P>, O: IntervalList3D<P>,
                          mergeOp: (Interval3D<P>, Interval3D<P>) -> seq<Interval3D<Q>>,
                          pred: (Interval3D<P>, Interval3D<P>) -> bool,
                          workingWindow: Option<real>, x: Interval3D<Q>)
    ensures var s, o, w := L.intrvls, O.intrvls, Window(L, workingWindow);
            x in JoinSpec(L, O, mergeOp, pred, workingWindow).intrvls <==>
            exists i, k :: 0 <= i < |s| && Evaluated(s, o, w, i, k) && pred(s[i], o[k]) && x in mergeOp(s[i], o[k])
  {
    var s, o, w := L.intrvls, O.intrvls, Window(L, workingWindow);
    var ws := Windows(s, o, w);
    var rows := Rows(s, o, ws, |s|, JoinCell(pred, mergeOp));
    MakeElements(rows, x);
    RowsMembers(s, o, ws, |s|, JoinCell(pred, mergeOp), x);
    assert x in rows <==> InRows(s, o, ws, |s|, JoinCell(pred, mergeOp), x);
    if InRows(s, o, ws, |s|, JoinCell(pred, mergeOp), x) {
      var i, k :| 0 <= i < |s| && ws[i].0 <= k < ws[i].1 && x in JoinCell(pred, mergeOp)(s[i], o[k]);
      assert Evaluated(s, o, w, i, k);
    }
    if exists i, k :: 0 <= i < |s| && Evaluated(s, o, w, i, k) && pred(s[i], o[k]) && x in mergeOp(s[i], o[k]) {
      var i, k :| 0 <= i < |s| && Evaluated(s, o, w, i, k) && pred(s[i], o[k]) && x in mergeOp(s[i], o[k]);
      assert InRows(s, o, ws, |s|, JoinCell(pred, mergeOp), x);
    }
  }

  /** An empty receiver or an empty `other` gives an empty list. */
  lemma {:induction false} JoinOfEmpty<P, Q>(s: seq<Interval3D<P>>, o: seq<Interval3D<P>>, ws: seq<(nat, nat)>, m: nat,
                                             cell: (Interval3D<P>, Interval3D<P>) -> seq<Q>)
    requires m <= |s| == |ws| && Fits(ws, |o|) && (s == [] || o == [])
    ensures Rows(s, o, ws, m, cell) == []
  {
    if m > 0 {
      JoinOfEmpty(s, o, ws, m - 1, cell);
      assert ws[m - 1].1 - ws[m - 1].0 == 0;
    }
  }

  /**
   * `experimental_join` outputs, for each evaluated pair on which the
   * predicate holds, one box per generated bound tuple carrying the
   * generated payload, and nothing else.
   */
  lemma ExperimentalJoinOutputs<P, Q>(L: IntervalList3D<P>, O: IntervalList3D<P>,
                                      pred: (Interval3D<P>, Interval3D<P>) -> bool,
                                      intervalGenerator: (Interval3D<P>, Interval3D<P>) -> seq<Bounds>,
                                      payloadGenerator: (Interval3D<P>, Interval3D<P>) -> Q,
                                      workingWindow: Option<real>, x: Interval3D<Q>)
    ensures var s, o, w := L.intrvls, O.intrvls, Window(L, workingWindow);
            x in JoinSpec(L, O, Generated(intervalGenerator, payloadGenerator), pred, workingWindow).intrvls <==>
            exists i, k :: 0 <= i < |s| && Evaluated(s, o, w, i, k) && pred(s[i], o[k]) &&
              BoundsOf(x) in intervalGenerator(s[i], o[k]) && x.payload == payloadGenerator(s[i], o[k])
  {
    var s, o, w := L.intrvls, O.intrvls, Window(L, workingWindow);
    var mergeOp := Generated(intervalGenerator, payloadGenerator);
    JoinOutputs(L, O, mergeOp, pred, workingWindow, x);
    forall a, b ensures x in mergeOp(a, b) <==> BoundsOf(x) in intervalGenerator(a, b) && x.payload == payloadGenerator(a, b) {
      StampMembers(intervalGenerator(a, b), payloadGenerator(a, b), x);
    }
  }

  /** A stamped box is one of the given bounds with the given payload. */
  lemma StampMembers<Q>(keys: seq<Bounds>, payload: Q, x: Interval3D<Q>)
    ensures x in Stamp(keys, payload) <==> BoundsOf(x) in keys && x.payload == payload
  {
    var r := Stamp(keys, payload);
    if BoundsOf(x) in keys && x.payload == payload {
      var j :| 0 <= j < |keys| && keys[j] == BoundsOf(x);
      SortKeyIdentifiesBounds(r[j], x);
    }
  }

  /**
   * With the default generators, `experimental_join` outputs a copy of the
   * receiver's box for each evaluated pair on which the predicate holds,
   * carrying the receiver's payload and the other box.
   */
  lemma DefaultExperimentalJoin<P>(L: IntervalList3D<P>, O: IntervalList3D<P>,
                                   pred: (Interval3D<P>, Interval3D<P>) -> bool,
                                   workingWindow: Option<real>, x: Interval3D<(P, Interval3D<P>)>)
    ensures var s, o, w := L.intrvls, O.intrvls, Window(L, workingWindow);
            x in JoinSpec(L, O, Generated(DefaultIntervals, DefaultPayload), pred, workingWindow).intrvls <==>
            exists i, k :: 0 <= i < |s| && Evaluated(s, o, w, i, k) && pred(s[i], o[k]) &&
              x == FromBounds(BoundsOf(s[i]), (s[i].payload, o[k]))
  {
    ExperimentalJoinOutputs(L, O, pred, DefaultIntervals, DefaultPayload, workingWindow, x);
  }
}
