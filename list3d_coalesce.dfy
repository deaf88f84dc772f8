// `IntervalList3D.coalesce` of `rekall/interval_list_3d.py`: one pass over the
// sorted boxes that holds a list of open boxes. Before each box, the open boxes
// that end before it starts are emitted. The box then either opens a new held
// box or is absorbed into the first open box it touches and the predicate
// accepts.
//
// The held boxes are Python objects. A box appended at line 248 is a copy, but
// one appended at line 253 is the receiver's own box, so a later absorb
// rewrites the receiver's box in place. Beside the boxes the model keeps, for
// every held box, the receiver position it aliases (`None` for a copy), and
// `Written` gives the receiver's boxes after the call.

module List3DCoalesce {
  import opened Common
  import Seqs
  import opened IntervalList3DModel

  /** The two tests of the flush: `cur.t2 < intrvl.t1` (emitted) and `cur.t2 >= intrvl.t1` (kept open). */
  function Side<P>(t: real, ended: bool): Interval3D<P> -> bool
  {
    (b: Interval3D<P>) => if ended then b.t2 < t else b.t2 >= t
  }

  /** The test that picks `matched_interval`. */
  predicate Matches<P>(cur: Interval3D<P>, x: Interval3D<P>, pred: (Interval3D<P>, Interval3D<P>) -> bool)
  {
    Touch3D(cur, x) && pred(cur, x)
  }

  /** The position of the first open box from `k` on that `x` matches. */
  function FirstMatch<P>(open: seq<Interval3D<P>>, x: Interval3D<P>, pred: (Interval3D<P>, Interval3D<P>) -> bool, k: nat)
    : (r: Option<nat>)
    requires k <= |open|
    ensures r.Some? ==> k <= r.value < |open| && Matches(open[r.value], x, pred)
    decreases |open| - k
  {
    if k == |open| then None
    else if Matches(open[k], x, pred) then Some(k)
    else FirstMatch(open, x, pred, k + 1)
  }

  /** No open box before the one `FirstMatch` settles on matches. */
  lemma {:induction false} FirstMatchMeaning<P>(open: seq<Interval3D<P>>, x: Interval3D<P>,
                                                pred: (Interval3D<P>, Interval3D<P>) -> bool, k: nat)
    requires k <= |open|
    ensures var r := FirstMatch(open, x, pred, k);
            forall m :: k <= m < (if r.Some? then r.value else |open|) ==> !Matches(open[m], x, pred)
    decreases |open| - k
  {
    if k < |open| && !Matches(open[k], x, pred) {
      FirstMatchMeaning(open, x, pred, k + 1);
    }
  }

  /**
   * The merge of `intrvl` into `cur` (lines 256-261): payloads combined, `t2`,
   * `x2` and `y2` the larger, `x1` and `y1` the smaller; `t1` stays.
   */
  function Absorb<P>(cur: Interval3D<P>, x: Interval3D<P>, payloadMerge: (P, P) -> P): (r: Interval3D<P>)
    ensures Within(cur, r)
    ensures cur.t1 <= x.t1 ==> Within(x, r)
    ensures r.t1 == cur.t1 && r.payload == payloadMerge(cur.payload, x.payload)
  {
    Interval3D(cur.t1, Max(cur.t2, x.t2), Min(cur.x1, x.x1), Max(cur.x2, x.x2),
               Min(cur.y1, x.y1), Max(cur.y2, x.y2), payloadMerge(cur.payload, x.payload))
  }

  /** Absorbing into a box that starts no later is `Interval3D.merge`. */
  lemma AbsorbIsMerge<P>(cur: Interval3D<P>, x: Interval3D<P>, payloadMerge: (P, P) -> P)
    requires cur.t1 <= x.t1
    ensures Absorb(cur, x, payloadMerge) == Merge(cur, x, payloadMerge)
  {
  }

  // -------------------------------------------------------------------
  // The boxes

  /** The state of the loop: the boxes appended to `new_intrvls`, and `current_intervals`. */
  datatype Sweep<P> = Sweep(emitted: seq<Interval3D<P>>, current: seq<Interval3D<P>>)

  /** One round of the loop on the receiver's box `x`. */
  function Step<P>(st: Sweep<P>, x: Interval3D<P>, payloadMerge: (P, P) -> P,
                   pred: (Interval3D<P>, Interval3D<P>) -> bool): Sweep<P>
  {
    var emitted := st.emitted + Seqs.Filter(st.current, Side(x.t1, true));
    var open := Seqs.Filter(st.current, Side(x.t1, false));
    if |open| == 0 then Sweep(emitted, [x])
    else match FirstMatch(open, x, pred, 0)
      case None => Sweep(emitted, open + [x])
      case Some(k) => Sweep(emitted, open[k := Absorb(open[k], x, payloadMerge)])
  }

  /** The state after the loop has visited `s[..n]`. */
  function Prefix<P>(s: seq<Interval3D<P>>, n: nat, payloadMerge: (P, P) -> P,
                     pred: (Interval3D<P>, Interval3D<P>) -> bool): Sweep<P>
    requires n <= |s|
  {
    if n == 0 then Sweep([], []) else Step(Prefix(s, n - 1, payloadMerge, pred), s[n - 1], payloadMerge, pred)
  }

  /** `new_intrvls` once the open boxes are appended after the loop. */
  function Output<P>(s: seq<Interval3D<P>>, payloadMerge: (P, P) -> P,
                     pred: (Interval3D<P>, Interval3D<P>) -> bool): seq<Interval3D<P>>
  {
    var st := Prefix(s, |s|, payloadMerge, pred);
    st.emitted + st.current
  }

  /** `coalesce(payload_merge_op, predicate)`: the list itself when empty. */
  function CoalesceOf<P>(L: IntervalList3D<P>, payloadMerge: (P, P) -> P,
                         pred: (Interval3D<P>, Interval3D<P>) -> bool): IntervalList3D<P>
  {
    if |L.intrvls| == 0 then L else Make(Output(L.intrvls, payloadMerge, pred))
  }

  // -------------------------------------------------------------------
  // Which receiver box each held box is

  /** The tags of the boxes that pass `p`, in order: what a comprehension over `boxes` keeps of them. */
  function Select<P, T>(boxes: seq<Interval3D<P>>, tags: seq<T>, p: Interval3D<P> -> bool): (r: seq<T>)
    requires |boxes| == |tags|
    ensures |r| == |Seqs.Filter(boxes, p)|
  {
    if boxes == [] then []
    else
      var n := |boxes| - 1;
      Select(boxes[..n], tags[..n], p) + (if p(boxes[n]) then [tags[n]] else [])
  }

  lemma SelectPrefixStep<P, T>(boxes: seq<Interval3D<P>>, tags: seq<T>, p: Interval3D<P> -> bool, i: nat)
    requires |boxes| == |tags| && i < |boxes|
    ensures Select(boxes[..i + 1], tags[..i + 1], p) == Select(boxes[..i], tags[..i], p) + (if p(boxes[i]) then [tags[i]] else [])
  {
    assert boxes[..i + 1][..i] == boxes[..i];
    assert tags[..i + 1][..i] == tags[..i];
  }

  /** The receiver position each emitted and each open box aliases (`None` for a copy). */
  datatype Aliases = Aliases(emitted: seq<Option<nat>>, current: seq<Option<nat>>)

  /**
   * The aliases after the round on the receiver's box `x` at position `j`. With
   * `copyOnAppend` false, the box appended at line 253 is the receiver's own.
   */
  function AliasStep<P>(st: Sweep<P>, al: Aliases, x: Interval3D<P>, j: nat,
                        pred: (Interval3D<P>, Interval3D<P>) -> bool, copyOnAppend: bool): Aliases
    requires |al.current| == |st.current|
  {
    var emitted := al.emitted + Select(st.current, al.current, Side(x.t1, true));
    var open := Select(st.current, al.current, Side(x.t1, false));
    var openBoxes := Seqs.Filter(st.current, Side(x.t1, false));
    if |openBoxes| == 0 then Aliases(emitted, [None])
    else if FirstMatch(openBoxes, x, pred, 0).None? then Aliases(emitted, open + [if copyOnAppend then None else Some(j)])
    else Aliases(emitted, open)
  }

  /** The aliases after the loop has visited `s[..n]`, one per held box. */
  function AliasPrefix<P>(s: seq<Interval3D<P>>, n: nat, payloadMerge: (P, P) -> P,
                          pred: (Interval3D<P>, Interval3D<P>) -> bool, copyOnAppend: bool): (al: Aliases)
    requires n <= |s|
    ensures |al.emitted| == |Prefix(s, n, payloadMerge, pred).emitted|
    ensures |al.current| == |Prefix(s, n, payloadMerge, pred).current|
  {
    if n == 0 then Aliases([], [])
    else
      var st := Prefix(s, n - 1, payloadMerge, pred);
      AliasStep(st, AliasPrefix(s, n - 1, payloadMerge, pred, copyOnAppend), s[n - 1], n - 1, pred, copyOnAppend)
  }

  /** The receiver's boxes once every held box has been written through to the box it aliases. */
  function Written<P>(s: seq<Interval3D<P>>, boxes: seq<Interval3D<P>>, tags: seq<Option<nat>>): (r: seq<Interval3D<P>>)
    requires |boxes| == |tags|
    ensures |r| == |s|
  {
    if boxes == [] then s
    else
      var n := |boxes| - 1;
      var r := Written(s, boxes[..n], tags[..n]);
      if tags[n].Some? && tags[n].value < |r| then r[tags[n].value := boxes[n]] else r
  }

  /** The receiver's boxes after `coalesce` returns. */
  function ReceiverAfter<P>(L: IntervalList3D<P>, payloadMerge: (P, P) -> P,
                            pred: (Interval3D<P>, Interval3D<P>) -> bool, copyOnAppend: bool): seq<Interval3D<P>>
  {
    var s := L.intrvls;
    if |s| == 0 then s
    else
      var al := AliasPrefix(s, |s|, payloadMerge, pred, copyOnAppend);
      Written(s, Output(s, payloadMerge, pred), al.emitted + al.current)
  }

  /** The state and the aliases after one more round. */
  lemma PrefixNext<P>(s: seq<Interval3D<P>>, n: nat, payloadMerge: (P, P) -> P,
                      pred: (Interval3D<P>, Interval3D<P>) -> bool, copyOnAppend: bool)
    requires n < |s|
    ensures Prefix(s, n + 1, payloadMerge, pred) == Step(Prefix(s, n, payloadMerge, pred), s[n], payloadMerge, pred)
    ensures AliasPrefix(s, n + 1, payloadMerge, pred, copyOnAppend) ==
            AliasStep(Prefix(s, n, payloadMerge, pred), AliasPrefix(s, n, payloadMerge, pred, copyOnAppend), s[n], n, pred, copyOnAppend)
  {
  }

  // -------------------------------------------------------------------
  // The loops

  /**
   * `coalesce`: the new list, and the receiver's boxes afterwards. With
   * `copyOnAppend` false this is the code as written; with it true, the box
   * appended at line 253 is a copy, as the one at line 248 is.
   */
  method Coalesce<P>(L: IntervalList3D<P>, payloadMerge: (P, P) -> P,
                     pred: (Interval3D<P>, Interval3D<P>) -> bool, copyOnAppend: bool)
    returns (r: IntervalList3D<P>, receiver: seq<Interval3D<P>>)
    ensures r == CoalesceOf(L, payloadMerge, pred)
    ensures receiver == ReceiverAfter(L, payloadMerge, pred, copyOnAppend)
  {
    if |L.intrvls| == 0 {
      return L, L.intrvls;
    }
    var s := L.intrvls;
    var newIntrvls, current, newAliases, curAliases := CoalesceLoop(s, payloadMerge, pred, copyOnAppend);
    // the open boxes are appended last, each with the receiver box it is
    newIntrvls := AppendEach(newIntrvls, current);
    newAliases := AppendEach(newAliases, curAliases);
    r := Make(newIntrvls);
    receiver := Written(s, newIntrvls, newAliases);
  }

  /** The outer loop of `coalesce` over the receiver's boxes `s`. */
  method CoalesceLoop<P>(s: seq<Interval3D<P>>, payloadMerge: (P, P) -> P,
                         pred: (Interval3D<P>, Interval3D<P>) -> bool, copyOnAppend: bool)
    returns (newIntrvls: seq<Interval3D<P>>, current: seq<Interval3D<P>>,
             newAliases: seq<Option<nat>>, curAliases: seq<Option<nat>>)
    ensures Sweep(newIntrvls, current) == Prefix(s, |s|, payloadMerge, pred)
    ensures Aliases(newAliases, curAliases) == AliasPrefix(s, |s|, payloadMerge, pred, copyOnAppend)
  {
    newIntrvls, current := [], [];
    newAliases, curAliases := [], [];
    for i := 0 to |s|
      invariant Sweep(newIntrvls, current) == Prefix(s, i, payloadMerge, pred)
      invariant Aliases(newAliases, curAliases) == AliasPrefix(s, i, payloadMerge, pred, copyOnAppend)
    {
      PrefixNext(s, i, payloadMerge, pred, copyOnAppend);
      newIntrvls, current, newAliases, curAliases :=
        CoalesceRound(newIntrvls, current, newAliases, curAliases, s[i], i, payloadMerge, pred, copyOnAppend);
    }
  }

  /** Appends each element of `xs` to `acc`, one at a time. */
  method AppendEach<T>(acc: seq<T>, xs: seq<T>) returns (r: seq<T>)
    ensures r == acc + xs
  {
    r := acc;
    for j := 0 to |xs|
      invariant r == acc + xs[..j]
    {
      assert xs[..j + 1] == xs[..j] + [xs[j]];
      r := r + [xs[j]];
    }
    assert xs[..|xs|] == xs;
  }

  /**
   * One round of the outer loop of `coalesce` on the receiver's box `intrvl`
   * at position `j`; the aliases travel with their boxes.
   */
  method CoalesceRound<P>(emitted: seq<Interval3D<P>>, current: seq<Interval3D<P>>,
                          emittedAliases: seq<Option<nat>>, currentAliases: seq<Option<nat>>,
                          intrvl: Interval3D<P>, j: nat,
                          payloadMerge: (P, P) -> P, pred: (Interval3D<P>, Interval3D<P>) -> bool,
                          copyOnAppend: bool)
    returns (emitted': seq<Interval3D<P>>, current': seq<Interval3D<P>>,
             emittedAliases': seq<Option<nat>>, currentAliases': seq<Option<nat>>)
    requires |currentAliases| == |current|
    ensures Sweep(emitted', current') == Step(Sweep(emitted, current), intrvl, payloadMerge, pred)
    ensures Aliases(emittedAliases', currentAliases') ==
            AliasStep(Sweep(emitted, current), Aliases(emittedAliases, currentAliases), intrvl, j, pred, copyOnAppend)
  {
    emitted', emittedAliases' := Flush(emitted, current, emittedAliases, currentAliases, intrvl.t1);
    current' := Seqs.Filter(current, Side(intrvl.t1, false));
    currentAliases' := Select(current, currentAliases, Side(intrvl.t1, false));
    if |current'| == 0 {
      current', currentAliases' := current' + [intrvl], currentAliases' + [None];
      return;
    }
    var matched := FindMatch(current', intrvl, pred);
    if matched.None? {
      current', currentAliases' := current' + [intrvl], currentAliases' + [if copyOnAppend then None else Some(j)];
    } else {
      var k := matched.value;
      current' := current'[k := Absorb(current'[k], intrvl, payloadMerge)];
    }
  }

  /** The loop that moves every open box ending before `t` to the new list, each with its alias. */
  method Flush<P>(emitted: seq<Interval3D<P>>, current: seq<Interval3D<P>>,
                  emittedAliases: seq<Option<nat>>, currentAliases: seq<Option<nat>>, t: real)
    returns (emitted': seq<Interval3D<P>>, emittedAliases': seq<Option<nat>>)
    requires |currentAliases| == |current|
    ensures emitted' == emitted + Seqs.Filter(current, Side(t, true))
    ensures emittedAliases' == emittedAliases + Select(current, currentAliases, Side(t, true))
  {
    emitted', emittedAliases' := emitted, emittedAliases;
    for k := 0 to |current|
      invariant emitted' == emitted + Seqs.Filter(current[..k], Side(t, true))
      invariant emittedAliases' == emittedAliases + Select(current[..k], currentAliases[..k], Side(t, true))
    {
      FlushStep(current, currentAliases, t, k);
      if current[k].t2 < t {
        emitted', emittedAliases' := emitted' + [current[k]], emittedAliases' + [currentAliases[k]];
      }
    }
    assert current[..|current|] == current;
    assert currentAliases[..|currentAliases|] == currentAliases;
  }

  /** One more open box looked at by the flush loop. */
  lemma FlushStep<P>(current: seq<Interval3D<P>>, currentAliases: seq<Option<nat>>, t: real, k: nat)
    requires |currentAliases| == |current| && k < |current|
    ensures Seqs.Filter(current[..k + 1], Side(t, true)) ==
            Seqs.Filter(current[..k], Side(t, true)) + (if current[k].t2 < t then [current[k]] else [])
    ensures Select(current[..k + 1], currentAliases[..k + 1], Side(t, true)) ==
            Select(current[..k], currentAliases[..k], Side(t, true)) + (if current[k].t2 < t then [currentAliases[k]] else [])
  {
    Seqs.FilterPrefixStep(current, k, Side(t, true));
    SelectPrefixStep(current, currentAliases, Side(t, true), k);
  }

  /** The loop that looks for the first open box `x` touches and `pred` accepts. */
  method FindMatch<P>(open: seq<Interval3D<P>>, x: Interval3D<P>, pred: (Interval3D<P>, Interval3D<P>) -> bool)
    returns (matched: Option<nat>)
    ensures matched == FirstMatch(open, x, pred, 0)
  {
    matched := None;
    var m := 0;
    while m < |open|
      invariant 0 <= m <= |open|
      invariant FirstMatch(open, x, pred, 0) == FirstMatch(open, x, pred, m)
      decreases |open| - m
    {
      var cur := open[m];
      if Touch3D(cur, x) && pred(cur, x) {
        matched := Some(m);
        break;
      }
      m := m + 1;
    }
  }
}
