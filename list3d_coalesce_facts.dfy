// What `IntervalList3D.coalesce` of `rekall/interval_list_3d.py` promises: the
// new list is no longer than the receiver, every receiver box lies within a box
// of the new list, and the receiver keeps its boxes exactly when every held box
// is a copy.

module List3DCoalesceFacts {
  import opened Common
  import Seqs
  import opened IntervalList3DModel
  import opened List3DCoalesce
  import opened LexSort

  /** Every box the sweep holds: the emitted ones, then the open ones. */
  function Held<P>(st: Sweep<P>): seq<Interval3D<P>>
  {
    st.emitted + st.current
  }

  // -------------------------------------------------------------------
  // Size

  /** The flush sends each open box one way: emitted or kept open. */
  lemma {:induction false} FlushSplits<P>(c: seq<Interval3D<P>>, t: real)
    ensures |Seqs.Filter(c, Side(t, true))| + |Seqs.Filter(c, Side(t, false))| == |c|
  {
    if c != [] {
      FlushSplits(c[..|c| - 1], t);
    }
  }

  /** After `n` rounds the sweep holds at most `n` boxes, and at least one open box once a round has run. */
  lemma {:induction false} PrefixSize<P>(s: seq<Interval3D<P>>, n: nat, payloadMerge: (P, P) -> P,
                                         pred: (Interval3D<P>, Interval3D<P>) -> bool)
    requires n <= |s|
    ensures |Held(Prefix(s, n, payloadMerge, pred))| <= n
    ensures n > 0 ==> |Prefix(s, n, payloadMerge, pred).current| > 0
  {
    if n > 0 {
      PrefixSize(s, n - 1, payloadMerge, pred);
      FlushSplits(Prefix(s, n - 1, payloadMerge, pred).current, s[n - 1].t1);
    }
  }

  /** Coalescing never adds boxes, empties only the empty list, and leaves the empty list as it is. */
  lemma CoalesceSize<P>(L: IntervalList3D<P>, payloadMerge: (P, P) -> P,
                        pred: (Interval3D<P>, Interval3D<P>) -> bool)
    ensures |CoalesceOf(L, payloadMerge, pred).intrvls| <= |L.intrvls|
    ensures |CoalesceOf(L, payloadMerge, pred).intrvls| == 0 <==> |L.intrvls| == 0
    ensures |L.intrvls| == 0 ==> CoalesceOf(L, payloadMerge, pred) == L
  {
    var s := L.intrvls;
    if |s| > 0 {
      PrefixSize(s, |s|, payloadMerge, pred);
      var out := Output(s, payloadMerge, pred);
      assert |multiset(Make(out).intrvls)| == |multiset(out)|;
    }
  }

  // -------------------------------------------------------------------
  // Cover

  /** Some box of `hs` spans `x`. */
  ghost predicate Covered<P>(hs: seq<Interval3D<P>>, x: Interval3D<P>)
  {
    exists h :: h in hs && Within(x, h)
  }

  /** Every open box starts no later than `t`. */
  ghost predicate OpenBy<P>(st: Sweep<P>, t: real)
  {
    forall k :: 0 <= k < |st.current| ==> st.current[k].t1 <= t
  }

  /** A box the sweep holds before a round is spanned by one it holds after: the flush moves it, an absorb widens it. */
  lemma StepKeepsCover<P>(st: Sweep<P>, x: Interval3D<P>, payloadMerge: (P, P) -> P,
                          pred: (Interval3D<P>, Interval3D<P>) -> bool, y: Interval3D<P>)
    requires Covered(Held(st), y)
    ensures Covered(Held(Step(st, x, payloadMerge, pred)), y)
  {
    var h :| h in Held(st) && Within(y, h);
    var st' := Step(st, x, payloadMerge, pred);
    var flushed := Seqs.Filter(st.current, Side(x.t1, true));
    var open := Seqs.Filter(st.current, Side(x.t1, false));
    assert st'.emitted == st.emitted + flushed;
    if h in st.emitted {
      assert h in Held(st');
    } else if h.t2 < x.t1 {
      Seqs.FilterMembers(st.current, Side(x.t1, true));
      assert h in flushed;
      assert h in Held(st');
    } else {
      Seqs.FilterMembers(st.current, Side(x.t1, false));
      assert h in open;
      var i :| 0 <= i < |open| && open[i] == h;
      match FirstMatch(open, x, pred, 0)
      case None =>
        assert st'.current == open + [x];
        assert h in Held(st');
      case Some(m) =>
        var a := Absorb(open[m], x, payloadMerge);
        assert st'.current == open[m := a];
        if i == m {
          WithinTransitive(y, h, a);
          assert st'.current[m] == a;
          assert a in Held(st');
        } else {
          assert st'.current[i] == h;
          assert h in Held(st');
        }
    }
  }

  /** The box of a round is spanned after it, when no open box starts after it. */
  lemma StepCoversBox<P>(st: Sweep<P>, x: Interval3D<P>, payloadMerge: (P, P) -> P,
                         pred: (Interval3D<P>, Interval3D<P>) -> bool)
    requires OpenBy(st, x.t1)
    ensures Covered(Held(Step(st, x, payloadMerge, pred)), x)
    ensures OpenBy(Step(st, x, payloadMerge, pred), x.t1)
  {
    var st' := Step(st, x, payloadMerge, pred);
    var open := Seqs.Filter(st.current, Side(x.t1, false));
    Seqs.FilterMembers(st.current, Side(x.t1, false));
    assert forall k :: 0 <= k < |open| ==> open[k].t1 <= x.t1 by {
      forall k | 0 <= k < |open| ensures open[k].t1 <= x.t1 {
        assert open[k] in st.current;
      }
    }
    if |open| == 0 {
      assert st'.current == [x];
      assert x in Held(st');
    } else {
      match FirstMatch(open, x, pred, 0)
      case None =>
        assert st'.current == open + [x];
        assert x in Held(st');
      case Some(m) =>
        var a := Absorb(open[m], x, payloadMerge);
        assert st'.current[m] == a;
        assert a in Held(st');
    }
  }

  /** After `n` rounds over boxes with ascending starts, every box visited so far is spanned by a held box. */
  lemma {:induction false} PrefixCovers<P>(s: seq<Interval3D<P>>, n: nat, payloadMerge: (P, P) -> P,
                                           pred: (Interval3D<P>, Interval3D<P>) -> bool)
    requires n <= |s| && StartsAscending(s)
    ensures n > 0 ==> OpenBy(Prefix(s, n, payloadMerge, pred), s[n - 1].t1)
    ensures forall i :: 0 <= i < n ==> Covered(Held(Prefix(s, n, payloadMerge, pred)), s[i])
  {
    if n > 0 {
      var st := Prefix(s, n - 1, payloadMerge, pred);
      PrefixCovers(s, n - 1, payloadMerge, pred);
      assert OpenBy(st, s[n - 1].t1) by {
        if n > 1 {
          assert s[n - 2].t1 <= s[n - 1].t1;
        }
      }
      StepCoversBox(st, s[n - 1], payloadMerge, pred);
      forall i | 0 <= i < n - 1
        ensures Covered(Held(Prefix(s, n, payloadMerge, pred)), s[i])
      {
        StepKeepsCover(st, s[n - 1], payloadMerge, pred, s[i]);
      }
    }
  }

  /** Every box of a well-formed list lies within a box of its coalesced list. */
  lemma CoalesceCovers<P>(L: IntervalList3D<P>, payloadMerge: (P, P) -> P,
                          pred: (Interval3D<P>, Interval3D<P>) -> bool)
    requires L.Valid()
    ensures forall x :: x in L.intrvls ==> Covered(CoalesceOf(L, payloadMerge, pred).intrvls, x)
  {
    var s := L.intrvls;
    if |s| > 0 {
      SortedStartsAscending(s);
      PrefixCovers(s, |s|, payloadMerge, pred);
      var out := Output(s, payloadMerge, pred);
      forall x | x in s
        ensures Covered(Make(out).intrvls, x)
      {
        var h :| h in out && Within(x, h);
        MakeElements(out, h);
      }
    }
  }

  // -------------------------------------------------------------------
  // No time added

  /** Some box of `s[..n]` spans the time `t`. */
  ghost predicate TimeSpanned<P>(s: seq<Interval3D<P>>, n: nat, t: real)
  {
    exists m :: 0 <= m < n && m < |s| && s[m].t1 <= t <= s[m].t2
  }

  /** Every time `h` spans is spanned by some box of `s[..n]`. */
  ghost predicate TimesFrom<P>(h: Interval3D<P>, s: seq<Interval3D<P>>, n: nat)
  {
    forall t :: h.t1 <= t <= h.t2 ==> TimeSpanned(s, n, t)
  }

  /** Every box the sweep holds spans only times that boxes of `s[..n]` span. */
  ghost predicate HeldTimesFrom<P>(st: Sweep<P>, s: seq<Interval3D<P>>, n: nat)
  {
    forall h :: h in Held(st) ==> TimesFrom(h, s, n)
  }

  lemma TimesFromLater<P>(h: Interval3D<P>, s: seq<Interval3D<P>>, n: nat, n': nat)
    requires n <= n' && TimesFrom(h, s, n)
    ensures TimesFrom(h, s, n')
  {
    forall t | h.t1 <= t <= h.t2
      ensures TimeSpanned(s, n', t)
    {
      assert TimeSpanned(s, n, t);
    }
  }

  /** An absorb into an open box that `x` starts no later than the end of spans only times the two span. */
  lemma AbsorbTimesFrom<P>(cur: Interval3D<P>, x: Interval3D<P>, payloadMerge: (P, P) -> P,
                           s: seq<Interval3D<P>>, n: nat)
    requires TimesFrom(cur, s, n) && TimesFrom(x, s, n) && x.t1 <= cur.t2
    ensures TimesFrom(Absorb(cur, x, payloadMerge), s, n)
  {
    var a := Absorb(cur, x, payloadMerge);
    forall t | a.t1 <= t <= a.t2
      ensures TimeSpanned(s, n, t)
    {
      if t <= cur.t2 {
        assert cur.t1 <= t <= cur.t2;
      } else {
        assert x.t1 <= t <= x.t2;
      }
    }
  }

  /** The round on `s[n - 1]` keeps every held box within the times of `s[..n]`. */
  lemma StepAddsNoTime<P>(st: Sweep<P>, s: seq<Interval3D<P>>, n: nat, payloadMerge: (P, P) -> P,
                          pred: (Interval3D<P>, Interval3D<P>) -> bool)
    requires 0 < n <= |s| && HeldTimesFrom(st, s, n - 1)
    ensures HeldTimesFrom(Step(st, s[n - 1], payloadMerge, pred), s, n)
  {
    var x := s[n - 1];
    var st' := Step(st, x, payloadMerge, pred);
    forall h | h in Held(st)
      ensures TimesFrom(h, s, n)
    {
      TimesFromLater(h, s, n - 1, n);
    }
    assert TimesFrom(x, s, n) by {
      forall t | x.t1 <= t <= x.t2
        ensures TimeSpanned(s, n, t)
      {
        assert s[n - 1].t1 <= t <= s[n - 1].t2;
      }
    }
    var flushed := Seqs.Filter(st.current, Side(x.t1, true));
    var open := Seqs.Filter(st.current, Side(x.t1, false));
    Seqs.FilterMembers(st.current, Side(x.t1, true));
    Seqs.FilterMembers(st.current, Side(x.t1, false));
    assert forall h :: h in st'.emitted ==> h in Held(st);
    if |open| > 0 && FirstMatch(open, x, pred, 0).Some? {
      var m := FirstMatch(open, x, pred, 0).value;
      assert open[m] in open;
      AbsorbTimesFrom(open[m], x, payloadMerge, s, n);
      forall h | h in st'.current
        ensures TimesFrom(h, s, n)
      {
        var i :| 0 <= i < |st'.current| && st'.current[i] == h;
        if i != m {
          assert open[i] in open;
        }
      }
    } else {
      forall h | h in st'.current
        ensures TimesFrom(h, s, n)
      {
        if h != x {
          assert h in open;
        }
      }
    }
  }

  /** After `n` rounds every held box spans only times that boxes of `s[..n]` span. */
  lemma {:induction false} PrefixAddsNoTime<P>(s: seq<Interval3D<P>>, n: nat, payloadMerge: (P, P) -> P,
                                               pred: (Interval3D<P>, Interval3D<P>) -> bool)
    requires n <= |s|
    ensures HeldTimesFrom(Prefix(s, n, payloadMerge, pred), s, n)
  {
    if n > 0 {
      PrefixAddsNoTime(s, n - 1, payloadMerge, pred);
      StepAddsNoTime(Prefix(s, n - 1, payloadMerge, pred), s, n, payloadMerge, pred);
    }
  }

  /** Some box of `s` spans the time `t`. */
  ghost predicate SomeBoxSpans<P>(s: seq<Interval3D<P>>, t: real)
  {
    exists x :: x in s && x.t1 <= t <= x.t2
  }

  /** Every time of a box whose times `s` spans lies in some box of `s`. */
  lemma SpannedBy<P>(o: Interval3D<P>, s: seq<Interval3D<P>>)
    requires TimesFrom(o, s, |s|)
    ensures forall t :: o.t1 <= t <= o.t2 ==> SomeBoxSpans(s, t)
  {
    forall t | o.t1 <= t <= o.t2
      ensures SomeBoxSpans(s, t)
    {
      assert TimeSpanned(s, |s|, t);
      var m :| 0 <= m < |s| && s[m].t1 <= t <= s[m].t2;
      assert s[m] in s;
    }
  }

  /** Coalescing adds no time: every time a box of the new list spans, some box of the receiver spans. */
  lemma CoalesceAddsNoTime<P>(L: IntervalList3D<P>, payloadMerge: (P, P) -> P,
                              pred: (Interval3D<P>, Interval3D<P>) -> bool)
    ensures forall o, t :: o in CoalesceOf(L, payloadMerge, pred).intrvls && o.t1 <= t <= o.t2 ==>
              SomeBoxSpans(L.intrvls, t)
  {
    var s := L.intrvls;
    if |s| > 0 {
      PrefixAddsNoTime(s, |s|, payloadMerge, pred);
      var out := Output(s, payloadMerge, pred);
      assert HeldTimesFrom(Prefix(s, |s|, payloadMerge, pred), s, |s|);
      forall o | o in Make(out).intrvls
        ensures forall t :: o.t1 <= t <= o.t2 ==> SomeBoxSpans(s, t)
      {
        MakeElements(out, o);
        SpannedBy(o, s);
      }
    }
  }

  // -------------------------------------------------------------------
  // The receiver

  /** No held box is one of the receiver's own. */
  ghost predicate AllCopies(tags: seq<Option<nat>>)
  {
    forall k :: 0 <= k < |tags| ==> tags[k].None?
  }

  lemma {:induction false} SelectCopies<P>(boxes: seq<Interval3D<P>>, tags: seq<Option<nat>>, p: Interval3D<P> -> bool)
    requires |boxes| == |tags| && AllCopies(tags)
    ensures AllCopies(Select(boxes, tags, p))
  {
    if boxes != [] {
      var n := |boxes| - 1;
      SelectCopies(boxes[..n], tags[..n], p);
    }
  }

  /** A round that appends a copy keeps every held box a copy. */
  lemma AliasStepCopies<P>(st: Sweep<P>, al: Aliases, x: Interval3D<P>, j: nat,
                           pred: (Interval3D<P>, Interval3D<P>) -> bool)
    requires |al.current| == |st.current| && AllCopies(al.emitted) && AllCopies(al.current)
    ensures AllCopies(AliasStep(st, al, x, j, pred, true).emitted)
    ensures AllCopies(AliasStep(st, al, x, j, pred, true).current)
  {
    SelectCopies(st.current, al.current, Side(x.t1, true));
    SelectCopies(st.current, al.current, Side(x.t1, false));
  }

  /** The last round of `AliasPrefix`. */
  lemma AliasPrefixLast<P>(s: seq<Interval3D<P>>, n: nat, payloadMerge: (P, P) -> P,
                           pred: (Interval3D<P>, Interval3D<P>) -> bool, copyOnAppend: bool)
    requires 0 < n <= |s|
    ensures AliasPrefix(s, n, payloadMerge, pred, copyOnAppend) ==
            AliasStep(Prefix(s, n - 1, payloadMerge, pred), AliasPrefix(s, n - 1, payloadMerge, pred, copyOnAppend),
                      s[n - 1], n - 1, pred, copyOnAppend)
  {
  }

  /** When every appended box is a copy, no held box is ever the receiver's. */
  lemma {:induction false} AliasPrefixCopies<P>(s: seq<Interval3D<P>>, n: nat, payloadMerge: (P, P) -> P,
                                                pred: (Interval3D<P>, Interval3D<P>) -> bool)
    requires n <= |s|
    ensures AllCopies(AliasPrefix(s, n, payloadMerge, pred, true).emitted)
    ensures AllCopies(AliasPrefix(s, n, payloadMerge, pred, true).current)
  {
    if n > 0 {
      AliasPrefixCopies(s, n - 1, payloadMerge, pred);
      AliasStepCopies(Prefix(s, n - 1, payloadMerge, pred), AliasPrefix(s, n - 1, payloadMerge, pred, true),
                      s[n - 1], n - 1, pred);
      AliasPrefixLast(s, n, payloadMerge, pred, true);
    }
  }

  /** Writing back boxes none of which is the receiver's leaves the receiver as it was. */
  lemma {:induction false} WrittenCopies<P>(s: seq<Interval3D<P>>, boxes: seq<Interval3D<P>>, tags: seq<Option<nat>>)
    requires |boxes| == |tags| && AllCopies(tags)
    ensures Written(s, boxes, tags) == s
  {
    if boxes != [] {
      var n := |boxes| - 1;
      WrittenCopies(s, boxes[..n], tags[..n]);
    }
  }

  /** With line 253 appending a copy, `coalesce` leaves the receiver's boxes as they were. */
  lemma CopyingKeepsReceiver<P>(L: IntervalList3D<P>, payloadMerge: (P, P) -> P,
                                pred: (Interval3D<P>, Interval3D<P>) -> bool)
    ensures ReceiverAfter(L, payloadMerge, pred, true) == L.intrvls
  {
    var s := L.intrvls;
    if |s| > 0 {
      AliasPrefixCopies(s, |s|, payloadMerge, pred);
      var al := AliasPrefix(s, |s|, payloadMerge, pred, true);
      WrittenCopies(s, Output(s, payloadMerge, pred), al.emitted + al.current);
    }
  }

  // The receiver of the counterexample: `b` and `c` overlap, `a` is too narrow to touch either.
  const ExA: Interval3D<int> := Interval3D(0.0, 10.0, 0.0, 0.2, 0.0, 1.0, 1)
  const ExB: Interval3D<int> := Interval3D(1.0, 2.0, 0.5, 1.0, 0.0, 1.0, 2)
  const ExC: Interval3D<int> := Interval3D(1.5, 5.0, 0.5, 1.0, 0.0, 1.0, 3)
  /** `b` once `c` is absorbed into it. */
  const ExB': Interval3D<int> := Interval3D(1.0, 5.0, 0.5, 1.0, 0.0, 1.0, 2)

  function KeepFirst(p: int, q: int): int { p }
  predicate AnyPair(u: Interval3D<int>, v: Interval3D<int>) { true }

  lemma ExampleRound1(s: seq<Interval3D<int>>)
    requires s == [ExA, ExB, ExC]
    ensures Prefix(s, 1, KeepFirst, AnyPair) == Sweep([], [ExA])
    ensures AliasPrefix(s, 1, KeepFirst, AnyPair, false) == Aliases([], [None])
  {
    PrefixNext(s, 0, KeepFirst, AnyPair, false);
  }

  /** The second round keeps `a` open, finds no match for `b` and appends `b` itself. */
  lemma ExampleRound2(s: seq<Interval3D<int>>)
    requires s == [ExA, ExB, ExC]
    ensures Prefix(s, 2, KeepFirst, AnyPair) == Sweep([], [ExA, ExB])
    ensures AliasPrefix(s, 2, KeepFirst, AnyPair, false) == Aliases([], [None, Some(1)])
  {
    ExampleRound1(s);
    PrefixNext(s, 1, KeepFirst, AnyPair, false);
    var none: Option<nat> := None;
    assert Seqs.Filter([ExA], Side(1.0, false)) == [ExA];
    assert Seqs.Filter([ExA], Side(1.0, true)) == [];
    assert Select([ExA], [none], Side(1.0, false)) == [none];
    assert Select([ExA], [none], Side(1.0, true)) == [];
    assert FirstMatch([ExA], ExB, AnyPair, 0) == None;
  }

  /** The third round keeps both open and absorbs `c` into `b`. */
  lemma ExampleRound3(s: seq<Interval3D<int>>)
    requires s == [ExA, ExB, ExC]
    ensures Prefix(s, 3, KeepFirst, AnyPair) == Sweep([], [ExA, ExB'])
    ensures AliasPrefix(s, 3, KeepFirst, AnyPair, false) == Aliases([], [None, Some(1)])
  {
    ExampleRound2(s);
    PrefixNext(s, 2, KeepFirst, AnyPair, false);
    var tags: seq<Option<nat>> := [None, Some(1)];
    assert [ExA, ExB][..1] == [ExA];
    assert tags[..1] == [None];
    assert Seqs.Filter([ExA, ExB], Side(1.5, false)) == [ExA, ExB];
    assert Seqs.Filter([ExA, ExB], Side(1.5, true)) == [];
    assert Select([ExA, ExB], tags, Side(1.5, false)) == tags;
    assert Select([ExA, ExB], tags, Side(1.5, true)) == [];
    assert !Matches(ExA, ExC, AnyPair) && Matches(ExB, ExC, AnyPair);
    assert FirstMatch([ExA, ExB], ExC, AnyPair, 0) == Some(1);
    assert Absorb(ExB, ExC, KeepFirst) == ExB';
  }

  /** Writing back `a` (a copy) and `b` once grown (the receiver's second box). */
  lemma ExampleWritten(s: seq<Interval3D<int>>)
    requires s == [ExA, ExB, ExC]
    ensures Written(s, [ExA, ExB'], [None, Some(1)]) == [ExA, ExB', ExC]
  {
    var tags: seq<Option<nat>> := [None, Some(1)];
    assert [ExA, ExB'][..1] == [ExA];
    assert tags[..1] == [None];
    assert Written(s, [ExA], [None]) == s;
  }

  /** `a, b, c` is a well-formed list: sorted by start, with its span as window. */
  lemma ExampleValid(L: IntervalList3D<int>)
    requires L == IntervalList3D([ExA, ExB, ExC], 10.0)
    ensures L.Valid()
  {
    var s := L.intrvls;
    assert LexLe(SortKey(ExA), SortKey(ExB)) && LexLe(SortKey(ExA), SortKey(ExC)) && LexLe(SortKey(ExB), SortKey(ExC));
    assert SortedBy(s, SortKey);
    assert MaxEnd(s[..2]) == 10.0;
  }

  /**
   * As written, `coalesce` rewrites the receiver: of the well-formed list
   * `a, b, c`, the box `b` is appended uncopied, `c` is absorbed into it, and
   * the receiver's second box then ends at 5 instead of 2.
   */
  lemma AsWrittenRewritesReceiver(L: IntervalList3D<int>)
    requires L == IntervalList3D([ExA, ExB, ExC], 10.0)
    ensures ReceiverAfter(L, KeepFirst, AnyPair, false) == [ExA, ExB', ExC]
    ensures L.intrvls[1] == ExB != ExB'
  {
    var s := L.intrvls;
    ExampleRound3(s);
    ExampleWritten(s);
    var al := AliasPrefix(s, |s|, KeepFirst, AnyPair, false);
    assert al.emitted + al.current == [None, Some(1)];
    assert Output(s, KeepFirst, AnyPair) == [ExA, ExB'];
  }
}
