// What `IntervalList3D.coalesce` of `rekall/interval_list_3d.py` promises and
// what its single pass delivers. Its doc comment promises to merge all
// overlapping or touching boxes that satisfy the predicate. The pass absorbs
// each box into the first open box it matches and never looks at the grown
// box again, so a box that grows into reach of an earlier open box stays
// apart from it.
//
// `MergeAll` is the promised behaviour: it merges a matching pair and starts
// again until no pair of boxes touches and satisfies the predicate.

module List3DCoalesceClosure {
  import opened Common
  import opened IntervalList3DModel
  import opened List3DCoalesce
  import List3DCoalesceFacts
  import Seqs

  // -------------------------------------------------------------------
  // As written: the single pass leaves touching boxes

  // `a` is narrow in x and `b` sits to its right. `c` reaches into both, but
  // the pass absorbs it into `a`, the first open box, and `a` then touches `b`.
  const PassA: Interval3D<int> := Interval3D(0.0, 10.0, 0.0, 0.2, 0.0, 1.0, 1)
  const PassB: Interval3D<int> := Interval3D(1.0, 2.0, 0.5, 1.0, 0.0, 1.0, 2)
  const PassC: Interval3D<int> := Interval3D(1.5, 5.0, 0.1, 0.6, 0.0, 1.0, 3)
  /** `a` once `c` is absorbed into it. */
  const PassA': Interval3D<int> := Interval3D(0.0, 10.0, 0.0, 0.6, 0.0, 1.0, 1)

  /** The first round opens `a`. */
  lemma PassRound1(s: seq<Interval3D<int>>)
    requires s == [PassA, PassB, PassC]
    ensures Prefix(s, 1, List3DCoalesceFacts.KeepFirst, List3DCoalesceFacts.AnyPair) == Sweep([], [PassA])
  {
    PrefixNext(s, 0, List3DCoalesceFacts.KeepFirst, List3DCoalesceFacts.AnyPair, false);
  }

  /** The second round opens `b`: it does not touch `a`. */
  lemma PassRound2(s: seq<Interval3D<int>>)
    requires s == [PassA, PassB, PassC]
    ensures Prefix(s, 2, List3DCoalesceFacts.KeepFirst, List3DCoalesceFacts.AnyPair) == Sweep([], [PassA, PassB])
  {
    PassRound1(s);
    PrefixNext(s, 1, List3DCoalesceFacts.KeepFirst, List3DCoalesceFacts.AnyPair, false);
    assert Seqs.Filter([PassA], Side(1.0, false)) == [PassA];
    assert Seqs.Filter([PassA], Side(1.0, true)) == [];
    assert FirstMatch([PassA], PassB, List3DCoalesceFacts.AnyPair, 0) == None;
  }

  /** The third round absorbs `c` into `a`, the first open box it touches. */
  lemma PassRound3(s: seq<Interval3D<int>>)
    requires s == [PassA, PassB, PassC]
    ensures Prefix(s, 3, List3DCoalesceFacts.KeepFirst, List3DCoalesceFacts.AnyPair) == Sweep([], [PassA', PassB])
  {
    PassRound2(s);
    PrefixNext(s, 2, List3DCoalesceFacts.KeepFirst, List3DCoalesceFacts.AnyPair, false);
    assert Seqs.Filter([PassA, PassB], Side(1.5, false)) == [PassA, PassB];
    assert Seqs.Filter([PassA, PassB], Side(1.5, true)) == [];
    assert Matches(PassA, PassC, List3DCoalesceFacts.AnyPair);
    assert FirstMatch([PassA, PassB], PassC, List3DCoalesceFacts.AnyPair, 0) == Some(0);
    assert Absorb(PassA, PassC, List3DCoalesceFacts.KeepFirst) == PassA';
  }

  /**
   * As written, with `true_pred` as the predicate, `coalesce` of `a, b, c`
   * returns two boxes that touch in all three axes: the merge the doc comment
   * promises is not complete.
   */
  lemma SinglePassLeavesTouching(s: seq<Interval3D<int>>)
    requires s == [PassA, PassB, PassC]
    ensures Output(s, List3DCoalesceFacts.KeepFirst, List3DCoalesceFacts.AnyPair) == [PassA', PassB]
    ensures Matches(PassA', PassB, List3DCoalesceFacts.AnyPair)
  {
    PassRound3(s);
  }

  // -------------------------------------------------------------------
  // As promised: merge until no pair matches

  /** The boxes at positions `i` and `j` are two different boxes the predicate would merge. */
  predicate MatchingPair<P>(s: seq<Interval3D<P>>, pred: (Interval3D<P>, Interval3D<P>) -> bool, i: nat, j: nat)
    requires i < |s| && j < |s|
  {
    i != j && Matches(s[i], s[j], pred)
  }

  /** The first matching pair at or after `(i, j)`, in row order. */
  function FindPair<P>(s: seq<Interval3D<P>>, pred: (Interval3D<P>, Interval3D<P>) -> bool, i: nat, j: nat)
    : (r: Option<(nat, nat)>)
    requires i <= |s| && j <= |s|
    ensures r.Some? ==> r.value.0 < |s| && r.value.1 < |s| && MatchingPair(s, pred, r.value.0, r.value.1)
    decreases |s| - i, |s| - j
  {
    if i == |s| then None
    else if j == |s| then FindPair(s, pred, i + 1, 0)
    else if MatchingPair(s, pred, i, j) then Some((i, j))
    else FindPair(s, pred, i, j + 1)
  }

  /** When the search finds nothing, no pair from `(i, j)` on matches. */
  lemma {:induction false} FindPairNone<P>(s: seq<Interval3D<P>>, pred: (Interval3D<P>, Interval3D<P>) -> bool,
                                           i: nat, j: nat)
    requires i <= |s| && j <= |s| && FindPair(s, pred, i, j).None?
    ensures forall a: nat, b: nat :: i <= a < |s| && b < |s| && (a == i ==> j <= b) ==> !MatchingPair(s, pred, a, b)
    decreases |s| - i, |s| - j
  {
    if i < |s| {
      if j == |s| {
        FindPairNone(s, pred, i + 1, 0);
      } else {
        FindPairNone(s, pred, i, j + 1);
      }
    }
  }

  /** The boxes with `s[i]` replaced by the merge of `s[i]` and `s[j]`, and `s[j]` dropped. */
  function MergePair<P>(s: seq<Interval3D<P>>, i: nat, j: nat, payloadMerge: (P, P) -> P): (r: seq<Interval3D<P>>)
    requires i < |s| && j < |s| && i != j
    ensures |r| == |s| - 1
  {
    var t := s[i := Merge(s[i], s[j], payloadMerge)];
    t[..j] + t[j + 1..]
  }

  /** What `MergePair` keeps: the merge, and every box other than the two merged. */
  lemma MergePairMembers<P>(s: seq<Interval3D<P>>, i: nat, j: nat, payloadMerge: (P, P) -> P)
    requires i < |s| && j < |s| && i != j
    ensures Merge(s[i], s[j], payloadMerge) in MergePair(s, i, j, payloadMerge)
    ensures forall k :: 0 <= k < |s| && k != i && k != j ==> s[k] in MergePair(s, i, j, payloadMerge)
    ensures forall y :: y in MergePair(s, i, j, payloadMerge) ==>
              y == Merge(s[i], s[j], payloadMerge) || exists k :: 0 <= k < |s| && k != i && k != j && s[k] == y
  {
    var t := s[i := Merge(s[i], s[j], payloadMerge)];
    var r := MergePair(s, i, j, payloadMerge);
    assert r == t[..j] + t[j + 1..];
    if i < j {
      assert r[i] == t[i];
    } else {
      assert r[i - 1] == t[i];
    }
    forall k | 0 <= k < |s| && k != i && k != j
      ensures s[k] in r
    {
      if k < j {
        assert r[k] == t[k];
      } else {
        assert r[k - 1] == t[k];
      }
    }
    forall y | y in r
      ensures y == Merge(s[i], s[j], payloadMerge) || exists k :: 0 <= k < |s| && k != i && k != j && s[k] == y
    {
      var m :| 0 <= m < |r| && r[m] == y;
      var k := if m < j then m else m + 1;
      assert y == t[k];
    }
  }

  /**
   * The promised coalesce on a list of boxes: merge the first matching pair and
   * start again, until no two boxes touch and satisfy the predicate.
   */
  function MergeAll<P>(s: seq<Interval3D<P>>, payloadMerge: (P, P) -> P,
                       pred: (Interval3D<P>, Interval3D<P>) -> bool): (r: seq<Interval3D<P>>)
    ensures |r| <= |s|
    ensures |r| == 0 <==> |s| == 0
    ensures forall i, j :: 0 <= i < |r| && 0 <= j < |r| ==> !MatchingPair(r, pred, i, j)
    decreases |s|
  {
    match FindPair(s, pred, 0, 0)
    case None =>
      FindPairNone(s, pred, 0, 0);
      s
    case Some((i, j)) => MergeAll(MergePair(s, i, j, payloadMerge), payloadMerge, pred)
  }

  /** Every input box lies inside some box of the result. */
  lemma {:induction false} MergeAllCovers<P>(s: seq<Interval3D<P>>, payloadMerge: (P, P) -> P,
                                             pred: (Interval3D<P>, Interval3D<P>) -> bool)
    ensures forall x :: x in s ==> List3DCoalesceFacts.Covered(MergeAll(s, payloadMerge, pred), x)
    decreases |s|
  {
    var r := MergeAll(s, payloadMerge, pred);
    match FindPair(s, pred, 0, 0)
    case None =>
      forall x | x in s
        ensures List3DCoalesceFacts.Covered(r, x)
      {
        assert Within(x, x);
      }
    case Some((i, j)) =>
      var s' := MergePair(s, i, j, payloadMerge);
      var m := Merge(s[i], s[j], payloadMerge);
      MergeAllCovers(s', payloadMerge, pred);
      MergePairMembers(s, i, j, payloadMerge);
      forall x | x in s
        ensures List3DCoalesceFacts.Covered(r, x)
      {
        var k :| 0 <= k < |s| && s[k] == x;
        var y := if k == i || k == j then m else x;
        assert Within(x, y);
        assert List3DCoalesceFacts.Covered(r, y);
        var h :| h in r && Within(y, h);
        WithinTransitive(x, y, h);
      }
  }

  /** Every box spans only times that boxes of `s` span. */
  ghost predicate AllTimesFrom<P>(hs: seq<Interval3D<P>>, s: seq<Interval3D<P>>)
  {
    forall h, t :: h in hs && h.t1 <= t <= h.t2 ==> List3DCoalesceFacts.SomeBoxSpans(s, t)
  }

  /** Merging two well-formed boxes that touch spans only times that one of them spans. */
  lemma MergeTimes<P>(a: Interval3D<P>, b: Interval3D<P>, payloadMerge: (P, P) -> P, t: real)
    requires WellFormed(a) && WellFormed(b) && Touch3D(a, b)
    requires Merge(a, b, payloadMerge).t1 <= t <= Merge(a, b, payloadMerge).t2
    ensures a.t1 <= t <= a.t2 || b.t1 <= t <= b.t2
  {
    Touch3DIsSharing(a, b);
  }

  /** Merging keeps boxes well-formed. */
  lemma MergePairWellFormed<P>(s: seq<Interval3D<P>>, i: nat, j: nat, payloadMerge: (P, P) -> P)
    requires i < |s| && j < |s| && i != j
    requires forall x :: x in s ==> WellFormed(x)
    ensures forall y :: y in MergePair(s, i, j, payloadMerge) ==> WellFormed(y)
  {
    MergePairMembers(s, i, j, payloadMerge);
    assert s[i] in s && s[j] in s;
  }

  /** Merging a matching pair adds no time. */
  lemma MergePairTimes<P>(s: seq<Interval3D<P>>, i: nat, j: nat, payloadMerge: (P, P) -> P,
                          pred: (Interval3D<P>, Interval3D<P>) -> bool)
    requires i < |s| && j < |s| && MatchingPair(s, pred, i, j)
    requires forall x :: x in s ==> WellFormed(x)
    ensures AllTimesFrom(MergePair(s, i, j, payloadMerge), s)
  {
    MergePairMembers(s, i, j, payloadMerge);
    var m := Merge(s[i], s[j], payloadMerge);
    forall h, t | h in MergePair(s, i, j, payloadMerge) && h.t1 <= t <= h.t2
      ensures List3DCoalesceFacts.SomeBoxSpans(s, t)
    {
      if h == m {
        assert s[i] in s && s[j] in s;
        MergeTimes(s[i], s[j], payloadMerge, t);
      } else {
        var k :| 0 <= k < |s| && k != i && k != j && s[k] == h;
        assert s[k] in s;
      }
    }
  }

  /** On well-formed boxes, merging until done adds no time. */
  lemma {:induction false} MergeAllAddsNoTime<P>(s: seq<Interval3D<P>>, payloadMerge: (P, P) -> P,
                                                 pred: (Interval3D<P>, Interval3D<P>) -> bool)
    requires forall x :: x in s ==> WellFormed(x)
    ensures AllTimesFrom(MergeAll(s, payloadMerge, pred), s)
    decreases |s|
  {
    match FindPair(s, pred, 0, 0)
    case None =>
      forall h, t | h in s && h.t1 <= t <= h.t2
        ensures List3DCoalesceFacts.SomeBoxSpans(s, t)
      {
      }
    case Some((i, j)) =>
      var s' := MergePair(s, i, j, payloadMerge);
      MergePairWellFormed(s, i, j, payloadMerge);
      MergeAllAddsNoTime(s', payloadMerge, pred);
      MergePairTimes(s, i, j, payloadMerge, pred);
      forall h, t | h in MergeAll(s', payloadMerge, pred) && h.t1 <= t <= h.t2
        ensures List3DCoalesceFacts.SomeBoxSpans(s, t)
      {
        assert List3DCoalesceFacts.SomeBoxSpans(s', t);
        var x :| x in s' && x.t1 <= t <= x.t2;
      }
  }

  /** The promised `coalesce`: the list itself when empty, else the merged boxes sorted. */
  function CoalesceIntended<P>(L: IntervalList3D<P>, payloadMerge: (P, P) -> P,
                               pred: (Interval3D<P>, Interval3D<P>) -> bool): (r: IntervalList3D<P>)
    ensures |L.intrvls| == 0 ==> r == L
    ensures |L.intrvls| > 0 ==> r.Valid()
    ensures |r.intrvls| <= |L.intrvls|
  {
    if |L.intrvls| == 0 then L
    else
      var out := MergeAll(L.intrvls, payloadMerge, pred);
      assert |Make(out).intrvls| == |multiset(Make(out).intrvls)| == |multiset(out)| == |out|;
      Make(out)
  }

  /**
   * The promised `coalesce` merges everything it should: no two different
   * boxes of the result touch and satisfy the predicate, every receiver box
   * lies inside a result box, and, on well-formed boxes, no time is added.
   */
  lemma CoalesceIntendedLaws<P>(L: IntervalList3D<P>, payloadMerge: (P, P) -> P,
                                pred: (Interval3D<P>, Interval3D<P>) -> bool)
    ensures var r := CoalesceIntended(L, payloadMerge, pred);
            forall u, v :: u in r.intrvls && v in r.intrvls && u != v ==> !Matches(u, v, pred)
    ensures forall x :: x in L.intrvls ==> List3DCoalesceFacts.Covered(CoalesceIntended(L, payloadMerge, pred).intrvls, x)
    ensures (forall x :: x in L.intrvls ==> WellFormed(x)) ==>
              AllTimesFrom(CoalesceIntended(L, payloadMerge, pred).intrvls, L.intrvls)
  {
    var s := L.intrvls;
    var r := CoalesceIntended(L, payloadMerge, pred);
    if |s| == 0 {
      return;
    }
    var out := MergeAll(s, payloadMerge, pred);
    assert r == Make(out);
    forall u, v | u in r.intrvls && v in r.intrvls && u != v
      ensures !Matches(u, v, pred)
    {
      MakeElements(out, u);
      MakeElements(out, v);
      var i :| 0 <= i < |out| && out[i] == u;
      var j :| 0 <= j < |out| && out[j] == v;
      assert !MatchingPair(out, pred, i, j);
    }
    MergeAllCovers(s, payloadMerge, pred);
    forall x | x in s
      ensures List3DCoalesceFacts.Covered(r.intrvls, x)
    {
      var h :| h in out && Within(x, h);
      MakeElements(out, h);
    }
    if forall x :: x in s ==> WellFormed(x) {
      MergeAllAddsNoTime(s, payloadMerge, pred);
      forall h, t | h in r.intrvls && h.t1 <= t <= h.t2
        ensures List3DCoalesceFacts.SomeBoxSpans(s, t)
      {
        MakeElements(out, h);
      }
    }
  }

  /** On the counterexample, the promised coalesce leaves a single box spanning all three. */
  lemma IntendedMergesExample(s: seq<Interval3D<int>>)
    requires s == [PassA, PassB, PassC]
    ensures MergeAll(s, List3DCoalesceFacts.KeepFirst, List3DCoalesceFacts.AnyPair) ==
            [Interval3D(0.0, 10.0, 0.0, 1.0, 0.0, 1.0, 1)]
  {
    var pm := List3DCoalesceFacts.KeepFirst;
    var pred := List3DCoalesceFacts.AnyPair;
    assert !MatchingPair(s, pred, 0, 0) && !MatchingPair(s, pred, 0, 1) && MatchingPair(s, pred, 0, 2);
    assert FindPair(s, pred, 0, 2) == Some((0, 2));
    assert FindPair(s, pred, 0, 1) == Some((0, 2));
    assert FindPair(s, pred, 0, 0) == Some((0, 2));
    var s1 := MergePair(s, 0, 2, pm);
    assert s1 == [PassA', PassB];
    assert !MatchingPair(s1, pred, 0, 0) && MatchingPair(s1, pred, 0, 1);
    assert FindPair(s1, pred, 0, 1) == Some((0, 1));
    assert FindPair(s1, pred, 0, 0) == Some((0, 1));
    var s2 := MergePair(s1, 0, 1, pm);
    assert s2 == [Interval3D(0.0, 10.0, 0.0, 1.0, 0.0, 1.0, 1)];
    assert FindPair(s2, pred, 1, 0) == None;
    assert FindPair(s2, pred, 0, 1) == None;
    assert FindPair(s2, pred, 0, 0) == None;
    assert MergeAll(s2, pm, pred) == s2;
    assert MergeAll(s1, pm, pred) == MergeAll(s2, pm, pred);
    assert MergeAll(s, pm, pred) == MergeAll(s1, pm, pred);
  }
}
