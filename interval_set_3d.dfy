// `IntervalSet3D` of `rekall/interval_set_3d.py`: a list of `Interval3D`s kept
// sorted by (t1, t2, x1, x2, y1, y2), with a default time window computed from
// its extent, and the operations that build new sets from it. The windowed
// join and the temporal difference are in their own modules.

module IntervalSet3DModel {
  import opened Common
  import opened LexSort
  import opened Interval3DOps
  import opened SetUtils
  import Seqs

  const NumIntervalsThreshold: nat := 1000
  /** `1/100` under Python 3 division. */
  const DefaultFraction: real := 0.01

  datatype IntervalSet3D<P> = IntervalSet3D(intrvls: seq<Interval3D<P>>, timeWindow: real)
  {
    /** Sorted by the sort key, with the window the constructor computes. */
    ghost predicate Valid()
    {
      SortedBy(intrvls, SortKey) && timeWindow == DefaultWindow(intrvls)
    }

    /** `get_intervals()` */
    function GetIntervals(): seq<Interval3D<P>>
    {
      intrvls
    }
  }

  /** The largest end time of the intervals. */
  function MaxEnd<P>(s: seq<Interval3D<P>>): (m: real)
    requires |s| > 0
    ensures forall i :: 0 <= i < |s| ==> s[i].t.1 <= m
    ensures exists i :: 0 <= i < |s| && s[i].t.1 == m
  {
    if |s| == 1 then s[0].t.1
    else
      var m := MaxEnd(s[..|s| - 1]);
      assert forall i :: 0 <= i < |s| - 1 ==> s[..|s| - 1][i] == s[i];
      Max(m, s[|s| - 1].t.1)
  }

  /**
   * `_get_time_window`: 0 for no intervals; otherwise the distance from the
   * first start to the latest end, a hundredth of it above 1000 intervals.
   */
  function DefaultWindow<P>(s: seq<Interval3D<P>>): real
  {
    if |s| > 0 then
      var span := MaxEnd(s) - s[0].t.0;
      if |s| > NumIntervalsThreshold then span * DefaultFraction else span
    else 0.0
  }

  /** The pairs a windowed sweep considers: each starts, less the window, before the other ends. */
  predicate Admitted<P>(a: Interval3D<P>, b: Interval3D<P>, w: real)
  {
    a.t.0 - w <= b.t.1 && b.t.0 - w <= a.t.1
  }

  ghost predicate WellFormed<P>(s: seq<Interval3D<P>>)
  {
    forall i :: 0 <= i < |s| ==> s[i].t.0 <= s[i].t.1
  }

  /** In a sorted list the start times never decrease. */
  lemma SortedStarts<P>(s: seq<Interval3D<P>>, i: int, j: int)
    requires SortedBy(s, SortKey)
    requires 0 <= i <= j < |s|
    ensures s[i].t.0 <= s[j].t.0
  {
    SortedFirstComponent(s, SortKey, i, j);
  }

  /** The start times of `s` never decrease. */
  ghost predicate StartsAscending<P>(s: seq<Interval3D<P>>)
  {
    forall i, j :: 0 <= i <= j < |s| ==> s[i].t.0 <= s[j].t.0
  }

  lemma SortedStartsAscending<P>(s: seq<Interval3D<P>>)
    requires SortedBy(s, SortKey)
    ensures StartsAscending(s)
  {
    forall i, j | 0 <= i <= j < |s| ensures s[i].t.0 <= s[j].t.0 {
      SortedStarts(s, i, j);
    }
  }

  /** The first `n` intervals of `o` all end before the window `w` around `a` opens. */
  ghost predicate EndBefore<P>(o: seq<Interval3D<P>>, n: nat, a: Interval3D<P>, w: real)
    requires n <= |o|
  {
    n == 0 || (o[n - 1].t.1 < a.t.0 - w && EndBefore(o, n - 1, a, w))
  }

  lemma {:induction false} EndBeforeMeaning<P>(o: seq<Interval3D<P>>, n: nat, a: Interval3D<P>, w: real)
    requires n <= |o|
    ensures EndBefore(o, n, a, w) <==> forall k :: 0 <= k < n ==> o[k].t.1 < a.t.0 - w
  {
    if n > 0 {
      EndBeforeMeaning(o, n - 1, a, w);
    }
  }

  /** What ends before the window of `a` ends before the window of any interval starting no earlier. */
  lemma {:induction false} EndBeforeLater<P>(o: seq<Interval3D<P>>, n: nat, a: Interval3D<P>, b: Interval3D<P>, w: real)
    requires n <= |o|
    requires EndBefore(o, n, a, w) && a.t.0 <= b.t.0
    ensures EndBefore(o, n, b, w)
  {
    if n > 0 {
      EndBeforeLater(o, n - 1, a, b, w);
    }
  }

  /** Dropping intervals keeps the start times ascending. */
  lemma {:induction false} FilterStartsAscending<P>(s: seq<Interval3D<P>>, p: Interval3D<P> -> bool)
    requires StartsAscending(s)
    ensures StartsAscending(Seqs.Filter(s, p))
  {
    if s != [] {
      var n := |s| - 1;
      assert StartsAscending(s[..n]);
      FilterStartsAscending(s[..n], p);
      FilterStartsAtMost(s[..n], p, s[n].t.0);
    }
  }

  lemma {:induction false} FilterStartsAtMost<P>(s: seq<Interval3D<P>>, p: Interval3D<P> -> bool, x: real)
    requires forall i :: 0 <= i < |s| ==> s[i].t.0 <= x
    ensures forall i :: 0 <= i < |Seqs.Filter(s, p)| ==> Seqs.Filter(s, p)[i].t.0 <= x
  {
    if s != [] {
      var n := |s| - 1;
      FilterStartsAtMost(s[..n], p, x);
    }
  }

  /** The default window of a sorted, well-formed list is never negative. */
  lemma DefaultWindowNonNegative<P>(s: seq<Interval3D<P>>)
    requires SortedBy(s, SortKey) && WellFormed(s)
    ensures DefaultWindow(s) >= 0.0
  {
    if |s| > 0 {
      assert s[0].t.0 <= s[0].t.1 <= MaxEnd(s);
    }
  }

  /**
   * With at most 1000 intervals the default window is the whole extent, so a
   * sweep of the set against itself admits every pair.
   */
  lemma DefaultWindowAdmitsAll<P>(s: seq<Interval3D<P>>, i: int, j: int)
    requires SortedBy(s, SortKey) && WellFormed(s)
    requires |s| <= NumIntervalsThreshold
    requires 0 <= i < |s| && 0 <= j < |s|
    ensures Admitted(s[i], s[j], DefaultWindow(s))
  {
    SortedStarts(s, 0, i);
    SortedStarts(s, 0, j);
  }

  // -------------------------------------------------------------------
  // Construction

  /** `IntervalSet3D(intrvls)` on a copy of the list: sorted (stably) and windowed. */
  function Make<P>(s: seq<Interval3D<P>>): (r: IntervalSet3D<P>)
    ensures r.Valid()
    ensures multiset(r.intrvls) == multiset(s)
    ensures |r.intrvls| == |s|
  {
    var sorted := SortBy(s, SortKey);
    IntervalSet3D(sorted, DefaultWindow(sorted))
  }

  /**
   * `IntervalSet3D(intrvls)` as written: `_sort` sorts the caller's own list
   * in place and the set keeps that very list.
   */
  method New<P>(a: array<Interval3D<P>>) returns (r: IntervalSet3D<P>)
    modifies a
    ensures r == Make(old(a[..]))
    ensures a[..] == r.intrvls
  {
    ghost var input := a[..];
    var sorted := SortBy(a[..], SortKey);
    forall i | 0 <= i < a.Length {
      a[i] := sorted[i];
    }
    assert a[..] == sorted;
    r := IntervalSet3D(sorted, DefaultWindow(sorted));
    assert r == Make(input);
  }

  /** A list out of order, which the constructor reorders under the caller. */
  lemma ConstructorReordersInput()
    ensures var early, late := Interval3D((0.0, 1.0), FullFrame, FullFrame, 0),
                               Interval3D((2.0, 3.0), FullFrame, FullFrame, 0);
            Make([late, early]).intrvls == [early, late] != [late, early]
  {
    var early, late := Interval3D((0.0, 1.0), FullFrame, FullFrame, 0),
                       Interval3D((2.0, 3.0), FullFrame, FullFrame, 0);
    assert [late, early][1..] == [early];
    assert SortBy([early], SortKey) == Insert(early, [], SortKey) == [early];
    assert !LexLe(SortKey(late), SortKey(early));
    assert Insert(late, [early], SortKey) == [early] + Insert(late, [], SortKey);
  }

  /** A sorted list is its own set: constructing from it changes nothing. */
  lemma MakeSorted<P>(s: seq<Interval3D<P>>)
    requires SortedBy(s, SortKey)
    ensures Make(s).intrvls == s
  {
    SortBySorted(s, SortKey);
  }

  // -------------------------------------------------------------------
  // Operations that build new sets

  /** `map(map_fn)`: every interval mapped, then sorted again. */
  function Map<P>(S: IntervalSet3D<P>, f: Interval3D<P> -> Interval3D<P>): (r: IntervalSet3D<P>)
    ensures r.Valid()
    ensures multiset(r.intrvls) == multiset(Seqs.Map(S.intrvls, f))
  {
    Make(Seqs.Map(S.intrvls, f))
  }

  /** `union(other)`: both lists, duplicates kept, sorted again. */
  function Union<P>(A: IntervalSet3D<P>, B: IntervalSet3D<P>): (r: IntervalSet3D<P>)
    ensures r.Valid()
    ensures |r.intrvls| == |A.intrvls| + |B.intrvls|
    ensures multiset(r.intrvls) == multiset(A.intrvls) + multiset(B.intrvls)
  {
    Make(A.intrvls + B.intrvls)
  }

  /** Among intervals with equal bounds the union lists the receiver's first. */
  lemma UnionReceiverFirst<P>(A: IntervalSet3D<P>, B: IntervalSet3D<P>, k: seq<real>)
    ensures WithKey(Union(A, B).intrvls, SortKey, k) == WithKey(A.intrvls, SortKey, k) + WithKey(B.intrvls, SortKey, k)
  {
    SortByStable(A.intrvls + B.intrvls, SortKey, k);
    WithKeyAppend(A.intrvls, B.intrvls, SortKey, k);
  }

  /** `filter(predicate)`: the intervals that satisfy the predicate. */
  function Filter<P>(S: IntervalSet3D<P>, pred: Interval3D<P> -> bool): (r: IntervalSet3D<P>)
    ensures r.Valid()
    ensures multiset(r.intrvls) == multiset(Seqs.Filter(S.intrvls, pred))
  {
    Make(Seqs.Filter(S.intrvls, pred))
  }

  /** On a sorted set, filtering keeps exactly the satisfying intervals in their order. */
  lemma FilterKeepsOrder<P>(S: IntervalSet3D<P>, pred: Interval3D<P> -> bool)
    requires S.Valid()
    ensures Filter(S, pred).intrvls == Seqs.Filter(S.intrvls, pred)
  {
    FilterSortedBy(S.intrvls, pred, SortKey);
    MakeSorted(Seqs.Filter(S.intrvls, pred));
  }

  /** Filtering twice with the same predicate is filtering once. */
  lemma FilterTwice<P>(S: IntervalSet3D<P>, pred: Interval3D<P> -> bool)
    requires S.Valid()
    ensures Filter(Filter(S, pred), pred) == Filter(S, pred)
  {
    FilterKeepsOrder(S, pred);
    FilterKeepsOrder(Filter(S, pred), pred);
    Seqs.FilterIdempotent(S.intrvls, pred);
  }

  /** `fold(reducer, init, sort_key)`: a left fold over the intervals sorted by `key`. */
  function Fold<A, P>(S: IntervalSet3D<P>, reducer: (A, Interval3D<P>) -> A, init: A,
                      key: Interval3D<P> -> seq<real>): A
  {
    Seqs.FoldLeft(SortBy(S.intrvls, key), reducer, init)
  }

  /** `fold(reducer)` with no initial value: `reduce` over the sorted intervals; TypeError when empty. */
  function FoldNoInit<P>(S: IntervalSet3D<P>, reducer: (Interval3D<P>, Interval3D<P>) -> Interval3D<P>,
                         key: Interval3D<P> -> seq<real>): (r: Result<Interval3D<P>>)
    ensures r.Err? <==> |S.intrvls| == 0
    ensures r.Err? ==> r.error == TypeMismatch
  {
    var lst := SortBy(S.intrvls, key);
    if |lst| == 0 then Err(TypeMismatch) else Ok(Seqs.FoldLeft(lst[1..], reducer, lst[0]))
  }

  /** With the set's own key, folding visits the intervals in the set's order. */
  lemma FoldInSetOrder<A, P>(S: IntervalSet3D<P>, reducer: (A, Interval3D<P>) -> A, init: A,
                             reducer1: (Interval3D<P>, Interval3D<P>) -> Interval3D<P>)
    requires S.Valid()
    ensures Fold(S, reducer, init, SortKey) == Seqs.FoldLeft(S.intrvls, reducer, init)
    ensures |S.intrvls| > 0 ==>
            FoldNoInit(S, reducer1, SortKey) == Ok(Seqs.FoldLeft(S.intrvls[1..], reducer1, S.intrvls[0]))
  {
    SortBySorted(S.intrvls, SortKey);
  }

  // -------------------------------------------------------------------
  // group_by

  /** The distinct keys in order of first occurrence (the order of the dict's keys). */
  function GroupKeys<K(==), T>(s: seq<T>, key: T -> K): seq<K>
  {
    if s == [] then []
    else
      var ks := GroupKeys(s[..|s| - 1], key);
      if key(s[|s| - 1]) in ks then ks else ks + [key(s[|s| - 1])]
  }

  function KeyIs<K(==), T>(key: T -> K, k: K): T -> bool
  {
    i => key(i) == k
  }

  /** The elements filed under `k`, in order. */
  function Group<K(==), T>(s: seq<T>, key: T -> K, k: K): seq<T>
  {
    Seqs.Filter(s, KeyIs(key, k))
  }

  /** The merge of the group of one key. */
  function MergeOf<K(==), P>(s: seq<Interval3D<P>>, key: Interval3D<P> -> K,
                          merge: (K, IntervalSet3D<P>) -> Interval3D<P>): K -> Interval3D<P>
  {
    k => merge(k, Make(Group(s, key, k)))
  }

  /** One merged interval per key, in key order. */
  function MergeGroups<K(==), P>(ks: seq<K>, s: seq<Interval3D<P>>, key: Interval3D<P> -> K,
                             merge: (K, IntervalSet3D<P>) -> Interval3D<P>): seq<Interval3D<P>>
  {
    Seqs.Map(ks, MergeOf(s, key, merge))
  }

  /** What `group_by(key, merge)` returns. */
  function GroupBySpec<K(==), P>(S: IntervalSet3D<P>, key: Interval3D<P> -> K,
                             merge: (K, IntervalSet3D<P>) -> Interval3D<P>): IntervalSet3D<P>
  {
    var lst := SortBy(S.intrvls, SortKey);
    Make(MergeGroups(GroupKeys(lst, key), lst, key, merge))
  }

  /** The keys are distinct, each comes from some interval, and every interval's key is among them. */
  lemma {:induction false} GroupKeysMeaning<K, T>(s: seq<T>, key: T -> K)
    ensures var ks := GroupKeys(s, key);
            (forall i, j :: 0 <= i < j < |ks| ==> ks[i] != ks[j]) &&
            (forall i :: 0 <= i < |s| ==> key(s[i]) in ks) &&
            (forall j :: 0 <= j < |ks| ==> exists i :: 0 <= i < |s| && key(s[i]) == ks[j])
  {
    if s != [] {
      var n := |s| - 1;
      GroupKeysMeaning(s[..n], key);
      var ks := GroupKeys(s, key);
      forall j | 0 <= j < |ks| ensures exists i :: 0 <= i < |s| && key(s[i]) == ks[j] {
        if j < |GroupKeys(s[..n], key)| {
          var i :| 0 <= i < n && key(s[..n][i]) == ks[j];
          assert key(s[i]) == ks[j];
        } else {
          assert key(s[n]) == ks[j];
        }
      }
      forall i | 0 <= i < |s| ensures key(s[i]) in ks {
        if i < n {
          assert key(s[..n][i]) in GroupKeys(s[..n], key);
        }
      }
    }
  }

  /**
   * `group_by`: one output interval per distinct key, obtained by merging the
   * non-empty group of intervals that have that key.
   */
  lemma GroupByMeaning<K, P>(S: IntervalSet3D<P>, key: Interval3D<P> -> K,
                             merge: (K, IntervalSet3D<P>) -> Interval3D<P>)
    ensures var lst := SortBy(S.intrvls, SortKey);
            var ks := GroupKeys(lst, key);
            var r := GroupBySpec(S, key, merge);
            r.Valid() && |r.intrvls| == |ks| &&
            (forall i :: 0 <= i < |S.intrvls| ==> key(S.intrvls[i]) in ks) &&
            (forall j :: 0 <= j < |ks| ==> |Group(lst, key, ks[j])| > 0) &&
            multiset(r.intrvls) == multiset(MergeGroups(ks, lst, key, merge))
  {
    var lst := SortBy(S.intrvls, SortKey);
    var ks := GroupKeys(lst, key);
    KeysCoverInput(S.intrvls, lst, key);
    GroupsNonEmpty(lst, key);
  }

  /** Every interval's key is among the keys of any reordering of the intervals. */
  lemma KeysCoverInput<K, P>(s: seq<Interval3D<P>>, lst: seq<Interval3D<P>>, key: Interval3D<P> -> K)
    requires multiset(lst) == multiset(s)
    ensures forall i :: 0 <= i < |s| ==> key(s[i]) in GroupKeys(lst, key)
  {
    GroupKeysMeaning(lst, key);
    forall i | 0 <= i < |s| ensures key(s[i]) in GroupKeys(lst, key) {
      assert s[i] in multiset(lst);
      var m :| 0 <= m < |lst| && lst[m] == s[i];
    }
  }

  /** No key's group is empty. */
  lemma GroupsNonEmpty<K, T>(lst: seq<T>, key: T -> K)
    ensures var ks := GroupKeys(lst, key);
            forall j :: 0 <= j < |ks| ==> |Group(lst, key, ks[j])| > 0
  {
    var ks := GroupKeys(lst, key);
    GroupKeysMeaning(lst, key);
    forall j | 0 <= j < |ks| ensures |Group(lst, key, ks[j])| > 0 {
      var i :| 0 <= i < |lst| && key(lst[i]) == ks[j];
      assert KeyIs(key, ks[j])(lst[i]);
      Seqs.FilterMembers(lst, KeyIs(key, ks[j]));
      assert lst[i] in Group(lst, key, ks[j]);
    }
  }

  /**
   * The first loop of `group_by`: files each interval under its key in a
   * dict, remembering the keys in the order they first appear.
   */
  method FileByKey<K(==), P>(lst: seq<Interval3D<P>>, key: Interval3D<P> -> K)
    returns (keys: seq<K>, groups: map<K, seq<Interval3D<P>>>)
    ensures keys == GroupKeys(lst, key)
    ensures forall j :: 0 <= j < |keys| ==> keys[j] in groups && groups[keys[j]] == Group(lst, key, keys[j])
  {
    keys, groups := [], map[];
    for i := 0 to |lst|
      invariant keys == GroupKeys(lst[..i], key)
      invariant forall k :: k in groups ==> k in keys
      invariant forall j :: 0 <= j < |keys| ==> keys[j] in groups && groups[keys[j]] == Group(lst[..i], key, keys[j])
    {
      var k := key(lst[i]);
      assert lst[..i + 1][..i] == lst[..i];
      if k !in groups {
        groups := groups[k := [lst[i]]];
        keys := keys + [k];
      } else {
        groups := groups[k := groups[k] + [lst[i]]];
      }
      forall j | 0 <= j < |keys| ensures groups[keys[j]] == Group(lst[..i + 1], key, keys[j]) {
        Seqs.FilterPrefixStep(lst, i, KeyIs(key, keys[j]));
        if j == |keys| - 1 && keys[j] == k && k !in GroupKeys(lst[..i], key) {
          GroupKeysMeaning(lst[..i], key);
          Seqs.FilterNonePass(lst[..i], KeyIs(key, k));
        }
      }
    }
    assert lst[..|lst|] == lst;
  }

  /** `group_by(key, merge)`: files the intervals under their keys in a dict, then merges each group. */
  method GroupBy<K(==), P>(S: IntervalSet3D<P>, key: Interval3D<P> -> K,
                       merge: (K, IntervalSet3D<P>) -> Interval3D<P>) returns (r: IntervalSet3D<P>)
    ensures r == GroupBySpec(S, key, merge)
  {
    var lst := SortBy(S.intrvls, SortKey);
    var keys, groups := FileByKey(lst, key);
    var output: seq<Interval3D<P>> := [];
    for j := 0 to |keys|
      invariant output == MergeGroups(keys[..j], lst, key, merge)
    {
      var g := groups[keys[j]];
      assert g == Group(lst, key, keys[j]);
      Seqs.MapPrefixStep(keys, j, MergeOf(lst, key, merge));
      output := output + [merge(keys[j], Make(g))];
    }
    assert keys[..|keys|] == keys;
    r := Make(output);
  }
}
