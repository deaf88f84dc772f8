// `Interval` and `IntervalList` of `rekall/interval_list.py`: one-dimensional
// intervals with integer payloads, the per-pair difference, intersection and
// hull, and a list kept sorted by (start, end, payload) with the operations
// that build new lists from it. The list difference is in its own module.

module IntervalListModel {
  import opened Common
  import opened Temporal
  import opened LexSort
  import Seqs

  /** `payload_producer_fn`: the payload of a result, from the two intervals it came from. */
  type Producer<!P> = (Interval<P>, Interval<P>) -> P

  /** `intrvl1_payload`, the default producer: the first interval's payload. */
  function FirstPayload<P>(a: Interval<P>, b: Interval<P>): P
  {
    a.payload
  }

  // -------------------------------------------------------------------
  // Per-pair operations of `Interval`

  /**
   * `Interval.minus` as written. The chain of cases misses the overlaps in
   * which the two share exactly one endpoint, and those reach `assert False`.
   */
  function MinusAsWritten<P>(a: Interval<P>, b: Interval<P>, producer: Producer<P>): Result<seq<Interval<P>>>
  {
    if Overlaps(a, b) then
      var payload := producer(a, b);
      if During(a, b) || Equal(a, b) then Ok([])
      else if OverlapsBefore(a, b) then Ok([Interval(a.start, b.start, payload)])
      else if OverlapsAfter(a, b) then Ok([Interval(b.end, a.end, payload)])
      else if During(b, a) then Ok([Interval(a.start, b.start, payload), Interval(b.end, a.end, payload)])
      else Err(AssertionFailed)
    else
      Ok([a])
  }

  /** The cases of `Interval.minus` that its docstring names, and the ones that fail. */
  lemma MinusAsWrittenCases<P>(a: Interval<P>, b: Interval<P>, producer: Producer<P>)
    ensures !Overlaps(a, b) ==> MinusAsWritten(a, b, producer) == Ok([a])
    ensures During(a, b) || Equal(a, b) ==> MinusAsWritten(a, b, producer) == Ok([])
    ensures DuringInv(a, b) ==>
            MinusAsWritten(a, b, producer) ==
            Ok([Interval(a.start, b.start, producer(a, b)), Interval(b.end, a.end, producer(a, b))])
    ensures MinusAsWritten(a, b, producer).Err? <==>
            Starts(0.0, a, b) || StartsInv(0.0, a, b) || Finishes(0.0, a, b) || FinishesInv(0.0, a, b)
  {
    OverlapsIsUnionOfAllen(a, b);
  }

  /** Two intervals with the same start, one shorter: as written, `minus` fails on them. */
  lemma MinusAsWrittenFailsOnSharedStart()
    ensures MinusAsWritten(Interval(0.0, 1.0, 0), Interval(0.0, 2.0, 0), FirstPayload) == Err(AssertionFailed)
  {
  }

  /**
   * The difference `minus` is meant to compute: `[a]` when the two do not
   * overlap, otherwise the part of `a` before `b` and the part after it, each
   * only when it is there.
   */
  function Minus<P>(a: Interval<P>, b: Interval<P>, producer: Producer<P>): seq<Interval<P>>
  {
    if !Overlaps(a, b) then [a]
    else
      var payload := producer(a, b);
      (if a.start < b.start then [Interval(a.start, b.start, payload)] else []) +
      (if b.end < a.end then [Interval(b.end, a.end, payload)] else [])
  }

  /** Wherever the code as written returns, it returns the corrected difference. */
  lemma MinusAgreesWhereDefined<P>(a: Interval<P>, b: Interval<P>, producer: Producer<P>)
    ensures MinusAsWritten(a, b, producer).Ok? ==> MinusAsWritten(a, b, producer).value == Minus(a, b, producer)
  {
  }

  /** The difference never overlaps an `other` of positive length. */
  lemma MinusAvoidsOther<P>(a: Interval<P>, b: Interval<P>, producer: Producer<P>)
    requires b.start < b.end
    ensures forall k :: 0 <= k < |Minus(a, b, producer)| ==> !Overlaps(Minus(a, b, producer)[k], b)
  {
  }

  /** The time of `a` outside the interior of `b`. */
  predicate InInterior<P>(a: Interval<P>, x: real)
  {
    a.start < x < a.end
  }

  /** Some piece of `r` holds the time `x`. */
  predicate Covered<P>(r: seq<Interval<P>>, x: real)
  {
    exists k :: 0 <= k < |r| && r[k].start <= x <= r[k].end
  }

  /**
   * For well-formed intervals the difference maximally covers `a` without
   * entering `b`: every piece lies inside `a`, none reaches into the interior
   * of `b`, and every time inside `a` but not inside `b` lies in a piece.
   */
  lemma MinusIsDifference<P>(a: Interval<P>, b: Interval<P>, producer: Producer<P>)
    requires a.start <= a.end && b.start <= b.end
    ensures var r := Minus(a, b, producer);
            (forall k :: 0 <= k < |r| ==> a.start <= r[k].start <= r[k].end <= a.end) &&
            (forall k :: 0 <= k < |r| ==> r[k].end <= b.start || b.end <= r[k].start) &&
            (forall x :: InInterior(a, x) && !InInterior(b, x) ==> Covered(r, x))
  {
    var r := Minus(a, b, producer);
    forall x | InInterior(a, x) && !InInterior(b, x) ensures Covered(r, x) {
      if !Overlaps(a, b) {
        assert r[0] == a;
      } else if x <= b.start {
        assert r[0].start <= x <= r[0].end;
      } else {
        assert r[|r| - 1].start <= x <= r[|r| - 1].end;
      }
    }
  }

  /**
   * `Interval.overlap`: nothing when the two do not overlap, otherwise the
   * intersection [max start, min end] with the producer's payload. The final
   * `assert False` of the source cannot be reached.
   */
  function Overlap<P>(a: Interval<P>, b: Interval<P>, producer: Producer<P>): (r: Option<Interval<P>>)
    ensures r.None? <==> !Overlaps(a, b)
    ensures r.Some? ==> r.value == Interval(Max(a.start, b.start), Min(a.end, b.end), producer(a, b))
  {
    if Overlaps(a, b) then
      var payload := producer(a, b);
      if During(a, b) || Equal(a, b) || Starts(0.0, a, b) || Finishes(0.0, a, b) then
        Some(Interval(a.start, a.end, payload))
      else if OverlapsBefore(a, b) then Some(Interval(b.start, a.end, payload))
      else if OverlapsAfter(a, b) then Some(Interval(a.start, b.end, payload))
      else if During(b, a) || Starts(0.0, b, a) || Finishes(0.0, b, a) then
        Some(Interval(b.start, b.end, payload))
      else
        assert false; None
    else
      None
  }

  /** `Interval.merge`: the least interval that holds both, with the producer's payload. */
  function Merge<P>(a: Interval<P>, b: Interval<P>, producer: Producer<P>): (r: Interval<P>)
    ensures r.start <= a.start && r.start <= b.start && (r.start == a.start || r.start == b.start)
    ensures a.end <= r.end && b.end <= r.end && (r.end == a.end || r.end == b.end)
    ensures r.payload == producer(a, b)
  {
    Interval(Min(a.start, b.start), Max(a.end, b.end), producer(a, b))
  }

  // -------------------------------------------------------------------
  // IntervalList

  /** `Interval.sort_key`: the tuple (start, end, payload). */
  function SortKey(i: Interval<int>): seq<real>
  {
    [i.start, i.end, i.payload as real]
  }

  datatype IntervalList = IntervalList(intrvls: seq<Interval<int>>)
  {
    /** Sorted by (start, end, payload). */
    ghost predicate Valid()
    {
      SortedBy(intrvls, SortKey)
    }

    /** `size()` */
    function Size(): nat
    {
      |intrvls|
    }

    /** `get_intervals()` */
    function GetIntervals(): seq<Interval<int>>
    {
      intrvls
    }
  }

  /** `IntervalList(intrvls)`: the intervals, sorted (stably) by (start, end, payload). */
  function Make(s: seq<Interval<int>>): (r: IntervalList)
    ensures r.Valid()
    ensures multiset(r.intrvls) == multiset(s)
    ensures r.Size() == |s|
  {
    IntervalList(SortBy(s, SortKey))
  }

  /** Construction keeps exactly the given intervals. */
  lemma MakeMembers(s: seq<Interval<int>>, x: Interval<int>)
    ensures x in Make(s).intrvls <==> x in s
  {
    assert x in Make(s).intrvls <==> x in multiset(Make(s).intrvls);
  }

  lemma MakeSorted(s: seq<Interval<int>>)
    requires SortedBy(s, SortKey)
    ensures Make(s).intrvls == s
  {
    SortBySorted(s, SortKey);
  }

  /** The sum of the lengths of the intervals. */
  function TotalTime(s: seq<Interval<int>>): real
  {
    if s == [] then 0.0 else TotalTime(s[..|s| - 1]) + s[|s| - 1].Length()
  }

  /** `get_total_time()`: adds up the lengths one interval at a time. */
  method GetTotalTime(L: IntervalList) returns (total: real)
    ensures total == TotalTime(L.intrvls)
  {
    total := 0.0;
    for i := 0 to |L.intrvls|
      invariant total == TotalTime(L.intrvls[..i])
    {
      assert L.intrvls[..i + 1][..i] == L.intrvls[..i];
      total := total + (L.intrvls[i].end - L.intrvls[i].start);
    }
    assert L.intrvls[..|L.intrvls|] == L.intrvls;
  }

  lemma {:induction false} TotalTimeAppend(s: seq<Interval<int>>, t: seq<Interval<int>>)
    ensures TotalTime(s + t) == TotalTime(s) + TotalTime(t)
    decreases |t|
  {
    if t == [] {
      assert s + t == s;
    } else {
      var n := |t| - 1;
      assert (s + t)[..|s + t| - 1] == s + t[..n];
      TotalTimeAppend(s, t[..n]);
    }
  }

  lemma {:induction false} TotalTimeInsert(x: Interval<int>, s: seq<Interval<int>>)
    ensures TotalTime(Insert(x, s, SortKey)) == TotalTime(s) + x.Length()
  {
    TotalTimeAppend([x], s);
    assert TotalTime([x]) == TotalTime([]) + x.Length();
    if s != [] && !LexLe(SortKey(x), SortKey(s[0])) {
      TotalTimeInsert(x, s[1..]);
      TotalTimeAppend([s[0]], s[1..]);
      TotalTimeAppend([s[0]], Insert(x, s[1..], SortKey));
      assert s == [s[0]] + s[1..];
      assert TotalTime([s[0]]) == TotalTime([]) + s[0].Length();
    }
  }

  /** Sorting does not change the total time. */
  lemma {:induction false} TotalTimeSorted(s: seq<Interval<int>>)
    ensures TotalTime(SortBy(s, SortKey)) == TotalTime(s)
  {
    if s != [] {
      TotalTimeSorted(s[1..]);
      TotalTimeInsert(s[0], SortBy(s[1..], SortKey));
      TotalTimeAppend([s[0]], s[1..]);
      assert s == [s[0]] + s[1..];
      assert TotalTime([s[0]]) == TotalTime([]) + s[0].Length();
    }
  }

  // -------------------------------------------------------------------
  // coalesce

  /** The bucket of `coalesce`: the payload when payloads must match, otherwise one bucket for all. */
  function Bucket(x: Interval<int>, samePayload: bool): int
  {
    if samePayload then x.payload else 0
  }

  /**
   * The state of the loop of `coalesce`: the intervals already appended to
   * `new_intrvls`, the keys of `first_by_payload` in insertion order (the
   * order in which a Python dict yields its values), and the dict itself.
   */
  datatype Sweep = Sweep(emitted: seq<Interval<int>>, keys: seq<int>, first: map<int, Interval<int>>)

  /** One iteration of the loop of `coalesce` on the interval `x`. */
  function CoalesceStep(st: Sweep, x: Interval<int>, samePayload: bool): Sweep
  {
    var k := Bucket(x, samePayload);
    if k in st.first then
      var f := st.first[k];
      if x.start >= f.start && x.start <= f.end then
        if x.end > f.end then st.(first := st.first[k := f.(end := x.end)]) else st
      else
        Sweep(st.emitted + [f], st.keys, st.first[k := x])
    else
      Sweep(st.emitted, st.keys + [k], st.first[k := x])
  }

  /** The state after the loop has visited `s[..n]`. */
  function CoalescePrefix(s: seq<Interval<int>>, n: nat, samePayload: bool): Sweep
    requires n <= |s|
  {
    if n == 0 then Sweep([], [], map[]) else CoalesceStep(CoalescePrefix(s, n - 1, samePayload), s[n - 1], samePayload)
  }

  /** `first_by_payload.values()`, in insertion order. */
  function Values(keys: seq<int>, first: map<int, Interval<int>>): seq<Interval<int>>
  {
    if keys == [] then []
    else Values(keys[..|keys| - 1], first) + (if keys[|keys| - 1] in first then [first[keys[|keys| - 1]]] else [])
  }

  /** `new_intrvls` after both loops. */
  function CoalesceOutput(s: seq<Interval<int>>, samePayload: bool): seq<Interval<int>>
  {
    var st := CoalescePrefix(s, |s|, samePayload);
    st.emitted + Values(st.keys, st.first)
  }

  /** `coalesce(require_same_payload)`: the list itself when empty. */
  function CoalesceOf(L: IntervalList, samePayload: bool): IntervalList
  {
    if |L.intrvls| == 0 then L else Make(CoalesceOutput(L.intrvls, samePayload))
  }

  /** `coalesce`: one pass that grows or closes the open interval of each bucket, then the open ones. */
  method Coalesce(L: IntervalList, samePayload: bool) returns (r: IntervalList)
    ensures r == CoalesceOf(L, samePayload)
  {
    if |L.intrvls| == 0 {
      return L;
    }
    var newIntrvls: seq<Interval<int>> := [];
    var keys: seq<int> := [];
    var firstByPayload: map<int, Interval<int>> := map[];
    for i := 0 to |L.intrvls|
      invariant Sweep(newIntrvls, keys, firstByPayload) == CoalescePrefix(L.intrvls, i, samePayload)
    {
      var intrvl := L.intrvls[i];
      var payload := if samePayload then intrvl.payload else 0;
      assert CoalescePrefix(L.intrvls, i + 1, samePayload) ==
             CoalesceStep(Sweep(newIntrvls, keys, firstByPayload), intrvl, samePayload);
      if payload in firstByPayload {
        var first := firstByPayload[payload];
        if intrvl.start >= first.start && intrvl.start <= first.end {
          if intrvl.end > first.end {
            firstByPayload := firstByPayload[payload := first.(end := intrvl.end)];
          }
        } else {
          newIntrvls := newIntrvls + [first];
          firstByPayload := firstByPayload[payload := intrvl];
        }
      } else {
        keys := keys + [payload];
        firstByPayload := firstByPayload[payload := intrvl];
      }
    }
    ghost var emitted := newIntrvls;
    CoalescePrefixKeys(L.intrvls, |L.intrvls|, samePayload);
    for j := 0 to |keys|
      invariant newIntrvls == emitted + Values(keys[..j], firstByPayload)
    {
      assert keys[..j + 1][..j] == keys[..j];
      assert keys[j] in keys;
      newIntrvls := newIntrvls + [firstByPayload[keys[j]]];
    }
    assert keys[..|keys|] == keys;
    r := Make(newIntrvls);
  }

  // The facts the loop keeps, one predicate each.

  /** The keys are distinct, are exactly the dict's keys, and each names the bucket of its interval. */
  ghost predicate KeysInv(st: Sweep, samePayload: bool)
  {
    (forall i, j :: 0 <= i < j < |st.keys| ==> st.keys[i] != st.keys[j]) &&
    (forall k :: k in st.first <==> k in st.keys) &&
    (forall j :: 0 <= j < |st.keys| ==> st.keys[j] in st.first) &&
    (forall k :: k in st.first ==> Bucket(st.first[k], samePayload) == k)
  }

  /** No open interval starts after `bound`. */
  ghost predicate OpenStartsInv(st: Sweep, bound: real)
  {
    forall k :: k in st.first ==> st.first[k].start <= bound
  }

  /**
   * Every closed interval ends strictly before the open interval of its
   * bucket starts, and before every later closed interval of its bucket.
   */
  ghost predicate GapsInv(st: Sweep, samePayload: bool)
  {
    (forall i :: 0 <= i < |st.emitted| ==>
      Bucket(st.emitted[i], samePayload) in st.first &&
      st.emitted[i].end < st.first[Bucket(st.emitted[i], samePayload)].start) &&
    (forall i, j :: 0 <= i < j < |st.emitted| && Bucket(st.emitted[i], samePayload) == Bucket(st.emitted[j], samePayload) ==>
      st.emitted[i].end < st.emitted[j].start)
  }

  /** `o` holds `x` and is in its bucket. */
  predicate Holds(o: Interval<int>, x: Interval<int>, samePayload: bool)
  {
    Bucket(o, samePayload) == Bucket(x, samePayload) && o.start <= x.start && x.end <= o.end
  }

  /** A closed or open interval holds `x`. */
  ghost predicate Kept(st: Sweep, x: Interval<int>, samePayload: bool)
  {
    (exists i :: 0 <= i < |st.emitted| && Holds(st.emitted[i], x, samePayload)) ||
    (Bucket(x, samePayload) in st.first && Holds(st.first[Bucket(x, samePayload)], x, samePayload))
  }

  ghost predicate CoverInv(st: Sweep, s: seq<Interval<int>>, n: nat, samePayload: bool)
    requires n <= |s|
  {
    forall m :: 0 <= m < n ==> Kept(st, s[m], samePayload)
  }

  /** The starts are non-decreasing, as in a list sorted by (start, end, payload). */
  predicate StartsAscending(s: seq<Interval<int>>)
  {
    forall i :: 0 < i < |s| ==> s[i - 1].start <= s[i].start
  }

  lemma CoalesceStepKeys(st: Sweep, x: Interval<int>, samePayload: bool)
    requires KeysInv(st, samePayload)
    ensures KeysInv(CoalesceStep(st, x, samePayload), samePayload)
  {
    var k := Bucket(x, samePayload);
    var st' := CoalesceStep(st, x, samePayload);
    if k in st.first {
      assert st'.keys == st.keys && st'.first.Keys == st.first.Keys;
      assert Bucket(st'.first[k], samePayload) == k;
    } else {
      assert st'.keys == st.keys + [k] && st'.first == st.first[k := x];
    }
  }

  lemma CoalesceStepStarts(st: Sweep, x: Interval<int>, samePayload: bool, bound: real)
    requires OpenStartsInv(st, bound) && bound <= x.start
    ensures OpenStartsInv(CoalesceStep(st, x, samePayload), x.start)
  {
  }

  lemma CoalesceStepGaps(st: Sweep, x: Interval<int>, samePayload: bool, bound: real)
    requires KeysInv(st, samePayload) && GapsInv(st, samePayload)
    requires OpenStartsInv(st, bound) && bound <= x.start
    ensures GapsInv(CoalesceStep(st, x, samePayload), samePayload)
  {
  }

  lemma CoalesceStepCover(st: Sweep, s: seq<Interval<int>>, n: nat, samePayload: bool)
    requires n < |s|
    requires KeysInv(st, samePayload) && CoverInv(st, s, n, samePayload)
    ensures CoverInv(CoalesceStep(st, s[n], samePayload), s, n + 1, samePayload)
  {
    var st' := CoalesceStep(st, s[n], samePayload);
    var k := Bucket(s[n], samePayload);
    forall m | 0 <= m <= n ensures Kept(st', s[m], samePayload) {
      if m < n {
        KeptStep(st, s[m], s[n], samePayload);
      } else {
        assert Holds(st'.first[k], s[n], samePayload);
      }
    }
  }

  lemma KeptStep(st: Sweep, y: Interval<int>, x: Interval<int>, samePayload: bool)
    requires Kept(st, y, samePayload)
    ensures Kept(CoalesceStep(st, x, samePayload), y, samePayload)
  {
    var st' := CoalesceStep(st, x, samePayload);
    var b := Bucket(y, samePayload);
    if exists i :: 0 <= i < |st.emitted| && Holds(st.emitted[i], y, samePayload) {
      var i :| 0 <= i < |st.emitted| && Holds(st.emitted[i], y, samePayload);
      assert st'.emitted[i] == st.emitted[i];
    } else if b == Bucket(x, samePayload) && st'.first[b] != st.first[b] && |st'.emitted| > |st.emitted| {
      assert st'.emitted[|st.emitted|] == st.first[b];
    }
  }

  /** The facts the loop keeps hold after every prefix: open intervals start no later than the last start seen. */
  lemma {:induction false} CoalescePrefixStarts(s: seq<Interval<int>>, n: nat, samePayload: bool)
    requires StartsAscending(s) && 0 < n <= |s|
    ensures OpenStartsInv(CoalescePrefix(s, n, samePayload), s[n - 1].start)
  {
    var st := CoalescePrefix(s, n - 1, samePayload);
    if n > 1 {
      CoalescePrefixStarts(s, n - 1, samePayload);
      assert s[n - 2].start <= s[n - 1].start;
      CoalesceStepStarts(st, s[n - 1], samePayload, s[n - 2].start);
    } else {
      CoalesceStepStarts(st, s[0], samePayload, s[0].start);
    }
  }

  /** Closed intervals are separated from the later ones of their bucket, after every prefix. */
  lemma {:induction false} CoalescePrefixGaps(s: seq<Interval<int>>, n: nat, samePayload: bool)
    requires StartsAscending(s) && n <= |s|
    ensures GapsInv(CoalescePrefix(s, n, samePayload), samePayload)
  {
    if n > 0 {
      var st := CoalescePrefix(s, n - 1, samePayload);
      CoalescePrefixGaps(s, n - 1, samePayload);
      CoalescePrefixKeys(s, n - 1, samePayload);
      if n > 1 {
        CoalescePrefixStarts(s, n - 1, samePayload);
        assert s[n - 2].start <= s[n - 1].start;
        CoalesceStepGaps(st, s[n - 1], samePayload, s[n - 2].start);
      } else {
        CoalesceStepGaps(st, s[0], samePayload, s[0].start);
      }
    }
  }

  /** Every visited interval is held by a closed or an open interval, after every prefix. */
  lemma {:induction false} CoalescePrefixCover(s: seq<Interval<int>>, n: nat, samePayload: bool)
    requires n <= |s|
    ensures CoverInv(CoalescePrefix(s, n, samePayload), s, n, samePayload)
  {
    if n > 0 {
      CoalescePrefixCover(s, n - 1, samePayload);
      CoalescePrefixKeys(s, n - 1, samePayload);
      CoalesceStepCover(CoalescePrefix(s, n - 1, samePayload), s, n - 1, samePayload);
    }
  }

  /** Each step closes or opens at most one interval. */
  lemma {:induction false} CoalescePrefixSize(s: seq<Interval<int>>, n: nat, samePayload: bool)
    requires n <= |s|
    ensures |CoalescePrefix(s, n, samePayload).emitted| + |CoalescePrefix(s, n, samePayload).keys| <= n
  {
    if n > 0 {
      CoalescePrefixSize(s, n - 1, samePayload);
    }
  }

  lemma {:induction false} CoalescePrefixKeys(s: seq<Interval<int>>, n: nat, samePayload: bool)
    requires n <= |s|
    ensures KeysInv(CoalescePrefix(s, n, samePayload), samePayload)
  {
    if n > 0 {
      CoalescePrefixKeys(s, n - 1, samePayload);
      CoalesceStepKeys(CoalescePrefix(s, n - 1, samePayload), s[n - 1], samePayload);
    }
  }

  /** With every key in the dict, the values are one per key, in key order. */
  lemma {:induction false} ValuesIndex(keys: seq<int>, first: map<int, Interval<int>>)
    requires forall j :: 0 <= j < |keys| ==> keys[j] in first
    ensures |Values(keys, first)| == |keys|
    ensures forall j :: 0 <= j < |keys| ==> Values(keys, first)[j] == first[keys[j]]
  {
    if keys != [] {
      var n := |keys| - 1;
      assert forall j :: 0 <= j < n ==> keys[..n][j] == keys[j];
      ValuesIndex(keys[..n], first);
    }
  }

  /** The output of the loops: the closed intervals, then one open interval per key, in key order. */
  lemma CoalesceOutputShape(s: seq<Interval<int>>, samePayload: bool)
    ensures var st := CoalescePrefix(s, |s|, samePayload);
            var out := CoalesceOutput(s, samePayload);
            KeysInv(st, samePayload) && |out| == |st.emitted| + |st.keys| &&
            (forall i :: 0 <= i < |st.emitted| ==> out[i] == st.emitted[i]) &&
            (forall j :: 0 <= j < |st.keys| ==> out[|st.emitted| + j] == st.first[st.keys[j]])
  {
    var st := CoalescePrefix(s, |s|, samePayload);
    CoalescePrefixKeys(s, |s|, samePayload);
    ValuesIndex(st.keys, st.first);
  }

  /** `coalesce` makes no more intervals than it is given. */
  lemma CoalesceOutputSize(s: seq<Interval<int>>, samePayload: bool)
    ensures |CoalesceOutput(s, samePayload)| <= |s|
  {
    CoalesceOutputShape(s, samePayload);
    CoalescePrefixSize(s, |s|, samePayload);
  }

  /** Every input lies inside an output of its bucket. */
  lemma CoalesceOutputCovers(s: seq<Interval<int>>, samePayload: bool)
    ensures forall m :: 0 <= m < |s| ==> exists o :: o in CoalesceOutput(s, samePayload) && Holds(o, s[m], samePayload)
  {
    var st := CoalescePrefix(s, |s|, samePayload);
    var out := CoalesceOutput(s, samePayload);
    var e := |st.emitted|;
    CoalescePrefixKeys(s, |s|, samePayload);
    CoalescePrefixCover(s, |s|, samePayload);
    CoalesceOutputShape(s, samePayload);
    forall m | 0 <= m < |s| ensures exists o :: o in out && Holds(o, s[m], samePayload) {
      assert Kept(st, s[m], samePayload);
      if exists i :: 0 <= i < e && Holds(st.emitted[i], s[m], samePayload) {
        var i :| 0 <= i < e && Holds(st.emitted[i], s[m], samePayload);
        assert out[i] == st.emitted[i];
      } else {
        var k := Bucket(s[m], samePayload);
        var j :| 0 <= j < |st.keys| && st.keys[j] == k;
        assert out[e + j] == st.first[k];
      }
    }
  }

  /**
   * On a list whose starts ascend, two outputs of one bucket are separated
   * by a strict gap: intervals that overlap or touch have merged.
   */
  lemma CoalesceOutputGaps(s: seq<Interval<int>>, samePayload: bool)
    requires StartsAscending(s)
    ensures var out := CoalesceOutput(s, samePayload);
            forall i, j :: 0 <= i < j < |out| && Bucket(out[i], samePayload) == Bucket(out[j], samePayload) ==>
              out[i].end < out[j].start
  {
    var st := CoalescePrefix(s, |s|, samePayload);
    CoalescePrefixKeys(s, |s|, samePayload);
    CoalescePrefixGaps(s, |s|, samePayload);
    assert CoalesceOutput(s, samePayload) == st.emitted + Values(st.keys, st.first);
    SweepOutputGaps(st, samePayload);
  }

  /** The gaps the loop keeps, read off its final output. */
  lemma SweepOutputGaps(st: Sweep, samePayload: bool)
    requires KeysInv(st, samePayload) && GapsInv(st, samePayload)
    ensures var out := st.emitted + Values(st.keys, st.first);
            forall i, j :: 0 <= i < j < |out| && Bucket(out[i], samePayload) == Bucket(out[j], samePayload) ==>
              out[i].end < out[j].start
  {
    var out := st.emitted + Values(st.keys, st.first);
    var e := |st.emitted|;
    ValuesIndex(st.keys, st.first);
    forall i, j | 0 <= i < j < |out|
      ensures Bucket(out[i], samePayload) == Bucket(out[j], samePayload) ==> out[i].end < out[j].start
    {
      if j < e {
        assert out[i] == st.emitted[i] && out[j] == st.emitted[j];
      } else if i < e {
        assert out[i] == st.emitted[i] && out[j] == st.first[st.keys[j - e]];
        if Bucket(out[i], samePayload) == Bucket(out[j], samePayload) {
          ClosedBeforeOpen(st, samePayload, i, j - e);
        }
      } else {
        assert out[i] == st.first[st.keys[i - e]] && out[j] == st.first[st.keys[j - e]];
        OpenBucketsDistinct(st, samePayload, i - e, j - e);
      }
    }
  }

  lemma ClosedBeforeOpen(st: Sweep, samePayload: bool, i: int, j: int)
    requires KeysInv(st, samePayload) && GapsInv(st, samePayload)
    requires 0 <= i < |st.emitted| && 0 <= j < |st.keys|
    requires Bucket(st.emitted[i], samePayload) == Bucket(st.first[st.keys[j]], samePayload)
    ensures st.emitted[i].end < st.first[st.keys[j]].start
  {
  }

  lemma OpenBucketsDistinct(st: Sweep, samePayload: bool, i: int, j: int)
    requires KeysInv(st, samePayload)
    requires 0 <= i < j < |st.keys|
    ensures Bucket(st.first[st.keys[i]], samePayload) != Bucket(st.first[st.keys[j]], samePayload)
  {
  }


  /** Some interval of `s[..n]` in bucket `b` holds the time `t` (ends included). */
  ghost predicate InputHolds(s: seq<Interval<int>>, n: nat, b: int, t: real, samePayload: bool)
    requires n <= |s|
  {
    exists m :: 0 <= m < n && Bucket(s[m], samePayload) == b && s[m].start <= t <= s[m].end
  }

  /** Every time of `o` lies in an interval of `s[..n]` of its bucket. */
  ghost predicate FromInputs(o: Interval<int>, s: seq<Interval<int>>, n: nat, samePayload: bool)
    requires n <= |s|
  {
    forall t :: o.start <= t <= o.end ==> InputHolds(s, n, Bucket(o, samePayload), t, samePayload)
  }

  /** The closed and open intervals of the loop are made of times of the intervals visited. */
  ghost predicate SourceInv(st: Sweep, s: seq<Interval<int>>, n: nat, samePayload: bool)
    requires n <= |s|
  {
    (forall i :: 0 <= i < |st.emitted| ==> FromInputs(st.emitted[i], s, n, samePayload)) &&
    (forall k :: k in st.first ==> FromInputs(st.first[k], s, n, samePayload))
  }

  lemma FromInputsLater(o: Interval<int>, s: seq<Interval<int>>, n: nat, n': nat, samePayload: bool)
    requires n <= n' <= |s| && FromInputs(o, s, n, samePayload)
    ensures FromInputs(o, s, n', samePayload)
  {
    var b := Bucket(o, samePayload);
    forall t | o.start <= t <= o.end ensures InputHolds(s, n', b, t, samePayload) {
      assert InputHolds(s, n, b, t, samePayload);
      var m :| 0 <= m < n && Bucket(s[m], samePayload) == b && s[m].start <= t <= s[m].end;
    }
  }

  /** Growing the open interval `f` by an interval starting inside it adds only that interval's times. */
  lemma GrownFromInputs(f: Interval<int>, s: seq<Interval<int>>, n: nat, samePayload: bool)
    requires n < |s| && FromInputs(f, s, n, samePayload)
    requires Bucket(f, samePayload) == Bucket(s[n], samePayload)
    requires f.start <= s[n].start <= f.end < s[n].end
    ensures FromInputs(f.(end := s[n].end), s, n + 1, samePayload)
  {
    FromInputsLater(f, s, n, n + 1, samePayload);
  }

  lemma CoalesceStepSource(st: Sweep, s: seq<Interval<int>>, n: nat, samePayload: bool)
    requires n < |s|
    requires KeysInv(st, samePayload) && SourceInv(st, s, n, samePayload)
    ensures SourceInv(CoalesceStep(st, s[n], samePayload), s, n + 1, samePayload)
  {
    var st' := CoalesceStep(st, s[n], samePayload);
    var k := Bucket(s[n], samePayload);
    assert FromInputs(s[n], s, n + 1, samePayload);
    forall i | 0 <= i < |st.emitted| ensures FromInputs(st.emitted[i], s, n + 1, samePayload) {
      FromInputsLater(st.emitted[i], s, n, n + 1, samePayload);
    }
    forall k' | k' in st.first ensures FromInputs(st.first[k'], s, n + 1, samePayload) {
      FromInputsLater(st.first[k'], s, n, n + 1, samePayload);
    }
    if k in st.first {
      var f := st.first[k];
      if s[n].start >= f.start && s[n].start <= f.end && s[n].end > f.end {
        GrownFromInputs(f, s, n, samePayload);
      }
    }
    assert forall i :: 0 <= i < |st'.emitted| ==> st'.emitted[i] in st.emitted || st'.emitted[i] in st.first.Values;
  }

  lemma {:induction false} CoalescePrefixSource(s: seq<Interval<int>>, n: nat, samePayload: bool)
    requires n <= |s|
    ensures SourceInv(CoalescePrefix(s, n, samePayload), s, n, samePayload)
  {
    if n > 0 {
      CoalescePrefixSource(s, n - 1, samePayload);
      CoalescePrefixKeys(s, n - 1, samePayload);
      CoalesceStepSource(CoalescePrefix(s, n - 1, samePayload), s, n - 1, samePayload);
    }
  }

  /** `coalesce` adds no time: every time of an output lies in an input of its bucket. */
  lemma CoalesceOutputFromInputs(s: seq<Interval<int>>, samePayload: bool, o: Interval<int>)
    requires o in CoalesceOutput(s, samePayload)
    ensures FromInputs(o, s, |s|, samePayload)
  {
    var st := CoalescePrefix(s, |s|, samePayload);
    CoalescePrefixSource(s, |s|, samePayload);
    CoalescePrefixKeys(s, |s|, samePayload);
    if o in st.emitted {
      var i :| 0 <= i < |st.emitted| && st.emitted[i] == o;
    } else {
      var vs := Values(st.keys, st.first);
      ValuesIndex(st.keys, st.first);
      var j :| 0 <= j < |vs| && vs[j] == o;
      assert st.keys[j] in st.first;
    }
  }

  /** The sorted order of a list puts the starts in ascending order. */
  lemma SortedStartsAscending(L: IntervalList)
    requires L.Valid()
    ensures StartsAscending(L.intrvls)
  {
    forall i | 0 < i < |L.intrvls| ensures L.intrvls[i - 1].start <= L.intrvls[i].start {
      SortedFirstComponent(L.intrvls, SortKey, i - 1, i);
    }
  }

  /**
   * `coalesce` returns the list itself when it is empty; otherwise it has no
   * more intervals than the list, each interval of the list lies inside one
   * of it that has the same bucket, every time of an output lies in an input
   * of its bucket, and two outputs of one bucket neither overlap nor touch.
   */
  lemma CoalesceLaws(L: IntervalList, samePayload: bool)
    requires L.Valid()
    ensures |L.intrvls| == 0 ==> CoalesceOf(L, samePayload) == L
    ensures CoalesceOf(L, samePayload).Size() <= L.Size()
    ensures forall m :: 0 <= m < |L.intrvls| ==>
              exists o :: o in CoalesceOf(L, samePayload).intrvls && Holds(o, L.intrvls[m], samePayload)
    ensures forall o :: o in CoalesceOf(L, samePayload).intrvls ==> FromInputs(o, L.intrvls, |L.intrvls|, samePayload)
    ensures forall o, o' ::
              (o in CoalesceOf(L, samePayload).intrvls && o' in CoalesceOf(L, samePayload).intrvls &&
               o != o' && Bucket(o, samePayload) == Bucket(o', samePayload)) ==>
              o.end < o'.start || o'.end < o.start
  {
    if |L.intrvls| > 0 {
      var out := CoalesceOutput(L.intrvls, samePayload);
      CoalesceOutputSize(L.intrvls, samePayload);
      CoalesceOutputCovers(L.intrvls, samePayload);
      var r := CoalesceOf(L, samePayload);
      forall m | 0 <= m < |L.intrvls|
        ensures exists o :: o in r.intrvls && Holds(o, L.intrvls[m], samePayload)
      {
        var o :| o in out && Holds(o, L.intrvls[m], samePayload);
        MakeMembers(out, o);
      }
      forall o | o in r.intrvls ensures FromInputs(o, L.intrvls, |L.intrvls|, samePayload) {
        MakeMembers(out, o);
        CoalesceOutputFromInputs(L.intrvls, samePayload, o);
      }
      SortedStartsAscending(L);
      CoalesceOutputGaps(L.intrvls, samePayload);
      forall o, o' | o in r.intrvls && o' in r.intrvls && o != o' && Bucket(o, samePayload) == Bucket(o', samePayload)
        ensures o.end < o'.start || o'.end < o.start
      {
        MakeMembers(out, o);
        MakeMembers(out, o');
        var i :| 0 <= i < |out| && out[i] == o;
        var j :| 0 <= j < |out| && out[j] == o';
      }
    }
  }

  // -------------------------------------------------------------------
  // Operations that build new lists

  /** `dilate(window)`: [start, end] becomes [start - window, end + window], payload kept. */
  function DilateOne(window: real): Interval<int> -> Interval<int>
  {
    (x: Interval<int>) => Interval(x.start - window, x.end + window, x.payload)
  }

  function Dilate(L: IntervalList, window: real): (r: IntervalList)
    ensures r.Size() == L.Size()
    ensures multiset(r.intrvls) == multiset(Seqs.Map(L.intrvls, DilateOne(window)))
  {
    Make(Seqs.Map(L.intrvls, DilateOne(window)))
  }

  /** Dilating shifts every key component the same way, so it keeps the order of keys. */
  lemma DilateKeepsKeyOrder(x: Interval<int>, y: Interval<int>, window: real)
    requires LexLe(SortKey(x), SortKey(y))
    ensures LexLe(SortKey(DilateOne(window)(x)), SortKey(DilateOne(window)(y)))
  {
    var kx, ky := SortKey(x), SortKey(y);
    var dx, dy := SortKey(DilateOne(window)(x)), SortKey(DilateOne(window)(y));
    assert kx[1..] == [x.end, x.payload as real] && ky[1..] == [y.end, y.payload as real];
    assert dx[1..] == [x.end + window, x.payload as real] && dy[1..] == [y.end + window, y.payload as real];
    assert kx[1..][1..] == dx[1..][1..] && ky[1..][1..] == dy[1..][1..];
  }

  /** On a sorted list, dilation maps every interval in place: no reordering. */
  lemma DilateInPlace(L: IntervalList, window: real)
    requires L.Valid()
    ensures Dilate(L, window).intrvls == Seqs.Map(L.intrvls, DilateOne(window))
  {
    var m := Seqs.Map(L.intrvls, DilateOne(window));
    forall i, j | 0 <= i < j < |m| ensures LexLe(SortKey(m[i]), SortKey(m[j])) {
      DilateKeepsKeyOrder(L.intrvls[i], L.intrvls[j], window);
    }
    MakeSorted(m);
  }

  /** Dilating adds twice the window per interval to the total time. */
  lemma {:induction false} DilateTotalTime(L: IntervalList, window: real)
    ensures TotalTime(Dilate(L, window).intrvls) == TotalTime(L.intrvls) + Widening(|L.intrvls|, window)
  {
    var m := Seqs.Map(L.intrvls, DilateOne(window));
    MapTotalTime(L.intrvls, window);
    TotalTimeSorted(m);
    assert Dilate(L, window).intrvls == SortBy(m, SortKey);
  }

  /** What dilating `n` intervals by `window` adds to their total time. */
  function Widening(n: nat, window: real): real
  {
    (n as real) * (2.0 * window)
  }

  lemma {:induction false} MapTotalTime(s: seq<Interval<int>>, window: real)
    ensures TotalTime(Seqs.Map(s, DilateOne(window))) == TotalTime(s) + Widening(|s|, window)
  {
    if s != [] {
      var n := |s| - 1;
      MapTotalTime(s[..n], window);
      Seqs.MapPrefixStep(s, n, DilateOne(window));
      assert s[..n + 1] == s;
    }
  }

  /** `filter(fn)`: the intervals that satisfy `fn`. */
  function Filter(L: IntervalList, fn: Interval<int> -> bool): (r: IntervalList)
    ensures multiset(r.intrvls) == multiset(Seqs.Filter(L.intrvls, fn))
  {
    Make(Seqs.Filter(L.intrvls, fn))
  }

  /** On a sorted list, filtering keeps exactly the satisfying intervals, in order. */
  lemma FilterKeepsOrder(L: IntervalList, fn: Interval<int> -> bool)
    requires L.Valid()
    ensures Filter(L, fn).intrvls == Seqs.Filter(L.intrvls, fn)
  {
    FilterSortedBy(L.intrvls, fn, SortKey);
    MakeSorted(Seqs.Filter(L.intrvls, fn));
  }

  /** An interval is in a filtered list exactly when it is in the list and passes. */
  lemma FilterMembers(L: IntervalList, fn: Interval<int> -> bool, x: Interval<int>)
    ensures x in Filter(L, fn).intrvls <==> x in L.intrvls && fn(x)
  {
    Seqs.FilterMembers(L.intrvls, fn);
    assert x in Filter(L, fn).intrvls <==> x in multiset(Filter(L, fn).intrvls);
    assert x in Seqs.Filter(L.intrvls, fn) <==> x in multiset(Seqs.Filter(L.intrvls, fn));
  }

  /** The test of `filter_length`: at least `minLength` long and at most `maxLength` (INFTY: no bound). */
  predicate LengthWithin(minLength: real, maxLength: MaxDist, x: Interval<int>)
  {
    var length := x.end - x.start;
    length >= minLength && (maxLength.Infty? || length <= maxLength.d)
  }

  function FilterLength(L: IntervalList, minLength: real, maxLength: MaxDist): IntervalList
  {
    Filter(L, x => LengthWithin(minLength, maxLength, x))
  }

  /** `filter_length` keeps exactly the intervals whose length lies within the bounds. */
  lemma FilterLengthMembers(L: IntervalList, minLength: real, maxLength: MaxDist, x: Interval<int>)
    ensures x in FilterLength(L, minLength, maxLength).intrvls <==>
            x in L.intrvls && minLength <= x.Length() && WithinMax(x.Length(), maxLength)
  {
    FilterMembers(L, x => LengthWithin(minLength, maxLength, x), x);
  }

  /** `set_union(other)`: both lists, duplicates kept. */
  function SetUnion(A: IntervalList, B: IntervalList): (r: IntervalList)
    ensures r.Size() == A.Size() + B.Size()
    ensures multiset(r.intrvls) == multiset(A.intrvls) + multiset(B.intrvls)
  {
    Make(A.intrvls + B.intrvls)
  }

  /** The total time of a union is the sum of the total times. */
  lemma UnionTotalTime(A: IntervalList, B: IntervalList)
    ensures TotalTime(SetUnion(A, B).intrvls) == TotalTime(A.intrvls) + TotalTime(B.intrvls)
  {
    TotalTimeSorted(A.intrvls + B.intrvls);
    TotalTimeAppend(A.intrvls, B.intrvls);
  }

  /** The scan of `filter_against`: true at the first interval of `o` that `pred` accepts with `x`. */
  function HasPartner(x: Interval<int>, o: seq<Interval<int>>, pred: BinPred<int>): bool
  {
    if o == [] then false else pred(x, o[0]) || HasPartner(x, o[1..], pred)
  }

  lemma {:induction false} HasPartnerMeaning(x: Interval<int>, o: seq<Interval<int>>, pred: BinPred<int>)
    ensures HasPartner(x, o, pred) <==> exists j :: 0 <= j < |o| && pred(x, o[j])
  {
    if o != [] {
      HasPartnerMeaning(x, o[1..], pred);
      if exists j :: 0 <= j < |o| && pred(x, o[j]) {
        var j :| 0 <= j < |o| && pred(x, o[j]);
        if j > 0 {
          assert o[1..][j - 1] == o[j];
        }
      }
    }
  }

  /** `filter_against(other, predicate)` */
  function FilterAgainst(L: IntervalList, other: IntervalList, pred: BinPred<int>): IntervalList
  {
    Filter(L, x => HasPartner(x, other.intrvls, pred))
  }

  /** `filter_against` keeps exactly the intervals with some partner in `other` that satisfies `pred`. */
  lemma FilterAgainstMembers(L: IntervalList, other: IntervalList, pred: BinPred<int>, x: Interval<int>)
    ensures x in FilterAgainst(L, other, pred).intrvls <==>
            x in L.intrvls && exists j :: 0 <= j < |other.intrvls| && pred(x, other.intrvls[j])
  {
    FilterMembers(L, y => HasPartner(y, other.intrvls, pred), x);
    HasPartnerMeaning(x, other.intrvls, pred);
  }

  // Pairwise operations: comprehensions over every pair, receiver outermost.

  /** The cell of `overlaps(other, predicate, producer)` for one pair. */
  function OverlapCell(pred: BinPred<int>, producer: Producer<int>): (Interval<int>, Interval<int>) -> seq<Interval<int>>
  {
    (a, b) => if Overlaps(a, b) && pred(a, b) then [Overlap(a, b, producer).value] else []
  }

  /** `overlaps(other, predicate, payload_producer_fn)` */
  function ListOverlaps(L: IntervalList, other: IntervalList, pred: BinPred<int>, producer: Producer<int>): IntervalList
  {
    Make(Seqs.Cross(L.intrvls, other.intrvls, OverlapCell(pred, producer)))
  }

  /** `x` is what `overlaps` makes of the pair (a, b). */
  predicate IsOverlapOf(x: Interval<int>, a: Interval<int>, b: Interval<int>, pred: BinPred<int>, producer: Producer<int>)
  {
    Overlaps(a, b) && pred(a, b) && x == Interval(Max(a.start, b.start), Min(a.end, b.end), producer(a, b))
  }

  lemma OverlapCellMeaning(pred: BinPred<int>, producer: Producer<int>, a: Interval<int>, b: Interval<int>, x: Interval<int>)
    ensures x in OverlapCell(pred, producer)(a, b) <==> IsOverlapOf(x, a, b, pred, producer)
  {
    if Overlaps(a, b) && pred(a, b) {
      assert OverlapCell(pred, producer)(a, b) == [Overlap(a, b, producer).value];
    }
  }

  /** Every interval of `overlaps` is the intersection of a pair that overlaps and satisfies the predicate, and conversely. */
  lemma ListOverlapsMembers(L: IntervalList, other: IntervalList, pred: BinPred<int>, producer: Producer<int>, x: Interval<int>)
    ensures x in ListOverlaps(L, other, pred, producer).intrvls <==>
            exists i, j :: 0 <= i < |L.intrvls| && 0 <= j < |other.intrvls| &&
              IsOverlapOf(x, L.intrvls[i], other.intrvls[j], pred, producer)
  {
    var f := OverlapCell(pred, producer);
    var cross := Seqs.Cross(L.intrvls, other.intrvls, f);
    MakeMembers(cross, x);
    Seqs.CrossMember(L.intrvls, other.intrvls, f, x);
    if x in cross {
      var i, j :| 0 <= i < |L.intrvls| && 0 <= j < |other.intrvls| && x in f(L.intrvls[i], other.intrvls[j]);
      OverlapCellMeaning(pred, producer, L.intrvls[i], other.intrvls[j], x);
    }
    if exists i, j :: 0 <= i < |L.intrvls| && 0 <= j < |other.intrvls| && IsOverlapOf(x, L.intrvls[i], other.intrvls[j], pred, producer) {
      var i, j :| 0 <= i < |L.intrvls| && 0 <= j < |other.intrvls| && IsOverlapOf(x, L.intrvls[i], other.intrvls[j], pred, producer);
      OverlapCellMeaning(pred, producer, L.intrvls[i], other.intrvls[j], x);
    }
  }

  /** The cell of `merge(other, predicate, producer)` for one pair. */
  function MergeCell(pred: BinPred<int>, producer: Producer<int>): (Interval<int>, Interval<int>) -> seq<Interval<int>>
  {
    (a, b) => if pred(a, b) then [Merge(a, b, producer)] else []
  }

  /** `merge(other, predicate, payload_producer_fn)` */
  function ListMerge(L: IntervalList, other: IntervalList, pred: BinPred<int>, producer: Producer<int>): IntervalList
  {
    Make(Seqs.Cross(L.intrvls, other.intrvls, MergeCell(pred, producer)))
  }

  /** `x` is what `merge` makes of the pair (a, b). */
  predicate IsMergeOf(x: Interval<int>, a: Interval<int>, b: Interval<int>, pred: BinPred<int>, producer: Producer<int>)
  {
    pred(a, b) && x == Interval(Min(a.start, b.start), Max(a.end, b.end), producer(a, b))
  }

  lemma MergeCellMeaning(pred: BinPred<int>, producer: Producer<int>, a: Interval<int>, b: Interval<int>, x: Interval<int>)
    ensures x in MergeCell(pred, producer)(a, b) <==> IsMergeOf(x, a, b, pred, producer)
  {
    if pred(a, b) {
      assert MergeCell(pred, producer)(a, b) == [Merge(a, b, producer)];
    }
  }

  /** Every interval of `merge` is the hull of a pair that satisfies the predicate, and conversely. */
  lemma ListMergeMembers(L: IntervalList, other: IntervalList, pred: BinPred<int>, producer: Producer<int>, x: Interval<int>)
    ensures x in ListMerge(L, other, pred, producer).intrvls <==>
            exists i, j :: 0 <= i < |L.intrvls| && 0 <= j < |other.intrvls| &&
              IsMergeOf(x, L.intrvls[i], other.intrvls[j], pred, producer)
  {
    var f := MergeCell(pred, producer);
    var cross := Seqs.Cross(L.intrvls, other.intrvls, f);
    MakeMembers(cross, x);
    Seqs.CrossMember(L.intrvls, other.intrvls, f, x);
    if x in cross {
      var i, j :| 0 <= i < |L.intrvls| && 0 <= j < |other.intrvls| && x in f(L.intrvls[i], other.intrvls[j]);
      MergeCellMeaning(pred, producer, L.intrvls[i], other.intrvls[j], x);
    }
    if exists i, j :: 0 <= i < |L.intrvls| && 0 <= j < |other.intrvls| && IsMergeOf(x, L.intrvls[i], other.intrvls[j], pred, producer) {
      var i, j :| 0 <= i < |L.intrvls| && 0 <= j < |other.intrvls| && IsMergeOf(x, L.intrvls[i], other.intrvls[j], pred, producer);
      MergeCellMeaning(pred, producer, L.intrvls[i], other.intrvls[j], x);
    }
  }

  /** `map(map_fn)` */
  function Map(L: IntervalList, f: Interval<int> -> Interval<int>): (r: IntervalList)
    ensures r.Size() == L.Size()
    ensures multiset(r.intrvls) == multiset(Seqs.Map(L.intrvls, f))
  {
    Make(Seqs.Map(L.intrvls, f))
  }

  /** The cell of `join(other, merge_op, predicate)` for one pair. */
  function JoinCell(mergeOp: (Interval<int>, Interval<int>) -> seq<Interval<int>>, pred: BinPred<int>):
    (Interval<int>, Interval<int>) -> seq<Interval<int>>
  {
    (a, b) => if pred(a, b) then mergeOp(a, b) else []
  }

  /** `join(other, merge_op, predicate)`: every pair, no window. */
  function Join(L: IntervalList, other: IntervalList, mergeOp: (Interval<int>, Interval<int>) -> seq<Interval<int>>,
                pred: BinPred<int>): IntervalList
  {
    Make(Seqs.Cross(L.intrvls, other.intrvls, JoinCell(mergeOp, pred)))
  }

  /**
   * The join is the predicate-filtered cross product: its size is the sum of
   * the lengths of `merge_op`'s lists over the accepted pairs, and an interval
   * is in it exactly when `merge_op` yields it for an accepted pair.
   */
  lemma JoinIsFilteredCross(L: IntervalList, other: IntervalList,
                            mergeOp: (Interval<int>, Interval<int>) -> seq<Interval<int>>, pred: BinPred<int>, x: Interval<int>)
    ensures Join(L, other, mergeOp, pred).Size() ==
            Seqs.CrossSize(L.intrvls, other.intrvls, |L.intrvls|, JoinCell(mergeOp, pred))
    ensures x in Join(L, other, mergeOp, pred).intrvls <==>
            exists i, j :: 0 <= i < |L.intrvls| && 0 <= j < |other.intrvls| &&
              pred(L.intrvls[i], other.intrvls[j]) && x in mergeOp(L.intrvls[i], other.intrvls[j])
  {
    var cross := Seqs.Cross(L.intrvls, other.intrvls, JoinCell(mergeOp, pred));
    Seqs.CrossPrefixLength(L.intrvls, other.intrvls, |L.intrvls|, JoinCell(mergeOp, pred));
    Seqs.CrossMember(L.intrvls, other.intrvls, JoinCell(mergeOp, pred), x);
    assert x in Join(L, other, mergeOp, pred).intrvls <==> x in multiset(cross);
  }

  /** `fold(fold_fn, init_acc)`: `reduce` over the sorted intervals. */
  function Fold<A>(L: IntervalList, f: (A, Interval<int>) -> A, init: A): A
  {
    Seqs.FoldLeft(L.intrvls, f, init)
  }

  /** `fold_list(fold_fn, init_acc)`: the fold's list, sorted again. */
  function FoldList(L: IntervalList, f: (seq<Interval<int>>, Interval<int>) -> seq<Interval<int>>,
                    init: seq<Interval<int>>): IntervalList
  {
    Make(Fold(L, f, init))
  }

  /** Folding with "add the length" computes the total time. */
  lemma {:induction false} FoldComputesTotalTime(s: seq<Interval<int>>)
    ensures Fold(IntervalList(s), (acc: real, x: Interval<int>) => acc + x.Length(), 0.0) == TotalTime(s)
  {
    if s != [] {
      FoldComputesTotalTime(s[..|s| - 1]);
    }
  }

  /** Folding with "append" rebuilds the list, so `fold_list` of it is the list again. */
  lemma {:induction false} FoldListRebuilds(L: IntervalList)
    requires L.Valid()
    ensures FoldList(L, (acc: seq<Interval<int>>, x: Interval<int>) => acc + [x], []) == L
  {
    FoldAppendRebuilds(L.intrvls);
    MakeSorted(L.intrvls);
  }

  lemma {:induction false} FoldAppendRebuilds(s: seq<Interval<int>>)
    ensures Seqs.FoldLeft(s, (acc: seq<Interval<int>>, x: Interval<int>) => acc + [x], []) == s
  {
    var append := (acc: seq<Interval<int>>, x: Interval<int>) => acc + [x];
    if s != [] {
      var n := |s| - 1;
      FoldAppendRebuilds(s[..n]);
      assert Seqs.FoldLeft(s, append, []) == append(Seqs.FoldLeft(s[..n], append, []), s[n]);
      assert s[..n] + [s[n]] == s;
    }
  }
}
