// `IntervalList.minus` of `rekall/interval_list.py`, both ways it can run:
// pair by pair (`recursive_diff=False`), where every overlapping pair
// contributes its own difference, and cutting each interval against all of
// its partners at once (`recursive_diff=True`).

module IntervalListMinus {
  import opened Common
  import opened Temporal
  import opened IntervalListModel
  import Seqs

  /** The pairs `minus` works on: they overlap and satisfy the predicate. */
  predicate IsPartner(pred: BinPred<int>, a: Interval<int>, b: Interval<int>)
  {
    Overlaps(a, b) && pred(a, b)
  }

  // -------------------------------------------------------------------
  // recursive_diff=False

  /** Some interval of `o[..n]` is a partner of `a`. */
  function PartnerUpTo(a: Interval<int>, o: seq<Interval<int>>, n: nat, pred: BinPred<int>): bool
    requires n <= |o|
  {
    n > 0 && (PartnerUpTo(a, o, n - 1, pred) || IsPartner(pred, a, o[n - 1]))
  }

  lemma {:induction false} PartnerUpToMeaning(a: Interval<int>, o: seq<Interval<int>>, n: nat, pred: BinPred<int>)
    requires n <= |o|
    ensures PartnerUpTo(a, o, n, pred) <==> exists k :: 0 <= k < n && IsPartner(pred, a, o[k])
  {
    if n > 0 {
      PartnerUpToMeaning(a, o, n - 1, pred);
    }
  }

  /** What one pair contributes: the difference of a partner pair (the default producer keeps `a`'s payload). */
  function EachCell(pred: BinPred<int>): (Interval<int>, Interval<int>) -> seq<Interval<int>>
  {
    (a: Interval<int>, b: Interval<int>) => if IsPartner(pred, a, b) then Minus(a, b, FirstPayload) else []
  }

  /** What one interval of the receiver contributes: the differences with its partners, or itself when it has none. */
  function EachRow(a: Interval<int>, o: seq<Interval<int>>, pred: BinPred<int>): seq<Interval<int>>
  {
    if PartnerUpTo(a, o, |o|, pred) then Seqs.Row(a, o, EachCell(pred)) else [a]
  }

  /** The output list after the receiver's first `m` intervals. */
  function EachRows(s: seq<Interval<int>>, o: seq<Interval<int>>, m: nat, pred: BinPred<int>): seq<Interval<int>>
    requires m <= |s|
  {
    if m == 0 then [] else EachRows(s, o, m - 1, pred) + EachRow(s[m - 1], o, pred)
  }

  /** A partner pair on which `Interval.minus` reaches its `assert False`. */
  predicate FailsOn(pred: BinPred<int>, a: Interval<int>, b: Interval<int>)
  {
    IsPartner(pred, a, b) && MinusAsWritten(a, b, FirstPayload).Err?
  }

  function RowFailsUpTo(a: Interval<int>, o: seq<Interval<int>>, n: nat, pred: BinPred<int>): bool
    requires n <= |o|
  {
    n > 0 && (RowFailsUpTo(a, o, n - 1, pred) || FailsOn(pred, a, o[n - 1]))
  }

  function FailsUpTo(s: seq<Interval<int>>, o: seq<Interval<int>>, m: nat, pred: BinPred<int>): bool
    requires m <= |s|
  {
    m > 0 && (FailsUpTo(s, o, m - 1, pred) || RowFailsUpTo(s[m - 1], o, |o|, pred))
  }

  lemma {:induction false} RowFailsUpToMeaning(a: Interval<int>, o: seq<Interval<int>>, n: nat, pred: BinPred<int>)
    requires n <= |o|
    ensures RowFailsUpTo(a, o, n, pred) <==> exists k :: 0 <= k < n && FailsOn(pred, a, o[k])
  {
    if n > 0 {
      RowFailsUpToMeaning(a, o, n - 1, pred);
    }
  }

  lemma {:induction false} FailsUpToMeaning(s: seq<Interval<int>>, o: seq<Interval<int>>, m: nat, pred: BinPred<int>)
    requires m <= |s|
    ensures FailsUpTo(s, o, m, pred) <==> exists i, k :: 0 <= i < m && 0 <= k < |o| && FailsOn(pred, s[i], o[k])
  {
    if m > 0 {
      FailsUpToMeaning(s, o, m - 1, pred);
      RowFailsUpToMeaning(s[m - 1], o, |o|, pred);
    }
  }

  /** A row without partners adds nothing through its cells. */
  lemma {:induction false} LonelyRowIsEmpty(a: Interval<int>, o: seq<Interval<int>>, n: nat, pred: BinPred<int>)
    requires n <= |o| && !PartnerUpTo(a, o, n, pred)
    ensures Seqs.RowPrefix(a, o, n, EachCell(pred)) == []
  {
    if n > 0 {
      LonelyRowIsEmpty(a, o, n - 1, pred);
    }
  }

  /** A failure found in row `i` is a failure of the whole receiver. */
  lemma {:induction false} FailureSpreads(s: seq<Interval<int>>, o: seq<Interval<int>>, i: nat, m: nat, pred: BinPred<int>)
    requires i < m <= |s| && RowFailsUpTo(s[i], o, |o|, pred)
    ensures FailsUpTo(s, o, m, pred)
    decreases m
  {
    if i < m - 1 {
      FailureSpreads(s, o, i, m - 1, pred);
    }
  }

  lemma {:induction false} RowFailureSpreads(a: Interval<int>, o: seq<Interval<int>>, j: nat, n: nat, pred: BinPred<int>)
    requires j < n <= |o| && FailsOn(pred, a, o[j])
    ensures RowFailsUpTo(a, o, n, pred)
    decreases n
  {
    if j < n - 1 {
      RowFailureSpreads(a, o, j, n - 1, pred);
    }
  }

  /** The inner loop of `minus(recursive_diff=False)` for one interval `a` of the receiver. */
  method MinusRow(a: Interval<int>, o: seq<Interval<int>>, pred: BinPred<int>) returns (r: Result<seq<Interval<int>>>)
    ensures r.Err? <==> RowFailsUpTo(a, o, |o|, pred)
    ensures r.Err? ==> r.error == AssertionFailed
    ensures r.Ok? ==> r.value == EachRow(a, o, pred)
  {
    var output: seq<Interval<int>> := [];
    var foundOverlap := false;
    for j := 0 to |o|
      invariant output == Seqs.RowPrefix(a, o, j, EachCell(pred))
      invariant foundOverlap == PartnerUpTo(a, o, j, pred)
      invariant !RowFailsUpTo(a, o, j, pred)
    {
      var intrvl2 := o[j];
      assert Seqs.RowPrefix(a, o, j + 1, EachCell(pred)) == output + EachCell(pred)(a, intrvl2);
      if Overlaps(a, intrvl2) && pred(a, intrvl2) {
        foundOverlap := true;
        var candidates := MinusAsWritten(a, intrvl2, FirstPayload);
        if candidates.Err? {
          MinusAsWrittenCases(a, intrvl2, FirstPayload);
          RowFailureSpreads(a, o, j, |o|, pred);
          return Err(candidates.error);
        }
        MinusAgreesWhereDefined(a, intrvl2, FirstPayload);
        if |candidates.value| > 0 {
          output := output + candidates.value;
        }
      }
    }
    if !foundOverlap {
      LonelyRowIsEmpty(a, o, |o|, pred);
      output := output + [a];
    }
    r := Ok(output);
  }

  /**
   * `minus(other, recursive_diff=False, predicate)`: every partner pair adds
   * `intrvl1.minus(intrvl2)` (with the default producer, whatever
   * `payload_producer_fn` says), an interval without partners is copied, and
   * the first pair on which `Interval.minus` fails aborts the whole call.
   */
  method MinusEach(L: IntervalList, other: IntervalList, pred: BinPred<int>) returns (r: Result<IntervalList>)
    ensures r.Err? <==> FailsUpTo(L.intrvls, other.intrvls, |L.intrvls|, pred)
    ensures r.Err? ==> r.error == AssertionFailed
    ensures r.Ok? ==> r.value == Make(EachRows(L.intrvls, other.intrvls, |L.intrvls|, pred))
  {
    var s, o := L.intrvls, other.intrvls;
    var output: seq<Interval<int>> := [];
    for i := 0 to |s|
      invariant output == EachRows(s, o, i, pred)
      invariant !FailsUpTo(s, o, i, pred)
    {
      var row := MinusRow(s[i], o, pred);
      if row.Err? {
        FailureSpreads(s, o, i, |s|, pred);
        return Err(row.error);
      }
      output := output + row.value;
    }
    r := Ok(Make(output));
  }

  /** The pair-by-pair difference fails exactly when some partner pair shares exactly one endpoint. */
  lemma MinusEachFails(s: seq<Interval<int>>, o: seq<Interval<int>>, pred: BinPred<int>)
    ensures FailsUpTo(s, o, |s|, pred) <==>
            exists i, k :: 0 <= i < |s| && 0 <= k < |o| && IsPartner(pred, s[i], o[k]) &&
              (Starts(0.0, s[i], o[k]) || StartsInv(0.0, s[i], o[k]) ||
               Finishes(0.0, s[i], o[k]) || FinishesInv(0.0, s[i], o[k]))
  {
    FailsUpToMeaning(s, o, |s|, pred);
    forall i, k | 0 <= i < |s| && 0 <= k < |o|
      ensures FailsOn(pred, s[i], o[k]) <==>
              IsPartner(pred, s[i], o[k]) &&
              (Starts(0.0, s[i], o[k]) || StartsInv(0.0, s[i], o[k]) ||
               Finishes(0.0, s[i], o[k]) || FinishesInv(0.0, s[i], o[k]))
    {
      MinusAsWrittenCases(s[i], o[k], FirstPayload);
    }
  }

  /** `x` is what the pair-by-pair difference makes of the receiver's interval `a`. */
  predicate FromRow(x: Interval<int>, a: Interval<int>, o: seq<Interval<int>>, pred: BinPred<int>)
  {
    (!PartnerUpTo(a, o, |o|, pred) && x == a) ||
    (exists k :: 0 <= k < |o| && IsPartner(pred, a, o[k]) && x in Minus(a, o[k], FirstPayload))
  }

  lemma RowMembers(a: Interval<int>, o: seq<Interval<int>>, pred: BinPred<int>, x: Interval<int>)
    ensures x in EachRow(a, o, pred) <==> FromRow(x, a, o, pred)
  {
    Seqs.RowPrefixMember(a, o, |o|, EachCell(pred), x);
    PartnerUpToMeaning(a, o, |o|, pred);
  }

  /**
   * The intervals of the pair-by-pair difference are exactly the receiver's
   * intervals without partners and the pieces of `Interval.minus` of every
   * partner pair.
   */
  lemma {:induction false} MinusEachMembers(s: seq<Interval<int>>, o: seq<Interval<int>>, m: nat, pred: BinPred<int>, x: Interval<int>)
    requires m <= |s|
    ensures x in EachRows(s, o, m, pred) <==> exists i :: 0 <= i < m && FromRow(x, s[i], o, pred)
  {
    if m > 0 {
      MinusEachMembers(s, o, m - 1, pred, x);
      RowMembers(s[m - 1], o, pred, x);
      assert x in EachRows(s, o, m, pred) <==> x in EachRows(s, o, m - 1, pred) || x in EachRow(s[m - 1], o, pred);
    }
  }

  // -------------------------------------------------------------------
  // recursive_diff=True

  /**
   * Object identity between the receiver and `other`: `same(i, j)` when the
   * receiver's interval `i` is the very object at position `j` of `other`
   * (Python's `==` on intervals is `is`).
   */
  type SameObject = (nat, nat) -> bool

  /**
   * The partners of the receiver's interval `a` (position `i`) collected from
   * `o[j..]`: the same object is skipped and the scan stops at the first
   * interval that `before()` puts after `a`.
   */
  function ScanFrom(a: Interval<int>, i: nat, o: seq<Interval<int>>, j: nat, pred: BinPred<int>, same: SameObject): seq<Interval<int>>
    requires j <= |o|
    decreases |o| - j
  {
    if j == |o| then []
    else if same(i, j) then ScanFrom(a, i, o, j + 1, pred, same)
    else if DefaultBefore(a, o[j]) then []
    else (if IsPartner(pred, a, o[j]) then [o[j]] else []) + ScanFrom(a, i, o, j + 1, pred, same)
  }

  /** The first loop of a row: collecting `overlapping`. */
  method CollectOverlapping(a: Interval<int>, i: nat, o: seq<Interval<int>>, pred: BinPred<int>, same: SameObject)
    returns (overlapping: seq<Interval<int>>)
    ensures overlapping == ScanFrom(a, i, o, 0, pred, same)
  {
    overlapping := [];
    var j := 0;
    while j < |o|
      invariant j <= |o|
      invariant overlapping + ScanFrom(a, i, o, j, pred, same) == ScanFrom(a, i, o, 0, pred, same)
    {
      var intrvl2 := o[j];
      if !same(i, j) {
        if DefaultBefore(a, intrvl2) {
          return;
        }
        if Overlaps(a, intrvl2) && pred(a, intrvl2) {
          overlapping := overlapping + [intrvl2];
        }
      }
      j := j + 1;
    }
  }

  /** The cut points a partner adds: its start when inside `a`, its end when inside `a`. */
  function Cuts(a: Interval<int>, b: Interval<int>): set<real>
  {
    (if b.start > a.start then {b.start} else {}) + (if b.end < a.end then {b.end} else {})
  }

  /** `endpoints_set` after the first `|ov|` partners. */
  function EndpointSet(a: Interval<int>, ov: seq<Interval<int>>): set<real>
  {
    if ov == [] then {a.start, a.end} else EndpointSet(a, ov[..|ov| - 1]) + Cuts(a, ov[|ov| - 1])
  }

  predicate StrictlyIncreasing(r: seq<real>)
  {
    forall j, k :: 0 <= j < k < |r| ==> r[j] < r[k]
  }

  /** Putting a smaller element in front keeps an enumeration sorted. */
  lemma Cons(h: real, r: seq<real>)
    requires StrictlyIncreasing(r) && forall k :: 0 <= k < |r| ==> h < r[k]
    ensures StrictlyIncreasing([h] + r)
    ensures forall y :: y in [h] + r <==> y == h || y in r
  {
    var q := [h] + r;
    forall j, k | 0 <= j < k < |q| ensures q[j] < q[k] {
      assert q[k] == r[k - 1];
      if j > 0 {
        assert q[j] == r[j - 1];
      }
    }
  }

  /** Adds `x` to a set of reals kept as its sorted enumeration. */
  function InsertPoint(r: seq<real>, x: real): (q: seq<real>)
    requires StrictlyIncreasing(r)
    ensures StrictlyIncreasing(q)
    ensures forall y :: y in q <==> y in r || y == x
  {
    if r == [] then [x]
    else if x < r[0] then
      Cons(x, r);
      [x] + r
    else if x == r[0] then r
    else
      var rest := InsertPoint(r[1..], x);
      SortedHead(r);
      assert forall k :: 0 <= k < |rest| ==> r[0] < rest[k] by {
        forall k | 0 <= k < |rest| ensures r[0] < rest[k] {
          assert rest[k] in rest;
        }
      }
      Cons(r[0], rest);
      [r[0]] + rest
  }

  lemma SameMembersBothEmpty(p: seq<real>, q: seq<real>)
    requires forall y :: y in p <==> y in q
    ensures p == [] <==> q == []
  {
    if p != [] {
      var y := p[0];
      assert y in p;
      assert y in q;
    }
    if q != [] {
      var y := q[0];
      assert y in q;
      assert y in p;
    }
  }

  /** The head of a sorted enumeration is its least element and the tail holds the rest. */
  lemma SortedHead(p: seq<real>)
    requires StrictlyIncreasing(p) && p != []
    ensures forall y :: y in p ==> p[0] <= y
    ensures forall y :: y in p[1..] <==> y in p && y != p[0]
  {
    forall y | y in p ensures p[0] <= y {
      var j :| 0 <= j < |p| && p[j] == y;
    }
    forall y ensures y in p[1..] <==> y in p && y != p[0] {
      if y in p[1..] {
        var j :| 0 <= j < |p[1..]| && p[1..][j] == y;
        assert p[j + 1] == y;
      }
      if y in p && y != p[0] {
        var j :| 0 <= j < |p| && p[j] == y;
        assert p[1..][j - 1] == y;
      }
    }
  }

  /** Two sorted enumerations of the same set are the same sequence. */
  lemma {:induction false} SortedEnumerationUnique(p: seq<real>, q: seq<real>)
    requires StrictlyIncreasing(p) && StrictlyIncreasing(q)
    requires forall y :: y in p <==> y in q
    ensures p == q
  {
    SameMembersBothEmpty(p, q);
    if p != [] {
      SortedHead(p);
      SortedHead(q);
      assert p[0] in q && q[0] in p;
      assert p[0] == q[0];
      SortedEnumerationUnique(p[1..], q[1..]);
      assert p == [p[0]] + p[1..] && q == [q[0]] + q[1..];
    }
  }

  /** The cut points `b` adds to the sorted enumeration `r`. */
  function AddCuts(r: seq<real>, a: Interval<int>, b: Interval<int>): (q: seq<real>)
    requires StrictlyIncreasing(r)
    ensures StrictlyIncreasing(q)
  {
    var r1 := if b.start > a.start then InsertPoint(r, b.start) else r;
    if b.end < a.end then InsertPoint(r1, b.end) else r1
  }

  /**
   * `sorted(list(endpoints_set))` after the first `|ov|` partners: the set is
   * kept as its sorted enumeration.
   */
  function EndpointList(a: Interval<int>, ov: seq<Interval<int>>): (r: seq<real>)
    ensures StrictlyIncreasing(r)
  {
    if ov == [] then InsertPoint([a.start], a.end)
    else AddCuts(EndpointList(a, ov[..|ov| - 1]), a, ov[|ov| - 1])
  }

  /** `EndpointList` enumerates exactly `endpoints_set`, so it is `sorted(list(endpoints_set))`. */
  lemma {:induction false} EndpointListEnumerates(a: Interval<int>, ov: seq<Interval<int>>)
    ensures forall y :: y in EndpointList(a, ov) <==> y in EndpointSet(a, ov)
  {
    if ov != [] {
      EndpointListEnumerates(a, ov[..|ov| - 1]);
    }
  }

  /** The second loop of a row: the sorted cut points of `a`. */
  method Endpoints(a: Interval<int>, overlapping: seq<Interval<int>>) returns (endpointsList: seq<real>)
    ensures endpointsList == EndpointList(a, overlapping)
  {
    endpointsList := InsertPoint([a.start], a.end);
    for k := 0 to |overlapping|
      invariant endpointsList == EndpointList(a, overlapping[..k])
    {
      var intrvl := overlapping[k];
      assert overlapping[..k + 1][..k] == overlapping[..k];
      if intrvl.start > a.start {
        endpointsList := InsertPoint(endpointsList, intrvl.start);
      }
      if intrvl.end < a.end {
        endpointsList := InsertPoint(endpointsList, intrvl.end);
      }
    }
    assert overlapping[..|overlapping|] == overlapping;
  }

  /**
   * The scan that accepts `start`: no partner (sorted by start, the scan stops
   * at the first one starting after `start`) starts before and ends after it.
   */
  function StartClear(start: real, ov: seq<Interval<int>>, k: nat): bool
    requires k <= |ov|
    decreases |ov| - k
  {
    if k == |ov| then true
    else if ov[k].start > start then true
    else if ov[k].start < start && ov[k].end > start then false
    else StartClear(start, ov, k + 1)
  }

  /** The scan that accepts `end`: no partner up to the first one starting after `end` overlaps `(start, end)`. */
  function EndClear(start: real, end: real, ov: seq<Interval<int>>, k: nat): bool
    requires k <= |ov|
    decreases |ov| - k
  {
    if k == |ov| then true
    else if ov[k].start > end then true
    else if Overlaps(ov[k], Interval(start, end, 0)) then false
    else EndClear(start, end, ov, k + 1)
  }

  method StartValid(start: real, overlapping: seq<Interval<int>>) returns (valid: bool)
    ensures valid == StartClear(start, overlapping, 0)
  {
    for k := 0 to |overlapping|
      invariant StartClear(start, overlapping, k) == StartClear(start, overlapping, 0)
    {
      var intrvl := overlapping[k];
      if intrvl.start > start {
        return true;
      }
      if intrvl.start < start && intrvl.end > start {
        return false;
      }
    }
    return true;
  }

  method EndValid(start: real, end: real, overlapping: seq<Interval<int>>) returns (valid: bool)
    ensures valid == EndClear(start, end, overlapping, 0)
  {
    for k := 0 to |overlapping|
      invariant EndClear(start, end, overlapping, k) == EndClear(start, end, overlapping, 0)
    {
      var intrvl := overlapping[k];
      if intrvl.start > end {
        return true;
      }
      if Overlaps(intrvl, Interval(start, end, 0)) {
        return false;
      }
    }
    return true;
  }

  /** The runs `(eps[i], eps[j])` the descending `j` loop has emitted once it has gone down to `lo`. */
  function ValidRuns(eps: seq<real>, ov: seq<Interval<int>>, i: nat, lo: nat): seq<(real, real)>
    requires i < lo <= |eps|
    decreases |eps| - lo
  {
    if lo == |eps| then []
    else ValidRuns(eps, ov, i, lo + 1) + (if EndClear(eps[i], eps[lo], ov, 0) then [(eps[i], eps[lo])] else [])
  }

  /** `last_j` once the descending `j` loop has gone down to `lo`: the least accepted `j`, if any. */
  function LastValid(eps: seq<real>, ov: seq<Interval<int>>, i: nat, lo: nat, lastJ: int): int
    requires i < lo <= |eps|
    decreases |eps| - lo
  {
    if lo == |eps| then lastJ
    else if EndClear(eps[i], eps[lo], ov, 0) then lo
    else LastValid(eps, ov, i, lo + 1, lastJ)
  }

  /** `longest_subsequences` contributed by positions `i..` of `eps`. */
  function RunsFrom(eps: seq<real>, ov: seq<Interval<int>>, i: nat, lastJ: int): seq<(real, real)>
    requires i <= |eps|
    decreases |eps| - i
  {
    if i == |eps| then []
    else if i <= lastJ || !StartClear(eps[i], ov, 0) then RunsFrom(eps, ov, i + 1, lastJ)
    else ValidRuns(eps, ov, i, i + 1) + RunsFrom(eps, ov, i + 1, LastValid(eps, ov, i, i + 1, lastJ))
  }

  /** The descending `j` loop for one accepted start position `i`. */
  method ExtendRun(eps: seq<real>, overlapping: seq<Interval<int>>, i: nat, lastJ: int)
    returns (found: seq<(real, real)>, newLastJ: int)
    requires i < |eps|
    ensures found == ValidRuns(eps, overlapping, i, i + 1)
    ensures newLastJ == LastValid(eps, overlapping, i, i + 1, lastJ)
  {
    found := [];
    newLastJ := lastJ;
    for j := |eps| downto i + 1
      invariant found == ValidRuns(eps, overlapping, i, j)
      invariant newLastJ == LastValid(eps, overlapping, i, j, lastJ)
    {
      var valid := EndValid(eps[i], eps[j], overlapping);
      if valid {
        found := found + [(eps[i], eps[j])];
        newLastJ := j;
      }
    }
  }

  /** The third loop of a row: `longest_subsequences`. */
  method LongestRuns(eps: seq<real>, overlapping: seq<Interval<int>>) returns (runs: seq<(real, real)>)
    ensures runs == RunsFrom(eps, overlapping, 0, -1)
  {
    runs := [];
    var lastJ := -1;
    for i := 0 to |eps|
      invariant runs + RunsFrom(eps, overlapping, i, lastJ) == RunsFrom(eps, overlapping, 0, -1)
    {
      if i > lastJ {
        var valid := StartValid(eps[i], overlapping);
        if valid {
          var found;
          found, lastJ := ExtendRun(eps, overlapping, i, lastJ);
          runs := runs + found;
        }
      }
    }
  }

  /** The first partner touching the run `(start, end)` at one of its ends. */
  function FirstTouching(ov: seq<Interval<int>>, start: real, end: real, k: nat): Option<Interval<int>>
    requires k <= |ov|
    decreases |ov| - k
  {
    if k == |ov| then None
    else if ov[k].end == start || ov[k].start == end then Some(ov[k])
    else FirstTouching(ov, start, end, k + 1)
  }

  /** The intervals the last loop makes of the first `n` runs. */
  function Labelled(a: Interval<int>, runs: seq<(real, real)>, n: nat, ov: seq<Interval<int>>, producer: Producer<int>): seq<Interval<int>>
    requires n <= |runs|
  {
    if n == 0 then []
    else
      var (start, end) := runs[n - 1];
      Labelled(a, runs, n - 1, ov, producer) +
      match FirstTouching(ov, start, end, 0)
      case None => []
      case Some(b) => [Interval(start, end, producer(a, b))]
  }

  /** The last loop of a row: labelling every run by its first touching partner. */
  method LabelRuns(a: Interval<int>, runs: seq<(real, real)>, overlapping: seq<Interval<int>>, producer: Producer<int>)
    returns (pieces: seq<Interval<int>>)
    ensures pieces == Labelled(a, runs, |runs|, overlapping, producer)
  {
    pieces := [];
    for n := 0 to |runs|
      invariant pieces == Labelled(a, runs, n, overlapping, producer)
    {
      var (start, end) := runs[n];
      var k := 0;
      while k < |overlapping| && !(overlapping[k].end == start || overlapping[k].start == end)
        invariant k <= |overlapping|
        invariant FirstTouching(overlapping, start, end, k) == FirstTouching(overlapping, start, end, 0)
      {
        k := k + 1;
      }
      if k < |overlapping| {
        pieces := pieces + [Interval(start, end, producer(a, overlapping[k]))];
      }
    }
  }

  /** What `minus(recursive_diff=True)` makes of the receiver's interval `a` at position `i`. */
  function CutRow(a: Interval<int>, i: nat, o: seq<Interval<int>>, pred: BinPred<int>, producer: Producer<int>, same: SameObject): seq<Interval<int>>
  {
    CutAgainst(a, ScanFrom(a, i, o, 0, pred, same), producer)
  }

  /** `a` cut against its partners `ov`: a copy of `a` when there are none, then the labelled runs. */
  function CutAgainst(a: Interval<int>, ov: seq<Interval<int>>, producer: Producer<int>): seq<Interval<int>>
  {
    var runs := RunsFrom(EndpointList(a, ov), ov, 0, -1);
    (if ov == [] then [a] else []) + Labelled(a, runs, |runs|, ov, producer)
  }

  function CutRows(s: seq<Interval<int>>, o: seq<Interval<int>>, m: nat, pred: BinPred<int>, producer: Producer<int>, same: SameObject): seq<Interval<int>>
    requires m <= |s|
  {
    if m == 0 then [] else CutRows(s, o, m - 1, pred, producer, same) + CutRow(s[m - 1], m - 1, o, pred, producer, same)
  }

  /** The body of the outer loop of `minus(recursive_diff=True)` for the receiver's interval `intrvl1` at position `i`. */
  method MinusCutRow(intrvl1: Interval<int>, i: nat, o: seq<Interval<int>>, pred: BinPred<int>, producer: Producer<int>, same: SameObject)
    returns (output: seq<Interval<int>>)
    ensures output == CutRow(intrvl1, i, o, pred, producer, same)
  {
    output := [];
    var overlapping := CollectOverlapping(intrvl1, i, o, pred, same);
    if |overlapping| == 0 {
      output := output + [intrvl1];
    }
    var endpointsList := Endpoints(intrvl1, overlapping);
    var longest := LongestRuns(endpointsList, overlapping);
    var pieces := LabelRuns(intrvl1, longest, overlapping, producer);
    output := output + pieces;
  }

  /**
   * `minus(other, recursive_diff=True, predicate, payload_producer_fn)`: each
   * interval is cut against all of its partners at once.
   */
  method MinusCut(L: IntervalList, other: IntervalList, pred: BinPred<int>, producer: Producer<int>, same: SameObject)
    returns (r: IntervalList)
    ensures r == Make(CutRows(L.intrvls, other.intrvls, |L.intrvls|, pred, producer, same))
  {
    var s, o := L.intrvls, other.intrvls;
    var output: seq<Interval<int>> := [];
    for i := 0 to |s|
      invariant output == CutRows(s, o, i, pred, producer, same)
    {
      var row := MinusCutRow(s[i], i, o, pred, producer, same);
      output := output + row;
    }
    r := Make(output);
  }

  // Properties of the recursive difference

  /** Starts in ascending order, as in every `IntervalList`. */
  predicate Ascending(s: seq<Interval<int>>)
  {
    forall j, k :: 0 <= j < k < |s| ==> s[j].start <= s[k].start
  }

  lemma ValidIsAscending(L: IntervalList)
    requires L.Valid()
    ensures Ascending(L.intrvls)
  {
    forall j, k | 0 <= j < k < |L.intrvls| ensures L.intrvls[j].start <= L.intrvls[k].start {
      LexSort.SortedFirstComponent(L.intrvls, SortKey, j, k);
    }
  }

  /** A partner of `a` that starts before `a` ends and is not `a` itself. */
  predicate Collectable(a: Interval<int>, i: nat, o: seq<Interval<int>>, k: nat, pred: BinPred<int>, same: SameObject)
    requires k < |o|
  {
    !same(i, k) && IsPartner(pred, a, o[k]) && o[k].start < a.end
  }

  lemma {:induction false} ScanFromSound(a: Interval<int>, i: nat, o: seq<Interval<int>>, j: nat, pred: BinPred<int>, same: SameObject, x: Interval<int>)
    requires j <= |o|
    requires x in ScanFrom(a, i, o, j, pred, same)
    ensures exists k :: j <= k < |o| && o[k] == x && Collectable(a, i, o, k, pred, same)
    decreases |o| - j
  {
    if x in ScanFrom(a, i, o, j + 1, pred, same) {
      ScanFromSound(a, i, o, j + 1, pred, same, x);
    } else {
      assert o[j] == x && Collectable(a, i, o, j, pred, same);
    }
  }

  lemma {:induction false} ScanFromComplete(a: Interval<int>, i: nat, o: seq<Interval<int>>, j: nat, pred: BinPred<int>, same: SameObject, k: nat)
    requires Ascending(o)
    requires j <= k < |o| && Collectable(a, i, o, k, pred, same)
    ensures o[k] in ScanFrom(a, i, o, j, pred, same)
    decreases |o| - j
  {
    if k != j {
      assert o[j].start <= o[k].start;
      ScanFromComplete(a, i, o, j + 1, pred, same, k);
    }
  }

  /**
   * `overlapping` holds exactly the partners of `a` in `other` that start
   * before `a` ends, other than `a` itself: stopping at the first interval
   * `before()` puts after `a` loses none of them on a sorted `other`.
   */
  lemma OverlappingIsPartners(a: Interval<int>, i: nat, o: seq<Interval<int>>, pred: BinPred<int>, same: SameObject, x: Interval<int>)
    requires Ascending(o)
    ensures x in ScanFrom(a, i, o, 0, pred, same) <==>
            exists k :: 0 <= k < |o| && o[k] == x && Collectable(a, i, o, k, pred, same)
  {
    if x in ScanFrom(a, i, o, 0, pred, same) {
      ScanFromSound(a, i, o, 0, pred, same, x);
    }
    if exists k :: 0 <= k < |o| && o[k] == x && Collectable(a, i, o, k, pred, same) {
      var k :| 0 <= k < |o| && o[k] == x && Collectable(a, i, o, k, pred, same);
      ScanFromComplete(a, i, o, 0, pred, same, k);
    }
  }

  lemma {:induction false} ScanFromAscending(a: Interval<int>, i: nat, o: seq<Interval<int>>, j: nat, pred: BinPred<int>, same: SameObject)
    requires Ascending(o) && j <= |o|
    ensures Ascending(ScanFrom(a, i, o, j, pred, same))
    decreases |o| - j
  {
    if j < |o| {
      ScanFromAscending(a, i, o, j + 1, pred, same);
      var rest := ScanFrom(a, i, o, j + 1, pred, same);
      forall k | 0 <= k < |rest| ensures o[j].start <= rest[k].start {
        ScanFromSound(a, i, o, j + 1, pred, same, rest[k]);
      }
    }
  }

  /** Every interval of `o` starts no later than `o` ends... as `Interval` objects are built. */
  predicate AllWellFormed(o: seq<Interval<int>>)
  {
    forall k :: 0 <= k < |o| ==> o[k].start <= o[k].end
  }

  /** The cut points of well-formed partners lie within `a`. */
  lemma {:induction false} EndpointsWithin(a: Interval<int>, ov: seq<Interval<int>>)
    requires a.start <= a.end && AllWellFormed(ov)
    requires forall k :: 0 <= k < |ov| ==> Overlaps(a, ov[k])
    ensures forall y :: y in EndpointSet(a, ov) ==> a.start <= y <= a.end
  {
    if ov != [] {
      EndpointsWithin(a, ov[..|ov| - 1]);
    }
  }

  /** Accepting `end` means no partner overlaps the run, on partners sorted by start. */
  lemma {:induction false} EndClearMeaning(start: real, end: real, ov: seq<Interval<int>>, k: nat)
    requires k <= |ov| && start <= end && Ascending(ov) && AllWellFormed(ov)
    requires EndClear(start, end, ov, k)
    ensures forall m :: k <= m < |ov| ==> !Overlaps(ov[m], Interval(start, end, 0))
    decreases |ov| - k
  {
    if k < |ov| && ov[k].start <= end {
      EndClearMeaning(start, end, ov, k + 1);
    }
  }

  /** A run: two cut points, the first below the second, accepted by the `end` scan. */
  predicate IsRun(eps: seq<real>, ov: seq<Interval<int>>, run: (real, real))
  {
    run.0 in eps && run.1 in eps && run.0 < run.1 && EndClear(run.0, run.1, ov, 0)
  }

  lemma {:induction false} ValidRunsAreRuns(eps: seq<real>, ov: seq<Interval<int>>, i: nat, lo: nat)
    requires i < lo <= |eps| && StrictlyIncreasing(eps)
    ensures forall run :: run in ValidRuns(eps, ov, i, lo) ==> IsRun(eps, ov, run)
    decreases |eps| - lo
  {
    if lo < |eps| {
      ValidRunsAreRuns(eps, ov, i, lo + 1);
    }
  }

  lemma {:induction false} RunsFromAreRuns(eps: seq<real>, ov: seq<Interval<int>>, i: nat, lastJ: int)
    requires i <= |eps| && StrictlyIncreasing(eps)
    ensures forall run :: run in RunsFrom(eps, ov, i, lastJ) ==> IsRun(eps, ov, run)
    decreases |eps| - i
  {
    if i < |eps| {
      if i <= lastJ || !StartClear(eps[i], ov, 0) {
        RunsFromAreRuns(eps, ov, i + 1, lastJ);
      } else {
        ValidRunsAreRuns(eps, ov, i, i + 1);
        RunsFromAreRuns(eps, ov, i + 1, LastValid(eps, ov, i, i + 1, lastJ));
      }
    }
  }

  lemma {:induction false} FirstTouchingTouches(ov: seq<Interval<int>>, start: real, end: real, k: nat)
    requires k <= |ov|
    ensures FirstTouching(ov, start, end, k).Some? ==>
            var b := FirstTouching(ov, start, end, k).value;
            b in ov && (b.end == start || b.start == end)
    decreases |ov| - k
  {
    if k < |ov| {
      FirstTouchingTouches(ov, start, end, k + 1);
    }
  }

  /** `x` is the run `run` labelled by a partner touching one of its ends. */
  predicate LabelledRun(a: Interval<int>, ov: seq<Interval<int>>, producer: Producer<int>, run: (real, real), x: Interval<int>)
  {
    x.start == run.0 && x.end == run.1 &&
    exists b :: b in ov && (b.end == run.0 || b.start == run.1) && x.payload == producer(a, b)
  }

  lemma {:induction false} LabelledFromRuns(a: Interval<int>, runs: seq<(real, real)>, n: nat, ov: seq<Interval<int>>, producer: Producer<int>, x: Interval<int>)
    requires n <= |runs|
    requires x in Labelled(a, runs, n, ov, producer)
    ensures exists m :: 0 <= m < n && LabelledRun(a, ov, producer, runs[m], x)
  {
    var (start, end) := runs[n - 1];
    if x in Labelled(a, runs, n - 1, ov, producer) {
      LabelledFromRuns(a, runs, n - 1, ov, producer, x);
    } else {
      FirstTouchingTouches(ov, start, end, 0);
      assert LabelledRun(a, ov, producer, runs[n - 1], x);
    }
  }

  lemma {:induction false} LabelledWithoutPartners(a: Interval<int>, runs: seq<(real, real)>, n: nat, producer: Producer<int>)
    requires n <= |runs|
    ensures Labelled(a, runs, n, [], producer) == []
  {
    if n > 0 {
      LabelledWithoutPartners(a, runs, n - 1, producer);
    }
  }

  /** Partners as `overlapping` holds them: well-formed, sorted by start, overlapping `a` and starting before it ends. */
  predicate PartnersOf(a: Interval<int>, ov: seq<Interval<int>>)
  {
    AllWellFormed(ov) && Ascending(ov) &&
    forall k :: 0 <= k < |ov| ==> Overlaps(a, ov[k]) && ov[k].start < a.end
  }

  /** The pieces `a` is cut into against a non-empty list of partners. */
  lemma CutAgainstPieces(a: Interval<int>, ov: seq<Interval<int>>, producer: Producer<int>, x: Interval<int>)
    requires a.start <= a.end && PartnersOf(a, ov) && ov != []
    requires x in CutAgainst(a, ov, producer)
    ensures a.start <= x.start < x.end <= a.end
    ensures forall b :: b in ov ==> !Overlaps(b, x)
    ensures exists b :: b in ov && (b.end == x.start || b.start == x.end) && x.payload == producer(a, b)
  {
    var eps := EndpointList(a, ov);
    var runs := RunsFrom(eps, ov, 0, -1);
    LabelledFromRuns(a, runs, |runs|, ov, producer, x);
    var m :| 0 <= m < |runs| && LabelledRun(a, ov, producer, runs[m], x);
    RunsFromAreRuns(eps, ov, 0, -1);
    assert IsRun(eps, ov, runs[m]);
    EndpointListEnumerates(a, ov);
    EndpointsWithin(a, ov);
    EndClearMeaning(x.start, x.end, ov, 0);
    forall b | b in ov ensures !Overlaps(b, x) {
      var k :| 0 <= k < |ov| && ov[k] == b;
      assert !Overlaps(ov[k], Interval(x.start, x.end, 0));
    }
  }

  /** `overlapping` as collected from a sorted list of well-formed intervals. */
  lemma ScanIsPartners(a: Interval<int>, i: nat, o: seq<Interval<int>>, pred: BinPred<int>, same: SameObject)
    requires AllWellFormed(o) && Ascending(o)
    ensures PartnersOf(a, ScanFrom(a, i, o, 0, pred, same))
  {
    var ov := ScanFrom(a, i, o, 0, pred, same);
    forall k | 0 <= k < |ov| ensures ov[k].start <= ov[k].end && Overlaps(a, ov[k]) && ov[k].start < a.end {
      ScanFromSound(a, i, o, 0, pred, same, ov[k]);
    }
    ScanFromAscending(a, i, o, 0, pred, same);
  }

  /**
   * What `minus(recursive_diff=True)` makes of one interval `a`: `a` itself
   * when it has no partner; otherwise pieces of positive length inside `a`,
   * overlapping none of its partners, each labelled by the payload producer
   * applied to `a` and a partner touching one of its ends.
   */
  lemma CutRowPieces(a: Interval<int>, i: nat, o: seq<Interval<int>>, pred: BinPred<int>, producer: Producer<int>, same: SameObject, x: Interval<int>)
    requires a.start <= a.end && AllWellFormed(o) && Ascending(o)
    ensures ScanFrom(a, i, o, 0, pred, same) == [] ==> CutRow(a, i, o, pred, producer, same) == [a]
    ensures ScanFrom(a, i, o, 0, pred, same) != [] && x in CutRow(a, i, o, pred, producer, same) ==>
            var ov := ScanFrom(a, i, o, 0, pred, same);
            a.start <= x.start < x.end <= a.end &&
            (forall b :: b in ov ==> !Overlaps(b, x)) &&
            exists b :: b in ov && (b.end == x.start || b.start == x.end) && x.payload == producer(a, b)
  {
    var ov := ScanFrom(a, i, o, 0, pred, same);
    if ov == [] {
      var runs := RunsFrom(EndpointList(a, ov), ov, 0, -1);
      LabelledWithoutPartners(a, runs, |runs|, producer);
    } else if x in CutRow(a, i, o, pred, producer, same) {
      ScanIsPartners(a, i, o, pred, same);
      CutAgainstPieces(a, ov, producer, x);
    }
  }

  /** `x` is one of the intervals the receiver's interval `i` becomes. */
  predicate InCutRow(s: seq<Interval<int>>, o: seq<Interval<int>>, i: nat, pred: BinPred<int>, producer: Producer<int>, same: SameObject, x: Interval<int>)
    requires i < |s|
  {
    x in CutRow(s[i], i, o, pred, producer, same)
  }

  /** The recursive difference is the concatenation of what each interval of the receiver becomes. */
  lemma {:induction false} MinusCutMembers(s: seq<Interval<int>>, o: seq<Interval<int>>, m: nat, pred: BinPred<int>, producer: Producer<int>, same: SameObject, x: Interval<int>)
    requires m <= |s|
    ensures x in CutRows(s, o, m, pred, producer, same) <==>
            exists i :: 0 <= i < m && InCutRow(s, o, i, pred, producer, same, x)
  {
    if m > 0 {
      MinusCutMembers(s, o, m - 1, pred, producer, same, x);
      var rows := CutRows(s, o, m - 1, pred, producer, same);
      assert CutRows(s, o, m, pred, producer, same) == rows + CutRow(s[m - 1], m - 1, o, pred, producer, same);
      if x in CutRows(s, o, m, pred, producer, same) && x !in rows {
        assert InCutRow(s, o, m - 1, pred, producer, same, x);
      }
      if exists i :: 0 <= i < m && InCutRow(s, o, i, pred, producer, same, x) {
        var i :| 0 <= i < m && InCutRow(s, o, i, pred, producer, same, x);
        if i == m - 1 {
          assert x in CutRow(s[m - 1], m - 1, o, pred, producer, same);
        }
      }
    }
  }
}
