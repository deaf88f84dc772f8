// Sequence combinators that stand for Python list comprehensions, `reduce`
// and nested `for` loops that concatenate lists, with the facts the rest of
// the model uses about them.

module Seqs {

  /** The elements of `s` that pass `p`, in order. */
  function Filter<T>(s: seq<T>, p: T -> bool): (r: seq<T>)
    ensures |r| <= |s|
    ensures forall i :: 0 <= i < |r| ==> p(r[i])
  {
    if s == [] then [] else
    Filter(s[..|s| - 1], p) + (if p(s[|s| - 1]) then [s[|s| - 1]] else [])
  }

  /** The filter holds exactly the elements of `s` that pass. */
  lemma {:induction false} FilterMembers<T>(s: seq<T>, p: T -> bool)
    ensures forall x :: x in Filter(s, p) ==> x in s && p(x)
    ensures forall x :: x in s && p(x) ==> x in Filter(s, p)
  {
    if s != [] {
      var n := |s| - 1;
      FilterMembers(s[..n], p);
      assert s == s[..n] + [s[n]];
    }
  }

  lemma {:induction false} FilterAppend<T>(a: seq<T>, b: seq<T>, p: T -> bool)
    ensures Filter(a + b, p) == Filter(a, p) + Filter(b, p)
    decreases |b|
  {
    if b == [] {
      assert a + b == a;
    } else {
      var n := |b| - 1;
      assert (a + b)[..|a + b| - 1] == a + b[..n];
      FilterAppend(a, b[..n], p);
    }
  }

  /** Filtering keeps every element that passes, in order: a second pass changes nothing. */
  lemma {:induction false} FilterIdempotent<T>(s: seq<T>, p: T -> bool)
    ensures Filter(Filter(s, p), p) == Filter(s, p)
  {
    if s != [] {
      var n := |s| - 1;
      FilterIdempotent(s[..n], p);
      var tail := if p(s[n]) then [s[n]] else [];
      FilterAppend(Filter(s[..n], p), tail, p);
    }
  }

  /** A sequence whose every element passes is its own filter. */
  lemma {:induction false} FilterAllPass<T>(s: seq<T>, p: T -> bool)
    requires forall i :: 0 <= i < |s| ==> p(s[i])
    ensures Filter(s, p) == s
  {
    if s != [] {
      FilterAllPass(s[..|s| - 1], p);
    }
  }

  /** A sequence whose every element fails has an empty filter. */
  lemma {:induction false} FilterNonePass<T>(s: seq<T>, p: T -> bool)
    requires forall i :: 0 <= i < |s| ==> !p(s[i])
    ensures Filter(s, p) == []
  {
    if s != [] {
      FilterNonePass(s[..|s| - 1], p);
    }
  }

  /** One more step of a loop that filters `s` from the front. */
  lemma FilterPrefixStep<T>(s: seq<T>, i: int, p: T -> bool)
    requires 0 <= i < |s|
    ensures Filter(s[..i + 1], p) == Filter(s[..i], p) + (if p(s[i]) then [s[i]] else [])
  {
    assert s[..i + 1][..i] == s[..i];
  }

  /** `f` applied to each element of `s`, in order. */
  function Map<T, U>(s: seq<T>, f: T -> U): (r: seq<U>)
    ensures |r| == |s|
    ensures forall i :: 0 <= i < |s| ==> r[i] == f(s[i])
  {
    if s == [] then [] else Map(s[..|s| - 1], f) + [f(s[|s| - 1])]
  }

  lemma MapPrefixStep<T, U>(s: seq<T>, i: int, f: T -> U)
    requires 0 <= i < |s|
    ensures Map(s[..i + 1], f) == Map(s[..i], f) + [f(s[i])]
  {
    assert s[..i + 1][..i] == s[..i];
  }

  /** The concatenation of a list of lists. */
  function Flatten<T>(ss: seq<seq<T>>): seq<T>
  {
    if ss == [] then [] else Flatten(ss[..|ss| - 1]) + ss[|ss| - 1]
  }

  function SumLengths<T>(ss: seq<seq<T>>): nat
  {
    if ss == [] then 0 else SumLengths(ss[..|ss| - 1]) + |ss[|ss| - 1]|
  }

  lemma {:induction false} FlattenLength<T>(ss: seq<seq<T>>)
    ensures |Flatten(ss)| == SumLengths(ss)
  {
    if ss != [] {
      FlattenLength(ss[..|ss| - 1]);
    }
  }

  lemma {:induction false} FlattenMember<T>(ss: seq<seq<T>>, x: T)
    ensures x in Flatten(ss) <==> exists i :: 0 <= i < |ss| && x in ss[i]
  {
    if ss != [] {
      var n := |ss| - 1;
      FlattenMember(ss[..n], x);
      if x in ss[n] {
        assert x in ss[n];
      }
      if exists i :: 0 <= i < n && x in ss[i] {
        var i :| 0 <= i < n && x in ss[i];
        assert x in ss[..n][i];
      }
    }
  }

  /** `functools.reduce(f, s, init)`: a left fold. */
  function FoldLeft<A, T>(s: seq<T>, f: (A, T) -> A, init: A): A
  {
    if s == [] then init else f(FoldLeft(s[..|s| - 1], f, init), s[|s| - 1])
  }

  // ---------------------------------------------------------------------
  // Nested loops over `s` and, for each of its elements, over `o`, appending `f(a, b)`.

  /** What the inner loop appends for `a` after visiting `o[..n]`. */
  function RowPrefix<A, B, C>(a: A, o: seq<B>, n: nat, f: (A, B) -> seq<C>): seq<C>
    requires n <= |o|
  {
    if n == 0 then [] else RowPrefix(a, o, n - 1, f) + f(a, o[n - 1])
  }

  function Row<A, B, C>(a: A, o: seq<B>, f: (A, B) -> seq<C>): seq<C>
  {
    RowPrefix(a, o, |o|, f)
  }

  /** What the outer loop has produced after visiting `s[..m]`. */
  function CrossPrefix<A, B, C>(s: seq<A>, o: seq<B>, m: nat, f: (A, B) -> seq<C>): seq<C>
    requires m <= |s|
  {
    if m == 0 then [] else CrossPrefix(s, o, m - 1, f) + Row(s[m - 1], o, f)
  }

  /** The cross product of `s` and `o`, in loop order, of the lists `f` yields. */
  function Cross<A, B, C>(s: seq<A>, o: seq<B>, f: (A, B) -> seq<C>): seq<C>
  {
    CrossPrefix(s, o, |s|, f)
  }

  /** Cells that yield nothing leave a row unchanged. */
  lemma {:induction false} RowPrefixSkip<A, B, C>(a: A, o: seq<B>, lo: nat, hi: nat, f: (A, B) -> seq<C>)
    requires lo <= hi <= |o|
    requires forall k :: lo <= k < hi ==> f(a, o[k]) == []
    ensures RowPrefix(a, o, hi, f) == RowPrefix(a, o, lo, f)
    decreases hi
  {
    if hi > lo {
      RowPrefixSkip(a, o, lo, hi - 1, f);
    }
  }

  /** Rows that yield nothing leave the cross product unchanged. */
  lemma {:induction false} CrossPrefixSkip<A, B, C>(s: seq<A>, o: seq<B>, lo: nat, hi: nat, f: (A, B) -> seq<C>)
    requires lo <= hi <= |s|
    requires forall i :: lo <= i < hi ==> Row(s[i], o, f) == []
    ensures CrossPrefix(s, o, hi, f) == CrossPrefix(s, o, lo, f)
    decreases hi
  {
    if hi > lo {
      CrossPrefixSkip(s, o, lo, hi - 1, f);
    }
  }

  lemma {:induction false} RowPrefixMember<A, B, C>(a: A, o: seq<B>, n: nat, f: (A, B) -> seq<C>, x: C)
    requires n <= |o|
    ensures x in RowPrefix(a, o, n, f) <==> exists j :: 0 <= j < n && x in f(a, o[j])
  {
    if n > 0 {
      RowPrefixMember(a, o, n - 1, f, x);
    }
  }

  /** Every element of the cross product comes from one pair, and every pair contributes. */
  lemma {:induction false} CrossPrefixMember<A, B, C>(s: seq<A>, o: seq<B>, m: nat, f: (A, B) -> seq<C>, x: C)
    requires m <= |s|
    ensures x in CrossPrefix(s, o, m, f) <==>
            exists i, j :: 0 <= i < m && 0 <= j < |o| && x in f(s[i], o[j])
  {
    if m > 0 {
      CrossPrefixMember(s, o, m - 1, f, x);
      RowPrefixMember(s[m - 1], o, |o|, f, x);
    }
  }

  lemma CrossMember<A, B, C>(s: seq<A>, o: seq<B>, f: (A, B) -> seq<C>, x: C)
    ensures x in Cross(s, o, f) <==>
            exists i, j :: 0 <= i < |s| && 0 <= j < |o| && x in f(s[i], o[j])
  {
    CrossPrefixMember(s, o, |s|, f, x);
  }

  /** An empty side gives an empty cross product. */
  lemma CrossOfEmpty<A, B, C>(s: seq<A>, o: seq<B>, f: (A, B) -> seq<C>)
    requires s == [] || o == []
    ensures Cross(s, o, f) == []
  {
    if o == [] {
      CrossPrefixSkip(s, o, 0, |s|, f);
    }
  }

  // Length of a cross product: the sum of the lengths of its cells.

  function RowSize<A, B, C>(a: A, o: seq<B>, n: nat, f: (A, B) -> seq<C>): nat
    requires n <= |o|
  {
    if n == 0 then 0 else RowSize(a, o, n - 1, f) + |f(a, o[n - 1])|
  }

  function CrossSize<A, B, C>(s: seq<A>, o: seq<B>, m: nat, f: (A, B) -> seq<C>): nat
    requires m <= |s|
  {
    if m == 0 then 0 else CrossSize(s, o, m - 1, f) + RowSize(s[m - 1], o, |o|, f)
  }

  lemma {:induction false} CrossPrefixLength<A, B, C>(s: seq<A>, o: seq<B>, m: nat, f: (A, B) -> seq<C>)
    requires m <= |s|
    ensures |CrossPrefix(s, o, m, f)| == CrossSize(s, o, m, f)
  {
    if m > 0 {
      CrossPrefixLength(s, o, m - 1, f);
      RowPrefixLength(s[m - 1], o, |o|, f);
    }
  }

  lemma {:induction false} RowPrefixLength<A, B, C>(a: A, o: seq<B>, n: nat, f: (A, B) -> seq<C>)
    requires n <= |o|
    ensures |RowPrefix(a, o, n, f)| == RowSize(a, o, n, f)
  {
    if n > 0 {
      RowPrefixLength(a, o, n - 1, f);
    }
  }
}
