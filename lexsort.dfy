// Python compares tuples lexicographically and `list.sort` / `sorted` are
// stable. This module gives the tuple order on `seq<real>` keys and one stable
// sort (insertion into a sorted list) that specifies every sort in the model.

module LexSort {
  import Seqs

  /** Python's `t1 <= t2` on tuples of numbers. */
  predicate LexLe(a: seq<real>, b: seq<real>)
    decreases |a|
  {
    |a| == 0 || (|b| > 0 && (a[0] < b[0] || (a[0] == b[0] && LexLe(a[1..], b[1..]))))
  }

  /** Python's `t1 < t2` on tuples of numbers. */
  predicate LexLt(a: seq<real>, b: seq<real>)
    decreases |a|
  {
    |b| > 0 && (|a| == 0 || a[0] < b[0] || (a[0] == b[0] && LexLt(a[1..], b[1..])))
  }

  lemma {:induction false} LexLeReflexive(a: seq<real>)
    ensures LexLe(a, a)
  {
    if |a| > 0 {
      LexLeReflexive(a[1..]);
    }
  }

  lemma {:induction false} LexLeTotal(a: seq<real>, b: seq<real>)
    ensures LexLe(a, b) || LexLe(b, a)
  {
    if |a| > 0 && |b| > 0 && a[0] == b[0] {
      LexLeTotal(a[1..], b[1..]);
    }
  }

  lemma {:induction false} LexLeTransitive(a: seq<real>, b: seq<real>, c: seq<real>)
    requires LexLe(a, b) && LexLe(b, c)
    ensures LexLe(a, c)
  {
    if |a| > 0 && a[0] == b[0] && b[0] == c[0] {
      LexLeTransitive(a[1..], b[1..], c[1..]);
    }
  }

  lemma {:induction false} LexLeAntisymmetric(a: seq<real>, b: seq<real>)
    requires LexLe(a, b) && LexLe(b, a)
    ensures a == b
  {
    if |a| > 0 {
      LexLeAntisymmetric(a[1..], b[1..]);
      assert a == [a[0]] + a[1..];
      assert b == [b[0]] + b[1..];
    }
  }

  /** The strict order is the non-strict one minus equality. */
  lemma {:induction false} LexLtIsStrictLe(a: seq<real>, b: seq<real>)
    ensures LexLt(a, b) <==> LexLe(a, b) && a != b
  {
    if |a| > 0 && |b| > 0 {
      LexLtIsStrictLe(a[1..], b[1..]);
      assert a == [a[0]] + a[1..];
      assert b == [b[0]] + b[1..];
    }
  }

  lemma LexLtIrreflexive(a: seq<real>)
    ensures !LexLt(a, a)
  {
    LexLtIsStrictLe(a, a);
  }

  lemma LexLtTransitive(a: seq<real>, b: seq<real>, c: seq<real>)
    requires LexLt(a, b) && LexLt(b, c)
    ensures LexLt(a, c)
  {
    LexLtIsStrictLe(a, b);
    LexLtIsStrictLe(b, c);
    LexLtIsStrictLe(a, c);
    LexLeTransitive(a, b, c);
    if a == c {
      LexLeAntisymmetric(a, b);
    }
  }

  /** Exactly one of `a < b`, `b < a`, `a == b` holds. */
  lemma LexLtTrichotomy(a: seq<real>, b: seq<real>)
    ensures LexLt(a, b) || LexLt(b, a) || a == b
    ensures !(LexLt(a, b) && LexLt(b, a))
    ensures a == b ==> !LexLt(a, b)
  {
    LexLtIsStrictLe(a, b);
    LexLtIsStrictLe(b, a);
    LexLeTotal(a, b);
    if LexLt(a, b) && LexLt(b, a) {
      LexLeAntisymmetric(a, b);
    }
  }

  // ---------------------------------------------------------------------
  // Stable sorting by a key.

  ghost predicate SortedBy<T>(s: seq<T>, key: T -> seq<real>)
  {
    forall i, j :: 0 <= i < j < |s| ==> LexLe(key(s[i]), key(s[j]))
  }

  /** Inserts `x` in front of the first element whose key is not below `x`'s. */
  function Insert<T>(x: T, s: seq<T>, key: T -> seq<real>): (r: seq<T>)
    ensures |r| == |s| + 1
    ensures multiset(r) == multiset(s) + multiset{x}
    ensures SortedBy(s, key) ==> SortedBy(r, key)
  {
    if s == [] || LexLe(key(x), key(s[0])) then
      InsertFrontSorted(x, s, key);
      [x] + s
    else
      var rest := Insert(x, s[1..], key);
      InsertBehindSorted(x, s, rest, key);
      assert s == [s[0]] + s[1..];
      [s[0]] + rest
  }

  lemma InsertFrontSorted<T>(x: T, s: seq<T>, key: T -> seq<real>)
    requires s == [] || LexLe(key(x), key(s[0]))
    ensures SortedBy(s, key) ==> SortedBy([x] + s, key)
  {
    if SortedBy(s, key) && s != [] {
      forall j | 0 < j < |s| ensures LexLe(key(x), key(s[j])) {
        LexLeTransitive(key(x), key(s[0]), key(s[j]));
      }
    }
  }

  lemma InsertBehindSorted<T>(x: T, s: seq<T>, rest: seq<T>, key: T -> seq<real>)
    requires s != [] && !LexLe(key(x), key(s[0]))
    requires multiset(rest) == multiset(s[1..]) + multiset{x}
    requires SortedBy(s[1..], key) ==> SortedBy(rest, key)
    ensures SortedBy(s, key) ==> SortedBy([s[0]] + rest, key)
  {
    if SortedBy(s, key) {
      assert SortedBy(s[1..], key);
      LexLeTotal(key(x), key(s[0]));
      forall j | 0 <= j < |rest| ensures LexLe(key(s[0]), key(rest[j])) {
        assert rest[j] in multiset(rest);
        if rest[j] != x {
          assert rest[j] in multiset(s[1..]);
          var k :| 0 <= k < |s[1..]| && s[1..][k] == rest[j];
          assert s[k + 1] == rest[j];
        }
      }
      var r := [s[0]] + rest;
      forall i, j | 0 <= i < j < |r| ensures LexLe(key(r[i]), key(r[j])) {
        if i > 0 {
          assert r[i] == rest[i - 1] && r[j] == rest[j - 1];
        } else {
          assert r[j] == rest[j - 1];
        }
      }
    }
  }

  /** `sorted(s, key=key)`: a stable sort. */
  function SortBy<T>(s: seq<T>, key: T -> seq<real>): (r: seq<T>)
    ensures |r| == |s|
    ensures multiset(r) == multiset(s)
    ensures SortedBy(r, key)
  {
    if s == [] then [] else
    assert s == [s[0]] + s[1..];
    Insert(s[0], SortBy(s[1..], key), key)
  }

  /** Sorting a sorted list leaves it as it is. */
  lemma {:induction false} SortBySorted<T>(s: seq<T>, key: T -> seq<real>)
    requires SortedBy(s, key)
    ensures SortBy(s, key) == s
  {
    if s != [] {
      assert SortedBy(s[1..], key);
      SortBySorted(s[1..], key);
      if |s| > 1 {
        assert LexLe(key(s[0]), key(s[1..][0]));
      }
      assert s == [s[0]] + s[1..];
    }
  }

  /** The elements whose key is `k`, in their order. */
  function WithKey<T>(s: seq<T>, key: T -> seq<real>, k: seq<real>): seq<T>
  {
    Seqs.Filter(s, (y: T) => key(y) == k)
  }

  lemma WithKeyCons<T>(x: T, s: seq<T>, key: T -> seq<real>, k: seq<real>)
    ensures WithKey([x] + s, key, k) == (if key(x) == k then [x] else []) + WithKey(s, key, k)
  {
    Seqs.FilterAppend([x], s, (y: T) => key(y) == k);
    assert [x][..0] == [];
  }

  lemma WithKeyAppend<T>(a: seq<T>, b: seq<T>, key: T -> seq<real>, k: seq<real>)
    ensures WithKey(a + b, key, k) == WithKey(a, key, k) + WithKey(b, key, k)
  {
    Seqs.FilterAppend(a, b, (y: T) => key(y) == k);
  }

  lemma {:induction false} InsertStable<T>(x: T, s: seq<T>, key: T -> seq<real>, k: seq<real>)
    ensures WithKey(Insert(x, s, key), key, k) == (if key(x) == k then [x] else []) + WithKey(s, key, k)
  {
    if s == [] || LexLe(key(x), key(s[0])) {
      WithKeyCons(x, s, key, k);
    } else {
      LexLeReflexive(key(x));
      InsertStable(x, s[1..], key, k);
      WithKeyCons(s[0], Insert(x, s[1..], key), key, k);
      WithKeyCons(s[0], s[1..], key, k);
      assert s == [s[0]] + s[1..];
    }
  }

  /**
   * Stability: among elements with equal keys the sort keeps input order, so
   * the sorted list and the input agree key by key.
   */
  lemma {:induction false} SortByStable<T>(s: seq<T>, key: T -> seq<real>, k: seq<real>)
    ensures WithKey(SortBy(s, key), key, k) == WithKey(s, key, k)
  {
    if s != [] {
      SortByStable(s[1..], key, k);
      InsertStable(s[0], SortBy(s[1..], key), key, k);
      WithKeyCons(s[0], s[1..], key, k);
      assert s == [s[0]] + s[1..];
    }
  }

  /** Filtering a sorted list keeps it sorted. */
  lemma {:induction false} FilterSortedBy<T>(s: seq<T>, p: T -> bool, key: T -> seq<real>)
    requires SortedBy(s, key)
    ensures SortedBy(Seqs.Filter(s, p), key)
  {
    if s != [] {
      var n := |s| - 1;
      SortedSlice(s, key, 0, n);
      FilterSortedBy(s[..n], p, key);
      var f := Seqs.Filter(s[..n], p);
      if p(s[n]) {
        var r := f + [s[n]];
        forall i, j | 0 <= i < j < |r| ensures LexLe(key(r[i]), key(r[j])) {
          if j == |f| {
            Seqs.FilterMembers(s[..n], p);
            assert r[i] == f[i] && f[i] in f;
            assert r[i] in s[..n];
          }
        }
      }
    }
  }

  /** A sorted list is non-decreasing in the first key component. */
  lemma SortedFirstComponent<T>(s: seq<T>, key: T -> seq<real>, i: int, j: int)
    requires SortedBy(s, key)
    requires 0 <= i <= j < |s|
    requires |key(s[i])| > 0 && |key(s[j])| > 0
    ensures key(s[i])[0] <= key(s[j])[0]
  {
  }

  /** Every suffix and prefix of a sorted list is sorted. */
  lemma SortedSlice<T>(s: seq<T>, key: T -> seq<real>, lo: int, hi: int)
    requires SortedBy(s, key)
    requires 0 <= lo <= hi <= |s|
    ensures SortedBy(s[lo..hi], key)
  {
    var t := s[lo..hi];
    forall i, j | 0 <= i < j < |t| ensures LexLe(key(t[i]), key(t[j])) {
      assert t[i] == s[lo + i] && t[j] == s[lo + j];
    }
  }
}
