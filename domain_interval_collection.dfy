// `DomainIntervalCollection` of `rekall/domain_interval_collection.py`: a dict
// from a domain key (a video, say) to the `IntervalSet3D` of that domain. The
// collection offers the interface of a set: unary and binary set operations
// are lifted key by key, and a key whose result is empty is dropped.

module DomainCollection {
  import opened Common
  import opened BoundOps
  import opened Interval3DOps
  import opened IntervalSet3DModel
  import opened LexSort
  import opened SetUtils
  import opened Dicts
  import opened KeyedSets
  import Seqs

  class DomainIntervalCollection<K(==,!new), P> {
    /** `_grouped_intervals` */
    var grouped: Dict<K, IntervalSet3D<P>>

    /** The dict is a well-formed Python dict: each key listed once, exactly the keys with an entry. */
    ghost predicate Valid()
      reads this
    {
      grouped.Valid()
    }

    constructor (g: Dict<K, IntervalSet3D<P>>)
      requires g.Valid()
      ensures Valid() && grouped == g
    {
      grouped := g;
    }

    /** `c[key]`: the set under `key`; a missing key reads as an empty set and stays missing. */
    function GetItem(key: K): (r: IntervalSet3D<P>)
      reads this
      ensures key in grouped.entries ==> r == grouped.entries[key]
      ensures key !in grouped.entries ==> r.Valid() && r.intrvls == []
    {
      grouped.Get(key, EmptySet())
    }

    /** `c[key] = value` */
    method SetItem(key: K, value: IntervalSet3D<P>)
      modifies this
      ensures grouped == old(grouped).Set(key, value)
      ensures GetItem(key) == value
      ensures old(Valid()) ==> Valid()
    {
      grouped := grouped.Set(key, value);
    }

    /** `del c[key]`: a KeyError for a missing key, which leaves the collection as it was. */
    method DelItem(key: K) returns (r: Result<()>)
      modifies this
      ensures key !in old(grouped.entries) ==> r == Err(KeyMissing) && grouped == old(grouped)
      ensures key in old(grouped.entries) ==> r.Ok? && grouped == old(grouped).Delete(key).value
      ensures r.Ok? ==> GetItem(key).intrvls == []
      ensures old(Valid()) ==> Valid()
    {
      var d := grouped.Delete(key);
      if d.Err? {
        r := Err(d.error);
      } else {
        grouped := d.value;
        r := Ok(());
      }
    }

    /** `get_flattened_intervalset()`: every domain's intervals, in key order, as one set. */
    method GetFlattenedIntervalSet() returns (r: IntervalSet3D<P>)
      requires Valid()
      ensures r == Make(AllIntervals(grouped, grouped.keys))
      ensures |r.intrvls| == TotalSize(grouped, grouped.keys)
    {
      var output: seq<Interval3D<P>> := [];
      for i := 0 to |grouped.keys|
        invariant output == AllIntervals(grouped, grouped.keys[..i])
      {
        assert grouped.keys[..i + 1][..i] == grouped.keys[..i];
        output := output + grouped.entries[grouped.keys[i]].intrvls;
      }
      assert grouped.keys[..|grouped.keys|] == grouped.keys;
      r := Make(output);
    }
  }

  // -------------------------------------------------------------------
  // Sizes

  /** The number of intervals under the keys `ks`. */
  function TotalSize<K(==,!new), P>(d: Dict<K, IntervalSet3D<P>>, ks: seq<K>): nat
    requires forall k :: k in ks ==> k in d.entries
  {
    if ks == [] then 0 else TotalSize(d, ks[..|ks| - 1]) + |d.entries[ks[|ks| - 1]].intrvls|
  }

  /** The intervals under the keys `ks`, concatenated in key order. */
  function AllIntervals<K(==,!new), P>(d: Dict<K, IntervalSet3D<P>>, ks: seq<K>): (r: seq<Interval3D<P>>)
    requires forall k :: k in ks ==> k in d.entries
    ensures |r| == TotalSize(d, ks)
  {
    if ks == [] then [] else AllIntervals(d, ks[..|ks| - 1]) + d.entries[ks[|ks| - 1]].intrvls
  }

  /** An interval is in the concatenation exactly when it is in the set of one of the keys. */
  lemma {:induction false} AllIntervalsMember<K(!new), P>(d: Dict<K, IntervalSet3D<P>>, ks: seq<K>, x: Interval3D<P>)
    requires forall k :: k in ks ==> k in d.entries
    ensures x in AllIntervals(d, ks) <==> exists k :: k in ks && x in d.entries[k].intrvls
  {
    if ks != [] {
      var n := |ks| - 1;
      AllIntervalsMember(d, ks[..n], x);
      if exists k :: k in ks && x in d.entries[k].intrvls {
        var k :| k in ks && x in d.entries[k].intrvls;
        if k != ks[n] {
          var i :| 0 <= i < |ks| && ks[i] == k;
          assert ks[..n][i] == k;
        }
      }
    }
  }

  /** The flattened set holds every interval of every domain, and nothing else. */
  lemma FlattenedHoldsEveryDomain<K(!new), P>(d: Dict<K, IntervalSet3D<P>>, x: Interval3D<P>)
    requires d.Valid()
    ensures x in Make(AllIntervals(d, d.keys)).intrvls <==> exists k :: k in d.entries && x in d.entries[k].intrvls
  {
    AllIntervalsMember(d, d.keys, x);
    assert x in Make(AllIntervals(d, d.keys)).intrvls <==> x in multiset(AllIntervals(d, d.keys));
  }

  // -------------------------------------------------------------------
  // from_iterable

  /** The interval `from_iterable` builds from one row, from the row's bounds and payload. */
  function RowInterval<R, P>(t: R -> Bound, x: R -> Bound, y: R -> Bound, p: R -> P): R -> Interval3D<P>
  {
    row => Interval3D(t(row), x(row), y(row), p(row))
  }

  /** What `from_iterable` builds: each key seen, in first-seen order, with the set of its rows' intervals. */
  function FromIterableSpec<R, K(==,!new), P>(rows: seq<R>, v: R -> K, mk: R -> Interval3D<P>)
    : Dict<K, IntervalSet3D<P>>
  {
    var ks := GroupKeys(rows, v);
    Dict(ks, map k | k in ks :: Make(Seqs.Map(Group(rows, v, k), mk)))
  }

  /**
   * `from_iterable(iterable, v_accessor, t_accessor, x_accessor, y_accessor,
   * p_accessor)`: the dict the new collection wraps. Each row's interval is
   * appended to the list of its key, and each list then becomes a set.
   */
  method FromIterable<R, K(==,!new), P>(rows: seq<R>, v: R -> K, t: R -> Bound, x: R -> Bound, y: R -> Bound, p: R -> P)
    returns (d: Dict<K, IntervalSet3D<P>>)
    ensures d == FromIterableSpec(rows, v, RowInterval(t, x, y, p))
  {
    var mk := RowInterval(t, x, y, p);
    var keyToIntervals: Dict<K, seq<Interval3D<P>>> := Dict([], map[]);
    for i := 0 to |rows|
      invariant keyToIntervals.keys == GroupKeys(rows[..i], v)
      invariant forall k :: k in keyToIntervals.entries <==> k in keyToIntervals.keys
      invariant forall k :: k in keyToIntervals.entries ==> keyToIntervals.entries[k] == Seqs.Map(Group(rows[..i], v, k), mk)
    {
      keyToIntervals := FileRow(rows, v, mk, i, keyToIntervals);
    }
    assert rows[..|rows|] == rows;
    d := Dict(keyToIntervals.keys, map k | k in keyToIntervals.entries :: Make(keyToIntervals.entries[k]));
    FiledRows(rows, v, mk, keyToIntervals);
  }

  /** The lists the loop files are the intervals of the groups of the keys. */
  lemma FiledRows<R, K(!new), P>(rows: seq<R>, v: R -> K, mk: R -> Interval3D<P>, acc: Dict<K, seq<Interval3D<P>>>)
    requires forall k :: k in acc.entries <==> k in acc.keys
    requires forall k :: k in acc.entries ==> acc.entries[k] == Seqs.Map(Group(rows, v, k), mk)
    ensures (map k | k in acc.entries :: Make(acc.entries[k])) == (map k | k in acc.keys :: Make(Seqs.Map(Group(rows, v, k), mk)))
  {
  }

  /** One round of the loop of `from_iterable`: row `i`'s interval goes to the end of its key's list. */
  method FileRow<R, K(==,!new), P>(rows: seq<R>, v: R -> K, mk: R -> Interval3D<P>, i: nat,
                                   acc: Dict<K, seq<Interval3D<P>>>)
    returns (acc': Dict<K, seq<Interval3D<P>>>)
    requires i < |rows|
    requires acc.keys == GroupKeys(rows[..i], v)
    requires forall k :: k in acc.entries <==> k in acc.keys
    requires forall k :: k in acc.entries ==> acc.entries[k] == Seqs.Map(Group(rows[..i], v, k), mk)
    ensures acc'.keys == GroupKeys(rows[..i + 1], v)
    ensures forall k :: k in acc'.entries <==> k in acc'.keys
    ensures forall k :: k in acc'.entries ==> acc'.entries[k] == Seqs.Map(Group(rows[..i + 1], v, k), mk)
  {
    var interval := mk(rows[i]);
    var key := v(rows[i]);
    assert rows[..i + 1][..i] == rows[..i];
    if key in acc.entries {
      acc' := Dict(acc.keys, acc.entries[key := acc.entries[key] + [interval]]);
    } else {
      acc' := Dict(acc.keys + [key], acc.entries[key := [interval]]);
      GroupKeysMeaning(rows[..i], v);
      Seqs.FilterNonePass(rows[..i], KeyIs(v, key));
    }
    forall k | k in acc'.entries
      ensures acc'.entries[k] == Seqs.Map(Group(rows[..i + 1], v, k), mk)
    {
      GroupStep(rows, v, mk, i, k);
    }
  }

  /** Row `i` extends the group of its own key by its interval and no other group. */
  lemma GroupStep<R, K(!new), P>(rows: seq<R>, v: R -> K, mk: R -> Interval3D<P>, i: nat, k: K)
    requires i < |rows|
    ensures Seqs.Map(Group(rows[..i + 1], v, k), mk) ==
            Seqs.Map(Group(rows[..i], v, k), mk) + (if v(rows[i]) == k then [mk(rows[i])] else [])
  {
    Seqs.FilterPrefixStep(rows, i, KeyIs(v, k));
    if v(rows[i]) == k {
      var g := Group(rows[..i], v, k);
      assert (g + [rows[i]])[..|g|] == g;
    }
  }

  /** The sizes of the groups of the keys `ks`, added up. */
  function GroupSizes<T, K(==)>(ks: seq<K>, s: seq<T>, key: T -> K): nat
  {
    if ks == [] then 0 else GroupSizes(ks[..|ks| - 1], s, key) + |Group(s, key, ks[|ks| - 1])|
  }

  /** One more element adds one to the groups of the listed keys exactly when its key is listed. */
  lemma {:induction false} GroupSizesStep<T, K(!new)>(ks: seq<K>, s: seq<T>, x: T, key: T -> K)
    requires Distinct(ks)
    ensures GroupSizes(ks, s + [x], key) == GroupSizes(ks, s, key) + (if key(x) in ks then 1 else 0)
  {
    if ks != [] {
      var n := |ks| - 1;
      assert Distinct(ks[..n]);
      GroupSizesStep(ks[..n], s, x, key);
      Seqs.FilterAppend(s, [x], KeyIs(key, ks[n]));
      assert ks[n] !in ks[..n];
      assert key(x) in ks <==> key(x) in ks[..n] || key(x) == ks[n];
    }
  }

  /** The groups of all the keys together hold every element once. */
  lemma {:induction false} GroupSizesAll<T, K(!new)>(s: seq<T>, key: T -> K)
    ensures GroupSizes(GroupKeys(s, key), s, key) == |s|
  {
    if s != [] {
      var n := |s| - 1;
      var ks := GroupKeys(s[..n], key);
      GroupSizesAll(s[..n], key);
      GroupKeysMeaning(s[..n], key);
      assert s == s[..n] + [s[n]];
      GroupSizesStep(ks, s[..n], s[n], key);
      if key(s[n]) !in ks {
        Seqs.FilterNonePass(s[..n], KeyIs(key, key(s[n])));
        Seqs.FilterAppend(s[..n], [s[n]], KeyIs(key, key(s[n])));
        assert (ks + [key(s[n])])[..|ks|] == ks;
      }
    }
  }

  /** A dict whose set under each key is as large as the key's group holds as many intervals as the groups. */
  lemma {:induction false} TotalSizeOfGroups<T, K(!new), P>(d: Dict<K, IntervalSet3D<P>>, ks: seq<K>, s: seq<T>, key: T -> K)
    requires forall k :: k in ks ==> k in d.entries && |d.entries[k].intrvls| == |Group(s, key, k)|
    ensures TotalSize(d, ks) == GroupSizes(ks, s, key)
  {
    if ks != [] {
      TotalSizeOfGroups(d, ks[..|ks| - 1], s, key);
    }
  }

  /** An interval is in a mapped list exactly when it is the image of one of the list's elements. */
  lemma MapMember<T, U>(s: seq<T>, f: T -> U, u: U)
    ensures u in Seqs.Map(s, f) <==> exists x :: x in s && f(x) == u
  {
    if u in Seqs.Map(s, f) {
      var i :| 0 <= i < |s| && Seqs.Map(s, f)[i] == u;
      assert s[i] in s;
    }
  }

  /** `from_iterable` keeps exactly the keys seen, each once. */
  lemma FromIterableKeys<R, K(!new), P>(rows: seq<R>, v: R -> K, mk: R -> Interval3D<P>)
    ensures FromIterableSpec(rows, v, mk).Valid()
    ensures forall i :: 0 <= i < |rows| ==> v(rows[i]) in FromIterableSpec(rows, v, mk).entries
    ensures forall k :: k in FromIterableSpec(rows, v, mk).entries ==> exists i :: 0 <= i < |rows| && v(rows[i]) == k
  {
    var ks := GroupKeys(rows, v);
    GroupKeysMeaning(rows, v);
    forall k | k in FromIterableSpec(rows, v, mk).entries ensures exists i :: 0 <= i < |rows| && v(rows[i]) == k {
      var j :| 0 <= j < |ks| && ks[j] == k;
    }
  }

  /** The set under key `k` holds exactly the intervals of the rows whose key is `k`. */
  lemma FromIterableGroup<R, K(!new), P>(rows: seq<R>, v: R -> K, mk: R -> Interval3D<P>, k: K, x: Interval3D<P>)
    requires k in FromIterableSpec(rows, v, mk).entries
    ensures x in FromIterableSpec(rows, v, mk).entries[k].intrvls <==> exists row :: row in rows && v(row) == k && mk(row) == x
  {
    var g := Group(rows, v, k);
    assert FromIterableSpec(rows, v, mk).entries[k] == Make(Seqs.Map(g, mk));
    Seqs.FilterMembers(rows, KeyIs(v, k));
    MapMember(g, mk, x);
    assert x in Make(Seqs.Map(g, mk)).intrvls <==> x in multiset(Seqs.Map(g, mk));
  }

  /** `from_iterable` neither loses nor duplicates a row: the sets hold as many intervals as there are rows. */
  lemma FromIterableSize<R, K(!new), P>(rows: seq<R>, v: R -> K, mk: R -> Interval3D<P>)
    ensures TotalSize(FromIterableSpec(rows, v, mk), FromIterableSpec(rows, v, mk).keys) == |rows|
  {
    TotalSizeOfGroups(FromIterableSpec(rows, v, mk), GroupKeys(rows, v), rows, v);
    GroupSizesAll(rows, v);
  }

  // -------------------------------------------------------------------
  // from_intervalset

  /** What `from_intervalset` builds: each key, in first-seen order over the sorted set, with its group. */
  function FromIntervalSetSpec<K(==,!new), P>(S: IntervalSet3D<P>, keyFn: Interval3D<P> -> K)
    : Dict<K, IntervalSet3D<P>>
  {
    var lst := SortBy(S.intrvls, SortKey);
    var ks := GroupKeys(lst, keyFn);
    Dict(ks, map k | k in ks :: Make(Group(lst, keyFn, k)))
  }

  /**
   * `from_intervalset(intervalset, key_fn)`: the dict the new collection
   * wraps. `fold` runs the reducer over the sorted intervals, filing each
   * under its key, and each list then becomes a set.
   */
  method FromIntervalSet<K(==,!new), P>(S: IntervalSet3D<P>, keyFn: Interval3D<P> -> K)
    returns (d: Dict<K, IntervalSet3D<P>>)
    ensures d == FromIntervalSetSpec(S, keyFn)
  {
    var lst := SortBy(S.intrvls, SortKey);
    var keys, groups := FileByKey(lst, keyFn);
    d := Dict(keys, map k | k in keys :: Make(groups[k]));
    FiledGroups(lst, keyFn, keys, groups);
  }

  /** The lists the reducer files are the groups of the keys. */
  lemma FiledGroups<K(!new), P>(lst: seq<Interval3D<P>>, keyFn: Interval3D<P> -> K, keys: seq<K>,
                                groups: map<K, seq<Interval3D<P>>>)
    requires forall j :: 0 <= j < |keys| ==> keys[j] in groups && groups[keys[j]] == Group(lst, keyFn, keys[j])
    ensures (map k | k in keys :: Make(groups[k])) == (map k | k in keys :: Make(Group(lst, keyFn, k)))
  {
    forall k | k in keys ensures groups[k] == Group(lst, keyFn, k) {
      var j :| 0 <= j < |keys| && keys[j] == k;
    }
  }

  /** `from_intervalset` files every interval under a key, and has no key without an interval. */
  lemma FromIntervalSetKeys<K(!new), P>(S: IntervalSet3D<P>, keyFn: Interval3D<P> -> K)
    ensures FromIntervalSetSpec(S, keyFn).Valid()
    ensures forall i :: 0 <= i < |S.intrvls| ==> keyFn(S.intrvls[i]) in FromIntervalSetSpec(S, keyFn).entries
    ensures forall k :: k in FromIntervalSetSpec(S, keyFn).entries ==> exists x :: x in S.intrvls && keyFn(x) == k
  {
    GroupKeysMeaning(SortBy(S.intrvls, SortKey), keyFn);
    forall i | 0 <= i < |S.intrvls| ensures keyFn(S.intrvls[i]) in FromIntervalSetSpec(S, keyFn).entries {
      IntervalHasKey(S, keyFn, i);
    }
    forall k | k in FromIntervalSetSpec(S, keyFn).entries ensures exists x :: x in S.intrvls && keyFn(x) == k {
      KeyHasInterval(S, keyFn, k);
    }
  }

  lemma IntervalHasKey<K(!new), P>(S: IntervalSet3D<P>, keyFn: Interval3D<P> -> K, i: int)
    requires 0 <= i < |S.intrvls|
    ensures keyFn(S.intrvls[i]) in GroupKeys(SortBy(S.intrvls, SortKey), keyFn)
  {
    var lst := SortBy(S.intrvls, SortKey);
    GroupKeysMeaning(lst, keyFn);
    assert S.intrvls[i] in multiset(lst);
    var m :| 0 <= m < |lst| && lst[m] == S.intrvls[i];
  }

  lemma KeyHasInterval<K(!new), P>(S: IntervalSet3D<P>, keyFn: Interval3D<P> -> K, k: K)
    requires k in GroupKeys(SortBy(S.intrvls, SortKey), keyFn)
    ensures exists x :: x in S.intrvls && keyFn(x) == k
  {
    var lst := SortBy(S.intrvls, SortKey);
    GroupKeysMeaning(lst, keyFn);
    var m :| 0 <= m < |lst| && keyFn(lst[m]) == k;
    assert lst[m] in multiset(S.intrvls);
  }

  /** The set under key `k` holds exactly the intervals of the set whose key is `k`. */
  lemma FromIntervalSetGroup<K(!new), P>(S: IntervalSet3D<P>, keyFn: Interval3D<P> -> K, k: K, x: Interval3D<P>)
    requires k in FromIntervalSetSpec(S, keyFn).entries
    ensures x in FromIntervalSetSpec(S, keyFn).entries[k].intrvls <==> x in S.intrvls && keyFn(x) == k
  {
    var lst := SortBy(S.intrvls, SortKey);
    var g := Group(lst, keyFn, k);
    assert FromIntervalSetSpec(S, keyFn).entries[k] == Make(g);
    Seqs.FilterMembers(lst, KeyIs(keyFn, k));
    assert x in Make(g).intrvls <==> x in multiset(g);
    assert x in lst <==> x in multiset(lst);
    assert x in S.intrvls <==> x in multiset(S.intrvls);
  }

  /** `from_intervalset` neither loses nor duplicates an interval. */
  lemma FromIntervalSetSize<K(!new), P>(S: IntervalSet3D<P>, keyFn: Interval3D<P> -> K)
    ensures TotalSize(FromIntervalSetSpec(S, keyFn), FromIntervalSetSpec(S, keyFn).keys) == |S.intrvls|
  {
    var lst := SortBy(S.intrvls, SortKey);
    TotalSizeOfGroups(FromIntervalSetSpec(S, keyFn), GroupKeys(lst, keyFn), lst, keyFn);
    GroupSizesAll(lst, keyFn);
  }

  // -------------------------------------------------------------------
  // add_domain_to_payload

  /** One interval with its payload mapped and its bounds kept. */
  function WithPayload<P, Q>(f: P -> Q): Interval3D<P> -> Interval3D<Q>
  {
    (i: Interval3D<P>) => Interval3D(i.t, i.x, i.y, f(i.payload))
  }

  /** `map_payload(f)` on a set: every payload replaced by its image, the bounds kept. */
  function MapPayload<P, Q>(S: IntervalSet3D<P>, f: P -> Q): (r: IntervalSet3D<Q>)
    ensures r.Valid()
    ensures multiset(r.intrvls) == multiset(Seqs.Map(S.intrvls, WithPayload(f)))
  {
    Make(Seqs.Map(S.intrvls, WithPayload(f)))
  }

  /** The payload `p` of an interval filed under `k` becomes `(p, k)`. */
  function Tag<P, K>(k: K): P -> (P, K)
  {
    p => (p, k)
  }

  /** `add_domain_to_payload()`: the same keys, each payload paired with its key. */
  function AddDomainToPayload<K(==,!new), P>(d: Dict<K, IntervalSet3D<P>>): (r: Dict<K, IntervalSet3D<(P, K)>>)
    ensures d.Valid() ==> r.Valid()
    ensures r.keys == d.keys
    ensures forall k :: k in r.entries <==> k in d.entries
    ensures forall k :: k in r.entries ==> |r.entries[k].intrvls| == |d.entries[k].intrvls|
  {
    Dict(d.keys, map k | k in d.entries :: MapPayload(d.entries[k], Tag(k)))
  }

  /** An interval with its payload `p` replaced by `(p, k)`. */
  function Tagged<P, K>(a: Interval3D<P>, k: K): Interval3D<(P, K)>
  {
    Interval3D(a.t, a.x, a.y, (a.payload, k))
  }

  /** Tagging a set pairs every payload with `k` and keeps the bounds; nothing else appears. */
  lemma MapPayloadTags<P, K>(S: IntervalSet3D<P>, k: K)
    ensures forall a :: a in S.intrvls ==> Tagged(a, k) in MapPayload(S, Tag(k)).intrvls
    ensures forall b :: b in MapPayload(S, Tag(k)).intrvls ==>
              b.payload.1 == k && Interval3D(b.t, b.x, b.y, b.payload.0) in S.intrvls
  {
    var m := Seqs.Map(S.intrvls, WithPayload(Tag(k)));
    var r := MapPayload(S, Tag(k)).intrvls;
    forall a | a in S.intrvls ensures Tagged(a, k) in r {
      var i :| 0 <= i < |S.intrvls| && S.intrvls[i] == a;
      assert m[i] == Tagged(a, k);
      assert m[i] in multiset(m);
    }
    forall b | b in r ensures b.payload.1 == k && Interval3D(b.t, b.x, b.y, b.payload.0) in S.intrvls {
      assert b in multiset(r);
      var i :| 0 <= i < |m| && m[i] == b;
      assert Interval3D(b.t, b.x, b.y, b.payload.0) == S.intrvls[i];
    }
  }

  /** Under each key `k`, every interval `(bounds, p)` becomes `(bounds, (p, k))`, and nothing else appears. */
  lemma AddDomainTagsPayloads<K(!new), P>(d: Dict<K, IntervalSet3D<P>>, k: K)
    requires k in d.entries
    ensures forall a :: a in d.entries[k].intrvls ==> Tagged(a, k) in AddDomainToPayload(d).entries[k].intrvls
    ensures forall b :: b in AddDomainToPayload(d).entries[k].intrvls ==>
              b.payload.1 == k && Interval3D(b.t, b.x, b.y, b.payload.0) in d.entries[k].intrvls
  {
    MapPayloadTags(d.entries[k], k);
  }

  // -------------------------------------------------------------------
  // Lifted operations

  /** The keys of both dicts: the receiver's first, then the argument's new ones. */
  function UnionKeys<K(==,!new), V>(d1: Dict<K, V>, d2: Dict<K, V>): (ks: seq<K>)
    requires d1.Valid() && d2.Valid()
    ensures Distinct(ks)
    ensures forall k :: k in ks <==> k in d1.entries || k in d2.entries
  {
    Dicts.Merge(d1, d2).keys
  }

  /** The result of a binary operation on the two sets of one key, a missing set read as empty. */
  function BothSides<K(==,!new), P, Q>(d1: Dict<K, IntervalSet3D<P>>, d2: Dict<K, IntervalSet3D<P>>,
                                      op: (IntervalSet3D<P>, IntervalSet3D<P>) -> IntervalSet3D<Q>)
    : K -> IntervalSet3D<Q>
  {
    k => op(d1.Get(k, EmptySet()), d2.Get(k, EmptySet()))
  }

  /**
   * A binary method lifted: the operation on the two sets of every key of
   * either collection, an empty set standing in for a missing side; keys
   * whose result is empty are dropped.
   */
  function LiftBinary<K(==,!new), P, Q>(d1: Dict<K, IntervalSet3D<P>>, d2: Dict<K, IntervalSet3D<P>>,
                                       op: (IntervalSet3D<P>, IntervalSet3D<P>) -> IntervalSet3D<Q>)
    : (r: Dict<K, IntervalSet3D<Q>>)
    requires d1.Valid() && d2.Valid()
    ensures r.Valid()
    ensures forall k :: k in r.entries <==>
              (k in d1.entries || k in d2.entries) && |op(d1.Get(k, EmptySet()), d2.Get(k, EmptySet())).intrvls| > 0
    ensures forall k :: k in r.entries ==> r.entries[k] == op(d1.Get(k, EmptySet()), d2.Get(k, EmptySet()))
  {
    RemoveEmpty(Comprehend(UnionKeys(d1, d2), BothSides(d1, d2, op)))
  }

  /** An out-of-system method lifted: a plain dict with the receiver's keys, each mapped to the operation's result. */
  function LiftOutOfSystem<K(==,!new), P, A>(d: Dict<K, IntervalSet3D<P>>, op: IntervalSet3D<P> -> A): (r: Dict<K, A>)
    ensures d.Valid() ==> r.Valid()
    ensures forall k :: k in r.entries <==> k in d.entries
    ensures forall k :: k in r.entries ==> r.entries[k] == op(d.entries[k])
  {
    MapValues(d, op)
  }
}
