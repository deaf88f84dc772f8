// What the two keyed collections share: the empty set that stands for a
// missing key, the pass that drops the keys whose set came out empty, and a
// unary set operation lifted over every key.

module KeyedSets {
  import opened Dicts
  import opened IntervalSet3DModel
  import Seqs

  /** `IntervalSet3D([])` */
  function EmptySet<P>(): (r: IntervalSet3D<P>)
    ensures r.Valid() && r.intrvls == []
  {
    Make([])
  }

  /** `not intervalset.empty()`, reading `empty()` as "holds no interval". */
  function NonEmpty<P>(): IntervalSet3D<P> -> bool
  {
    (S: IntervalSet3D<P>) => |S.intrvls| > 0
  }

  /** `_remove_empty_intervalsets(d)`: the keys whose set is non-empty, in their order, with their sets. */
  function RemoveEmpty<K(==,!new), P>(d: Dict<K, IntervalSet3D<P>>): (r: Dict<K, IntervalSet3D<P>>)
    requires d.Valid()
    ensures r.Valid()
    ensures forall k :: k in r.entries <==> k in d.entries && |d.entries[k].intrvls| > 0
    ensures forall k :: k in r.entries ==> r.entries[k] == d.entries[k]
  {
    Keep(d, NonEmpty())
  }

  /** The loop of `_remove_empty_intervalsets`: copies the non-empty entries into a new dict. */
  method RemoveEmptyIntervalSets<K(==,!new), P>(d: Dict<K, IntervalSet3D<P>>) returns (r: Dict<K, IntervalSet3D<P>>)
    requires d.Valid()
    ensures r == RemoveEmpty(d)
  {
    r := Dict([], map[]);
    for i := 0 to |d.keys|
      invariant r.keys == Seqs.Filter(d.keys[..i], Passes(d, NonEmpty()))
      invariant forall k :: k in r.entries <==> k in d.keys[..i] && |d.entries[k].intrvls| > 0
      invariant forall k :: k in r.entries ==> r.entries[k] == d.entries[k]
    {
      r := KeepIfNonEmpty(d, i, r);
    }
    assert d.keys[..|d.keys|] == d.keys;
    assert r.entries == RemoveEmpty(d).entries;
  }

  /** One round of that loop: the `i`-th entry is copied when its set is non-empty. */
  method KeepIfNonEmpty<K(==,!new), P>(d: Dict<K, IntervalSet3D<P>>, i: nat, r: Dict<K, IntervalSet3D<P>>)
    returns (r': Dict<K, IntervalSet3D<P>>)
    requires d.Valid() && i < |d.keys|
    requires r.keys == Seqs.Filter(d.keys[..i], Passes(d, NonEmpty()))
    requires forall k :: k in r.entries <==> k in d.keys[..i] && |d.entries[k].intrvls| > 0
    requires forall k :: k in r.entries ==> r.entries[k] == d.entries[k]
    ensures r'.keys == Seqs.Filter(d.keys[..i + 1], Passes(d, NonEmpty()))
    ensures forall k :: k in r'.entries <==> k in d.keys[..i + 1] && |d.entries[k].intrvls| > 0
    ensures forall k :: k in r'.entries ==> r'.entries[k] == d.entries[k]
  {
    var key := d.keys[i];
    Seqs.FilterPrefixStep(d.keys, i, Passes(d, NonEmpty()));
    assert d.keys[..i + 1] == d.keys[..i] + [key];
    if |d.entries[key].intrvls| > 0 {
      r' := Dict(r.keys + [key], r.entries[key := d.entries[key]]);
    } else {
      r' := r;
    }
  }

  /** A unary operation lifted over the keys: applied to every set, the empty results dropped. */
  function LiftUnary<K(==,!new), P, Q>(d: Dict<K, IntervalSet3D<P>>, op: IntervalSet3D<P> -> IntervalSet3D<Q>)
    : (r: Dict<K, IntervalSet3D<Q>>)
    requires d.Valid()
    ensures r.Valid()
    ensures forall k :: k in r.entries <==> k in d.entries && |op(d.entries[k]).intrvls| > 0
    ensures forall k :: k in r.entries ==> r.entries[k] == op(d.entries[k])
  {
    RemoveEmpty(MapValues(d, op))
  }
}
