// `VideoIntervalCollection3D` of `rekall/video_interval_collection_3d.py`: a
// dict from video id to the `IntervalSet3D` of that video. Every lifted
// operation builds its result dict entry by entry in a loop. Unlike the domain
// collection, a binary operation only runs on the videos both sides have.

module VideoCollection {
  import opened Common
  import opened IntervalSet3DModel
  import opened Dicts
  import opened KeyedSets
  import Seqs

  class VideoIntervalCollection3D<K(==,!new), P> {
    /** `_video_map`, which `get_allintervals()` returns. */
    var videoMap: Dict<K, IntervalSet3D<P>>

    /** The dict is a well-formed Python dict: each video listed once, exactly the videos with an entry. */
    ghost predicate Valid()
      reads this
    {
      videoMap.Valid()
    }

    constructor (m: Dict<K, IntervalSet3D<P>>)
      requires m.Valid()
      ensures Valid() && videoMap == m
    {
      videoMap := m;
    }

    /** A unary method lifted: the operation on every video's set, the empty results dropped. */
    method Unary<Q>(op: IntervalSet3D<P> -> IntervalSet3D<Q>) returns (r: Dict<K, IntervalSet3D<Q>>)
      requires Valid()
      ensures r == LiftUnary(videoMap, op)
    {
      var m := MapEach(videoMap, op);
      r := RemoveEmptyIntervalSets(m);
    }

    /**
     * A binary method lifted: for every video of the receiver that `other`
     * also has, the receiver's set combined with `other`'s; the empty results
     * dropped.
     */
    method Binary<Q>(other: VideoIntervalCollection3D<K, P>, op: (IntervalSet3D<P>, IntervalSet3D<P>) -> IntervalSet3D<Q>)
      returns (r: Dict<K, IntervalSet3D<Q>>)
      requires Valid() && other.Valid()
      ensures r == LiftShared(videoMap, other.videoMap, op)
    {
      var selfmap := videoMap;
      var othermap := other.videoMap;
      var m: Dict<K, IntervalSet3D<Q>> := Dict([], map[]);
      for i := 0 to |selfmap.keys|
        invariant m.keys == Seqs.Filter(selfmap.keys[..i], InBoth(othermap))
        invariant forall k :: k in m.entries <==> k in selfmap.keys[..i] && k in othermap.entries
        invariant forall k :: k in m.entries ==> m.entries[k] == op(selfmap.entries[k], othermap.entries[k])
      {
        m := CombineShared(selfmap, othermap, op, i, m);
      }
      assert selfmap.keys[..|selfmap.keys|] == selfmap.keys;
      SharedComprehension(selfmap, othermap, op, m);
      r := RemoveEmptyIntervalSets(m);
    }

    /** An out-of-system method lifted: a plain dict from every video to the operation's result. */
    method OutOfSystem<A>(op: IntervalSet3D<P> -> A) returns (r: Dict<K, A>)
      requires Valid()
      ensures r == MapValues(videoMap, op)
    {
      r := MapEach(videoMap, op);
    }
  }

  /** The loop shared by the lifted methods: `video_map[key] = op(intervalset)` for every entry. */
  method MapEach<K(==,!new), V, U>(d: Dict<K, V>, op: V -> U) returns (m: Dict<K, U>)
    requires d.Valid()
    ensures m == MapValues(d, op)
  {
    m := Dict([], map[]);
    for i := 0 to |d.keys|
      invariant m.keys == d.keys[..i]
      invariant forall k :: k in m.entries <==> k in d.keys[..i]
      invariant forall k :: k in m.entries ==> m.entries[k] == op(d.entries[k])
    {
      assert d.keys[..i + 1] == d.keys[..i] + [d.keys[i]];
      m := Dict(m.keys + [d.keys[i]], m.entries[d.keys[i] := op(d.entries[d.keys[i]])]);
    }
    assert d.keys[..|d.keys|] == d.keys;
    assert m.entries == MapValues(d, op).entries;
  }

  /** The videos of the receiver that `other` also has. */
  function InBoth<K(==,!new), V>(other: Dict<K, V>): K -> bool
  {
    k => k in other.entries
  }

  /**
   * A binary method lifted over the shared videos: the receiver's set is the
   * receiver of the operation and the argument's set its argument; videos
   * whose result is empty are dropped, and the receiver's order is kept.
   */
  function LiftShared<K(==,!new), P, Q>(d1: Dict<K, IntervalSet3D<P>>, d2: Dict<K, IntervalSet3D<P>>,
                                       op: (IntervalSet3D<P>, IntervalSet3D<P>) -> IntervalSet3D<Q>)
    : (r: Dict<K, IntervalSet3D<Q>>)
    requires d1.Valid() && d2.Valid()
    ensures r.Valid()
    ensures forall k :: k in r.entries <==>
              k in d1.entries && k in d2.entries && |op(d1.entries[k], d2.entries[k]).intrvls| > 0
    ensures forall k :: k in r.entries ==> r.entries[k] == op(d1.entries[k], d2.entries[k])
  {
    var ks := Seqs.Filter(d1.keys, InBoth(d2));
    Seqs.FilterMembers(d1.keys, InBoth(d2));
    FilterDistinct(d1.keys, InBoth(d2));
    RemoveEmpty(Dict(ks, map k | k in ks :: op(d1.entries[k], d2.entries[k])))
  }

  /** One round of the binary loop: the `i`-th video is combined when `other` has it. */
  method CombineShared<K(==,!new), P, Q>(d1: Dict<K, IntervalSet3D<P>>, d2: Dict<K, IntervalSet3D<P>>,
                                        op: (IntervalSet3D<P>, IntervalSet3D<P>) -> IntervalSet3D<Q>,
                                        i: nat, m: Dict<K, IntervalSet3D<Q>>)
    returns (m': Dict<K, IntervalSet3D<Q>>)
    requires d1.Valid() && i < |d1.keys|
    requires m.keys == Seqs.Filter(d1.keys[..i], InBoth(d2))
    requires forall k :: k in m.entries <==> k in d1.keys[..i] && k in d2.entries
    requires forall k :: k in m.entries ==> m.entries[k] == op(d1.entries[k], d2.entries[k])
    ensures m'.keys == Seqs.Filter(d1.keys[..i + 1], InBoth(d2))
    ensures forall k :: k in m'.entries <==> k in d1.keys[..i + 1] && k in d2.entries
    ensures forall k :: k in m'.entries ==> m'.entries[k] == op(d1.entries[k], d2.entries[k])
  {
    var key := d1.keys[i];
    Seqs.FilterPrefixStep(d1.keys, i, InBoth(d2));
    assert d1.keys[..i + 1] == d1.keys[..i] + [key];
    var otherset := if key in d2.entries then Some(d2.entries[key]) else None;
    if otherset.Some? {
      m' := Dict(m.keys + [key], m.entries[key := op(d1.entries[key], otherset.value)]);
    } else {
      m' := m;
    }
  }

  /** The dict the binary loop builds is the comprehension over the shared videos. */
  lemma SharedComprehension<K(!new), P, Q>(d1: Dict<K, IntervalSet3D<P>>, d2: Dict<K, IntervalSet3D<P>>,
                                          op: (IntervalSet3D<P>, IntervalSet3D<P>) -> IntervalSet3D<Q>,
                                          m: Dict<K, IntervalSet3D<Q>>)
    requires d1.Valid() && d2.Valid()
    requires m.keys == Seqs.Filter(d1.keys, InBoth(d2))
    requires forall k :: k in m.entries <==> k in d1.keys && k in d2.entries
    requires forall k :: k in m.entries ==> m.entries[k] == op(d1.entries[k], d2.entries[k])
    ensures m.Valid()
    ensures RemoveEmpty(m) == LiftShared(d1, d2, op)
  {
    var ks := Seqs.Filter(d1.keys, InBoth(d2));
    Seqs.FilterMembers(d1.keys, InBoth(d2));
    FilterDistinct(d1.keys, InBoth(d2));
    assert m.entries == (map k | k in ks :: op(d1.entries[k], d2.entries[k]));
  }
}
