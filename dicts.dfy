// Python's `dict` as the keyed collections use it: one entry per key, iterated
// in the order in which the keys were first inserted.

module Dicts {
  import opened Common
  import Seqs

  /** No key is listed twice. */
  ghost predicate Distinct<K(!new)>(ks: seq<K>)
  {
    forall i, j :: 0 <= i < j < |ks| ==> ks[i] != ks[j]
  }

  /** The keys in insertion order, and the entry under each. */
  datatype Dict<K(==,!new), V> = Dict(keys: seq<K>, entries: map<K, V>)
  {
    /** Every key is listed once, and the listed keys are exactly those with an entry. */
    ghost predicate Valid()
    {
      Distinct(keys) && forall k :: k in entries <==> k in keys
    }

    /** `d.get(k, default)` */
    function Get(k: K, default: V): V
    {
      if k in entries then entries[k] else default
    }

    /** `d[k] = v`: a new key goes last, a key already present keeps its place. */
    function Set(k: K, v: V): (r: Dict<K, V>)
      ensures Valid() ==> r.Valid()
      ensures forall j :: j in r.entries <==> j == k || j in entries
      ensures forall j :: j in r.entries ==> r.entries[j] == if j == k then v else entries[j]
      ensures k in keys ==> r.keys == keys
      ensures k !in keys ==> r.keys == keys + [k]
    {
      Dict(if k in keys then keys else keys + [k], entries[k := v])
    }

    /** `del d[k]`: a KeyError when `k` has no entry; otherwise the other keys keep their order. */
    function Delete(k: K): (r: Result<Dict<K, V>>)
      ensures r.Err? <==> k !in entries
      ensures r.Err? ==> r.error == KeyMissing
      ensures Valid() && r.Ok? ==> r.value.Valid()
      ensures r.Ok? ==> k !in r.value.entries
      ensures r.Ok? ==> forall j :: j in r.value.entries <==> j != k && j in entries
      ensures r.Ok? ==> forall j :: j in r.value.entries ==> r.value.entries[j] == entries[j]
    {
      if k !in entries then Err(KeyMissing)
      else
        var ks := Seqs.Filter(keys, Other(k));
        Seqs.FilterMembers(keys, Other(k));
        FilterDistinct(keys, Other(k));
        Ok(Dict(ks, entries - {k}))
    }

    /** `len(d)` */
    function Len(): nat
    {
      |keys|
    }
  }

  function Other<K(==,!new)>(k: K): K -> bool
  {
    j => j != k
  }

  /** A sequence without repetitions lists as many elements as the set it enumerates. */
  lemma {:induction false} DistinctCount<K(!new)>(ks: seq<K>, s: set<K>)
    requires Distinct(ks)
    requires forall k :: k in s <==> k in ks
    ensures |ks| == |s|
  {
    if ks != [] {
      var n := |ks| - 1;
      assert forall k :: k in s - {ks[n]} <==> k in ks[..n] by {
        forall k ensures k in s - {ks[n]} <==> k in ks[..n] {
          if k in ks && k != ks[n] {
            var i :| 0 <= i < |ks| && ks[i] == k;
            assert ks[..n][i] == k;
          }
        }
      }
      DistinctCount(ks[..n], s - {ks[n]});
    }
  }

  /** Dropping elements keeps a sequence free of repetitions. */
  lemma {:induction false} FilterDistinct<K(!new)>(ks: seq<K>, p: K -> bool)
    ensures Distinct(ks) ==> Distinct(Seqs.Filter(ks, p))
  {
    if ks != [] && Distinct(ks) {
      var n := |ks| - 1;
      assert Distinct(ks[..n]);
      FilterDistinct(ks[..n], p);
      Seqs.FilterMembers(ks[..n], p);
      assert ks[n] !in ks[..n];
    }
  }

  // -------------------------------------------------------------------
  // Comprehensions over a dict

  /** The keys whose entry passes `p`. */
  function Passes<K(==,!new), V>(d: Dict<K, V>, p: V -> bool): K -> bool
  {
    k => k in d.entries && p(d.entries[k])
  }

  /** The entries whose value passes `p`, in their order. */
  function Keep<K(==,!new), V>(d: Dict<K, V>, p: V -> bool): (r: Dict<K, V>)
    requires d.Valid()
    ensures r.Valid()
    ensures forall k :: k in r.entries <==> k in d.entries && p(d.entries[k])
    ensures forall k :: k in r.entries ==> r.entries[k] == d.entries[k]
  {
    var ks := Seqs.Filter(d.keys, Passes(d, p));
    Seqs.FilterMembers(d.keys, Passes(d, p));
    FilterDistinct(d.keys, Passes(d, p));
    Dict(ks, map k | k in d.entries && p(d.entries[k]) :: d.entries[k])
  }

  /** The same keys in the same order, each value transformed by `f`. */
  function MapValues<K(==,!new), V, U>(d: Dict<K, V>, f: V -> U): (r: Dict<K, U>)
    ensures d.Valid() ==> r.Valid()
    ensures r.keys == d.keys
    ensures forall k :: k in r.entries <==> k in d.entries
    ensures forall k :: k in r.entries ==> r.entries[k] == f(d.entries[k])
  {
    Dict(d.keys, map k | k in d.entries :: f(d.entries[k]))
  }

  /** The dict from each key of `ks` (listed once) to its image under `f`. */
  function Comprehend<K(==,!new), V>(ks: seq<K>, f: K -> V): (r: Dict<K, V>)
    requires Distinct(ks)
    ensures r.Valid()
    ensures r.keys == ks
    ensures forall k :: k in r.entries ==> r.entries[k] == f(k)
  {
    Dict(ks, map k | k in ks :: f(k))
  }

  /** Keys of `d2` that `d1` lacks. */
  function NotIn<K(==,!new), V>(d1: Dict<K, V>): K -> bool
  {
    k => k !in d1.entries
  }

  /** Both dicts in one, `d2` winning on a shared key; `d1`'s keys come first. */
  function Merge<K(==,!new), V>(d1: Dict<K, V>, d2: Dict<K, V>): (r: Dict<K, V>)
    requires d1.Valid() && d2.Valid()
    ensures r.Valid()
    ensures forall k :: k in r.entries <==> k in d1.entries || k in d2.entries
    ensures forall k :: k in r.entries ==> r.entries[k] == if k in d2.entries then d2.entries[k] else d1.entries[k]
  {
    var added := Seqs.Filter(d2.keys, NotIn(d1));
    Seqs.FilterMembers(d2.keys, NotIn(d1));
    FilterDistinct(d2.keys, NotIn(d1));
    Dict(d1.keys + added, d1.entries + d2.entries)
  }

  /** `len(d)` counts the keys that have an entry. */
  lemma LenCountsKeys<K(!new), V>(d: Dict<K, V>)
    requires d.Valid()
    ensures d.Len() == |d.entries.Keys|
  {
    DistinctCount(d.keys, d.entries.Keys);
  }

  /** Setting a key and reading it back gives what was set; deleting it leaves it absent. */
  lemma SetThenDelete<K(!new), V>(d: Dict<K, V>, k: K, v: V, default: V)
    requires d.Valid()
    ensures d.Set(k, v).Get(k, default) == v
    ensures d.Set(k, v).Delete(k).Ok?
    ensures d.Set(k, v).Delete(k).value.Get(k, default) == default
    ensures d.Set(k, v).Len() == if k in d.entries then d.Len() else d.Len() + 1
  {
  }
}
