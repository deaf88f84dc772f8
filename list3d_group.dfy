// `IntervalList3D.experimental_group_by_interval` of
// `rekall/interval_list_3d.py`: the boxes with the same six bounds collapse
// into one box whose payload is the list of their payloads, in list order.

module List3DGroup {
  import opened LexSort
  import opened IntervalList3DModel
  import Seqs

  /** The distinct bounds in order of first occurrence (the order of the dict's keys). */
  function BoundsKeys<P>(s: seq<Interval3D<P>>): seq<Bounds>
  {
    if s == [] then []
    else
      var ks := BoundsKeys(s[..|s| - 1]);
      if BoundsOf(s[|s| - 1]) in ks then ks else ks + [BoundsOf(s[|s| - 1])]
  }

  /** The payloads of the boxes with bounds `k`, in list order. */
  function PayloadsAt<P>(s: seq<Interval3D<P>>, k: Bounds): seq<P>
  {
    if s == [] then []
    else PayloadsAt(s[..|s| - 1], k) + (if BoundsOf(s[|s| - 1]) == k then [s[|s| - 1].payload] else [])
  }

  /** The box one key of the dict becomes. */
  function Collapsed<P>(s: seq<Interval3D<P>>): Bounds -> Interval3D<seq<P>>
  {
    k => FromBounds(k, PayloadsAt(s, k))
  }

  /** What `experimental_group_by_interval()` returns. */
  function GroupByIntervalSpec<P>(L: IntervalList3D<P>): IntervalList3D<seq<P>>
  {
    Make(Seqs.Map(BoundsKeys(L.intrvls), Collapsed(L.intrvls)))
  }

  /** The keys are distinct, each comes from some box, and every box's bounds are among them. */
  lemma {:induction false} BoundsKeysMeaning<P>(s: seq<Interval3D<P>>)
    ensures var ks := BoundsKeys(s);
            (forall i, j :: 0 <= i < j < |ks| ==> ks[i] != ks[j]) &&
            (forall i :: 0 <= i < |s| ==> BoundsOf(s[i]) in ks) &&
            (forall j :: 0 <= j < |ks| ==> exists i :: 0 <= i < |s| && BoundsOf(s[i]) == ks[j])
  {
    if s != [] {
      var n := |s| - 1;
      BoundsKeysMeaning(s[..n]);
      var ks := BoundsKeys(s);
      forall j | 0 <= j < |ks| ensures exists i :: 0 <= i < |s| && BoundsOf(s[i]) == ks[j] {
        if j < |BoundsKeys(s[..n])| {
          var i :| 0 <= i < n && BoundsOf(s[..n][i]) == ks[j];
          assert BoundsOf(s[i]) == ks[j];
        } else {
          assert BoundsOf(s[n]) == ks[j];
        }
      }
      forall i | 0 <= i < |s| ensures BoundsOf(s[i]) in ks {
        if i < n {
          assert BoundsOf(s[..n][i]) in BoundsKeys(s[..n]);
        }
      }
    }
  }

  /** One more box adds its payload to the list of its own bounds and to no other. */
  lemma PayloadsAtStep<P>(s: seq<Interval3D<P>>, i: int, k: Bounds)
    requires 0 <= i < |s|
    ensures PayloadsAt(s[..i + 1], k) == PayloadsAt(s[..i], k) + (if BoundsOf(s[i]) == k then [s[i].payload] else [])
  {
    assert s[..i + 1][..i] == s[..i];
  }

  /** The bounds of no box yet seen have an empty list. */
  lemma {:induction false} PayloadsAtUnseen<P>(s: seq<Interval3D<P>>, k: Bounds)
    requires k !in BoundsKeys(s)
    ensures PayloadsAt(s, k) == []
  {
    if s != [] {
      PayloadsAtUnseen(s[..|s| - 1], k);
    }
  }

  /**
   * The loop of `experimental_group_by_interval`: files each payload under the
   * bounds of its box in a dict, remembering the keys in the order they first
   * appear.
   */
  method FileByBounds<P>(s: seq<Interval3D<P>>) returns (keys: seq<Bounds>, output: map<Bounds, seq<P>>)
    ensures keys == BoundsKeys(s)
    ensures forall k :: k in output <==> k in keys
    ensures forall k :: k in output ==> output[k] == PayloadsAt(s, k)
  {
    keys, output := [], map[];
    for i := 0 to |s|
      invariant keys == BoundsKeys(s[..i])
      invariant forall k :: k in output <==> k in keys
      invariant forall k :: k in output ==> output[k] == PayloadsAt(s[..i], k)
    {
      var intrvl := s[i];
      var key := BoundsOf(intrvl);
      assert s[..i + 1][..i] == s[..i];
      if key !in output {
        PayloadsAtUnseen(s[..i], key);
        output := output[key := [intrvl.payload]];
        keys := keys + [key];
      } else {
        output := output[key := output[key] + [intrvl.payload]];
      }
      forall k | k in output ensures output[k] == PayloadsAt(s[..i + 1], k) {
        PayloadsAtStep(s, i, k);
      }
    }
    assert s[..|s|] == s;
  }

  /** `experimental_group_by_interval()` */
  method GroupByInterval<P>(L: IntervalList3D<P>) returns (r: IntervalList3D<seq<P>>)
    ensures r == GroupByIntervalSpec(L)
  {
    var keys, output := FileByBounds(L.intrvls);
    var collapsed := seq(|keys|, j requires 0 <= j < |keys| => FromBounds(keys[j], output[keys[j]]));
    assert collapsed == Seqs.Map(keys, Collapsed(L.intrvls));
    r := Make(collapsed);
  }

  /** Every output is the collapsed box of one of the keys, and every key's box is an output. */
  lemma CollapsedMembers<P>(s: seq<Interval3D<P>>, x: Interval3D<seq<P>>)
    ensures x in Make(Seqs.Map(BoundsKeys(s), Collapsed(s))).intrvls <==>
            exists j :: 0 <= j < |BoundsKeys(s)| && x == Collapsed(s)(BoundsKeys(s)[j])
  {
    var m := Seqs.Map(BoundsKeys(s), Collapsed(s));
    MakeElements(m, x);
  }

  /**
   * One box per distinct bounds of the input: every input's bounds appear,
   * no two outputs have the same bounds, and each output's payload is the
   * (non-empty) list of the payloads of the inputs with its bounds, in input
   * order.
   */
  lemma GroupByIntervalMeaning<P>(L: IntervalList3D<P>)
    ensures var s := L.intrvls;
            var r := GroupByIntervalSpec(L).intrvls;
            (forall i :: 0 <= i < |s| ==> exists j :: 0 <= j < |r| && BoundsOf(r[j]) == BoundsOf(s[i])) &&
            (forall i, j :: 0 <= i < j < |r| ==> BoundsOf(r[i]) != BoundsOf(r[j])) &&
            (forall j :: 0 <= j < |r| ==> r[j].payload == PayloadsAt(s, BoundsOf(r[j])) && |r[j].payload| > 0)
  {
    GroupCovers(L);
    GroupDistinct(L.intrvls, GroupByIntervalSpec(L).intrvls);
    GroupPayloads(L.intrvls, GroupByIntervalSpec(L).intrvls);
  }

  /** Some box of `r` has the bounds `k`. */
  ghost predicate HasBounds<Q>(r: seq<Interval3D<Q>>, k: Bounds)
  {
    exists j :: 0 <= j < |r| && BoundsOf(r[j]) == k
  }

  lemma GroupCovers<P>(L: IntervalList3D<P>)
    ensures forall i :: 0 <= i < |L.intrvls| ==> HasBounds(GroupByIntervalSpec(L).intrvls, BoundsOf(L.intrvls[i]))
  {
    forall i | 0 <= i < |L.intrvls| ensures HasBounds(GroupByIntervalSpec(L).intrvls, BoundsOf(L.intrvls[i])) {
      GroupCoversOne(L.intrvls, GroupByIntervalSpec(L).intrvls, i);
    }
  }

  lemma GroupDistinct<P>(s: seq<Interval3D<P>>, r: seq<Interval3D<seq<P>>>)
    requires r == Make(Seqs.Map(BoundsKeys(s), Collapsed(s))).intrvls
    ensures forall i, j :: 0 <= i < j < |r| ==> BoundsOf(r[i]) != BoundsOf(r[j])
  {
    forall i, j | 0 <= i < j < |r| ensures BoundsOf(r[i]) != BoundsOf(r[j]) {
      DistinctBoundsInMake(BoundsKeys(s), s, i, j);
    }
  }

  lemma GroupPayloads<P>(s: seq<Interval3D<P>>, r: seq<Interval3D<seq<P>>>)
    requires r == Make(Seqs.Map(BoundsKeys(s), Collapsed(s))).intrvls
    ensures forall j :: 0 <= j < |r| ==> r[j].payload == PayloadsAt(s, BoundsOf(r[j])) && |r[j].payload| > 0
  {
    forall j | 0 <= j < |r| ensures r[j].payload == PayloadsAt(s, BoundsOf(r[j])) && |r[j].payload| > 0 {
      GroupPayload(s, r[j]);
    }
  }

  /** Every box's bounds are among the distinct keys. */
  lemma KeyOfInput<P>(s: seq<Interval3D<P>>, i: int)
    requires 0 <= i < |s|
    ensures BoundsOf(s[i]) in BoundsKeys(s)
  {
    BoundsKeysMeaning(s);
  }

  /** The bounds of each input box name a box of the grouped list. */
  lemma GroupCoversOne<P>(s: seq<Interval3D<P>>, r: seq<Interval3D<seq<P>>>, i: int)
    requires 0 <= i < |s|
    requires r == Make(Seqs.Map(BoundsKeys(s), Collapsed(s))).intrvls
    ensures HasBounds(r, BoundsOf(s[i]))
  {
    var ks := BoundsKeys(s);
    var m := Seqs.Map(ks, Collapsed(s));
    KeyOfInput(s, i);
    var j :| 0 <= j < |ks| && ks[j] == BoundsOf(s[i]);
    var x := m[j];
    assert x in m;
    MakeElements(m, x);
    MemberHasBounds(r, x);
  }

  lemma MemberHasBounds<Q>(r: seq<Interval3D<Q>>, x: Interval3D<Q>)
    requires x in r
    ensures HasBounds(r, BoundsOf(x))
  {
    var j :| 0 <= j < |r| && r[j] == x;
    assert BoundsOf(r[j]) == BoundsOf(x);
  }

  lemma GroupPayload<P>(s: seq<Interval3D<P>>, x: Interval3D<seq<P>>)
    requires x in Make(Seqs.Map(BoundsKeys(s), Collapsed(s))).intrvls
    ensures x.payload == PayloadsAt(s, BoundsOf(x)) && |x.payload| > 0
  {
    var ks := BoundsKeys(s);
    CollapsedMembers(s, x);
    var jj :| 0 <= jj < |ks| && x == Collapsed(s)(ks[jj]);
    BoundsKeysMeaning(s);
    var i :| 0 <= i < |s| && BoundsOf(s[i]) == ks[jj];
    PayloadsAtSeen(s, i);
  }

  /** The bounds of a box of the list have a non-empty list of payloads. */
  lemma {:induction false} PayloadsAtSeen<P>(s: seq<Interval3D<P>>, i: int)
    requires 0 <= i < |s|
    ensures |PayloadsAt(s, BoundsOf(s[i]))| > 0
  {
    var n := |s| - 1;
    if i < n {
      PayloadsAtSeen(s[..n], i);
      assert s[..n][i] == s[i];
    }
  }

  /** Sorting the collapsed boxes keeps their bounds distinct. */
  lemma DistinctBoundsInMake<P>(ks: seq<Bounds>, s: seq<Interval3D<P>>, i: int, j: int)
    requires ks == BoundsKeys(s)
    requires 0 <= i < j < |Make(Seqs.Map(ks, Collapsed(s))).intrvls|
    ensures var r := Make(Seqs.Map(ks, Collapsed(s))).intrvls;
            BoundsOf(r[i]) != BoundsOf(r[j])
  {
    var m := Seqs.Map(ks, Collapsed(s));
    var r := Make(m).intrvls;
    if BoundsOf(r[i]) == BoundsOf(r[j]) {
      BoundsKeysMeaning(s);
      assert r[i] in r && r[j] in r;
      CollapsedMembers(s, r[i]);
      CollapsedMembers(s, r[j]);
      var a :| 0 <= a < |ks| && r[i] == Collapsed(s)(ks[a]);
      var b :| 0 <= b < |ks| && r[j] == Collapsed(s)(ks[b]);
      assert ks[a] == ks[b];
      OnceInMap(ks, s, a);
      TwiceInSeq(r, i, j);
      assert false;
    }
  }

  lemma TwiceInSeq<T>(r: seq<T>, i: int, j: int)
    requires 0 <= i < j < |r| && r[i] == r[j]
    ensures multiset(r)[r[i]] >= 2
  {
    assert r == r[..j] + [r[j]] + r[j + 1..];
    assert r[i] in r[..j];
    assert multiset(r) == multiset(r[..j]) + multiset{r[j]} + multiset(r[j + 1..]);
  }

  /** The box of a key occurs once among the collapsed boxes of distinct keys. */
  lemma {:induction false} OnceInMap<P>(ks: seq<Bounds>, s: seq<Interval3D<P>>, a: int)
    requires forall x, y :: 0 <= x < y < |ks| ==> ks[x] != ks[y]
    requires 0 <= a < |ks|
    ensures multiset(Seqs.Map(ks, Collapsed(s)))[Collapsed(s)(ks[a])] == 1
    decreases |ks|
  {
    var n := |ks| - 1;
    var f := Collapsed(s);
    var front := Seqs.Map(ks[..n], f);
    assert Seqs.Map(ks, f) == front + [f(ks[n])];
    assert forall b :: 0 <= b < n ==> BoundsOf(front[b]) == ks[b];
    if a == n {
      assert f(ks[n]) !in front;
    } else {
      OnceInMap(ks[..n], s, a);
      assert BoundsOf(f(ks[n])) == ks[n] != ks[a] == BoundsOf(f(ks[a]));
    }
  }
}
