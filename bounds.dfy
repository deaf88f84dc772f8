// The bound records of the `rekallpy` package: a one-dimensional (time)
// bound and a three-dimensional (time, x, y) bound, their tuple order, their
// construction from tuples, and the casts that let a time predicate read a
// spatial axis.

module Bounds {
  import opened Common
  import opened LexSort
  import Seqs

  // -------------------------------------------------------------------
  // Bounds3D

  /** A (t, x, y) bound; an omitted spatial extent is the whole frame [0, 1]. */
  datatype Bounds3D = Bounds3D(t1: real, t2: real,
                               x1: real := 0.0, x2: real := 1.0,
                               y1: real := 0.0, y2: real := 1.0)
  {
    /** The tuple (t1, t2, x1, x2, y1, y2) that `<` compares. */
    function AsTuple(): seq<real>
    {
      [t1, t2, x1, x2, y1, y2]
    }

    /** The axis an ordering or a join works along. */
    function PrimaryAxis(): (axis: (string, string))
      ensures axis.0 == "t1" && axis.1 == "t2"
    {
      ("t1", "t2")
    }
  }

  /** Omitting the spatial co-ordinates gives the full frame x = [0, 1], y = [0, 1]. */
  lemma DefaultFrame(t1: real, t2: real)
    ensures Bounds3D(t1, t2) == Bounds3D(t1, t2, 0.0, 1.0, 0.0, 1.0)
    ensures Bounds3D(t1, t2).AsTuple()[2..] == [0.0, 1.0, 0.0, 1.0]
  {
  }

  /** `Bounds3D(*list(tuple))`: two to six values fill t1, t2, x1, x2, y1, y2 in order. */
  function FromTuple3D(tuple: seq<real>): (r: Result<Bounds3D>)
    ensures r.Ok? <==> 2 <= |tuple| <= 6
    ensures r.Ok? ==> r.value.AsTuple()[..|tuple|] == tuple
    ensures r.Ok? ==> r.value.AsTuple()[|tuple|..] == [0.0, 1.0, 0.0, 1.0][|tuple| - 2..]
  {
    if |tuple| < 2 || |tuple| > 6 then Err(TypeMismatch)
    else
      var full := tuple + [0.0, 1.0, 0.0, 1.0][|tuple| - 2..];
      Ok(Bounds3D(full[0], full[1], full[2], full[3], full[4], full[5]))
  }

  /** `fromTuple` of a bound's own six co-ordinates gives the bound back. */
  lemma FromTuple3DRoundTrip(b: Bounds3D)
    ensures FromTuple3D(b.AsTuple()) == Ok(b)
  {
  }

  /** `fromTuple((t1, t2))` is the two-argument constructor. */
  lemma FromTuple3DPair(t1: real, t2: real)
    ensures FromTuple3D([t1, t2]) == Ok(Bounds3D(t1, t2))
  {
  }

  /** `Bounds3D.__lt__`: lexicographic over (t1, t2, x1, x2, y1, y2). */
  predicate Less3D(a: Bounds3D, b: Bounds3D)
  {
    LexLt(a.AsTuple(), b.AsTuple())
  }

  lemma Less3DIsStrictOrder(a: Bounds3D, b: Bounds3D, c: Bounds3D)
    ensures !Less3D(a, a)
    ensures Less3D(a, b) && Less3D(b, c) ==> Less3D(a, c)
    ensures Less3D(a, b) || Less3D(b, a) || a == b
    ensures !(Less3D(a, b) && Less3D(b, a))
  {
    LexLtIrreflexive(a.AsTuple());
    if Less3D(a, b) && Less3D(b, c) {
      LexLtTransitive(a.AsTuple(), b.AsTuple(), c.AsTuple());
    }
    LexLtTrichotomy(a.AsTuple(), b.AsTuple());
  }

  /** The ordering cases the bounds tests check. */
  lemma Less3DExamples()
    ensures Less3D(Bounds3D(0.0, 1.0), Bounds3D(0.0, 2.0))
    ensures Less3D(Bounds3D(0.0, 1.0), Bounds3D(1.0, 1.0))
    ensures !Less3D(Bounds3D(0.0, 2.0), Bounds3D(0.0, 1.0))
    ensures !Less3D(Bounds3D(1.0, 1.0), Bounds3D(0.0, 1.0))
    ensures Less3D(Bounds3D(0.0, 1.0), Bounds3D(0.0, 1.0, 0.0, 1.0, 1.0, 0.0))
    ensures Less3D(Bounds3D(0.0, 1.0), Bounds3D(0.0, 1.0, 1.0, 0.0, 0.0, 1.0))
    ensures !Less3D(Bounds3D(0.0, 1.0, 0.0, 1.0, 1.0, 0.0), Bounds3D(0.0, 1.0))
    ensures !Less3D(Bounds3D(0.0, 1.0, 1.0, 0.0, 0.0, 1.0), Bounds3D(0.0, 1.0))
  {
    assert Bounds3D(0.0, 1.0).AsTuple()[1..] == [1.0, 0.0, 1.0, 0.0, 1.0];
    assert Bounds3D(0.0, 1.0, 0.0, 1.0, 1.0, 0.0).AsTuple()[1..] == [1.0, 0.0, 1.0, 1.0, 0.0];
    assert Bounds3D(0.0, 1.0, 1.0, 0.0, 0.0, 1.0).AsTuple()[1..] == [1.0, 1.0, 0.0, 0.0, 1.0];
    assert [1.0, 0.0, 1.0, 0.0, 1.0][1..] == [0.0, 1.0, 0.0, 1.0];
    assert [1.0, 0.0, 1.0, 1.0, 0.0][1..] == [0.0, 1.0, 1.0, 0.0];
    assert [1.0, 1.0, 0.0, 0.0, 1.0][1..] == [1.0, 0.0, 0.0, 1.0];
    assert [0.0, 1.0, 0.0, 1.0][1..] == [1.0, 0.0, 1.0];
    assert [0.0, 1.0, 1.0, 0.0][1..] == [1.0, 1.0, 0.0];
    assert [1.0, 0.0, 1.0][1..] == [0.0, 1.0];
    assert [1.0, 1.0, 0.0][1..] == [1.0, 0.0];
  }

  /** What a predicate sees through `Bounds.cast({'t1': 'x1', 't2': 'x2'})`. */
  function CastX(b: Bounds3D): Bounds3D
  {
    b.(t1 := b.x1, t2 := b.x2)
  }

  /** What a predicate sees through `Bounds.cast({'t1': 'y1', 't2': 'y2'})`. */
  function CastY(b: Bounds3D): Bounds3D
  {
    b.(t1 := b.y1, t2 := b.y2)
  }

  /** `Bounds3D.X(pred)`: `pred` applied with 't1'/'t2' read from 'x1'/'x2'. */
  function X(pred: seq<Bounds3D> -> bool): seq<Bounds3D> -> bool
  {
    args => pred(Seqs.Map(args, CastX))
  }

  /** `Bounds3D.Y(pred)`: `pred` applied with 't1'/'t2' read from 'y1'/'y2'. */
  function Y(pred: seq<Bounds3D> -> bool): seq<Bounds3D> -> bool
  {
    args => pred(Seqs.Map(args, CastY))
  }

  /** Arguments that agree on their x and y co-ordinates. */
  predicate SameSpatial(a: seq<Bounds3D>, b: seq<Bounds3D>)
  {
    |a| == |b| &&
    forall i :: 0 <= i < |a| ==> a[i].(t1 := 0.0, t2 := 0.0) == b[i].(t1 := 0.0, t2 := 0.0)
  }

  /**
   * A cast predicate never reads the time co-ordinates: arguments that differ
   * only in t1 and t2 get the same answer from `X(pred)` and from `Y(pred)`.
   */
  lemma CastsIgnoreTime(pred: seq<Bounds3D> -> bool, a: seq<Bounds3D>, b: seq<Bounds3D>)
    requires SameSpatial(a, b)
    ensures X(pred)(a) == X(pred)(b)
    ensures Y(pred)(a) == Y(pred)(b)
  {
    var ma, mb := Seqs.Map(a, CastX), Seqs.Map(b, CastX);
    forall i | 0 <= i < |a| ensures ma[i] == mb[i] {
      assert a[i].(t1 := 0.0, t2 := 0.0) == b[i].(t1 := 0.0, t2 := 0.0);
    }
    assert ma == mb;
    var na, nb := Seqs.Map(a, CastY), Seqs.Map(b, CastY);
    forall i | 0 <= i < |a| ensures na[i] == nb[i] {
      assert a[i].(t1 := 0.0, t2 := 0.0) == b[i].(t1 := 0.0, t2 := 0.0);
    }
    assert na == nb;
  }

  /** The casting example of the bounds tests: `t2 > t1` holds, but not through X or Y. */
  lemma CastExample()
    ensures var later := (args: seq<Bounds3D>) => |args| == 1 && args[0].t2 > args[0].t1;
            var b := Bounds3D(0.0, 1.0, 1.0, 0.0, 1.0, 0.0);
            later([b]) && !X(later)([b]) && !Y(later)([b])
  {
    var b := Bounds3D(0.0, 1.0, 1.0, 0.0, 1.0, 0.0);
    assert Seqs.Map([b], CastX) == [CastX(b)];
    assert Seqs.Map([b], CastY) == [CastY(b)];
  }

  // -------------------------------------------------------------------
  // Bounds1D

  /** A time bound [t1, t2]. */
  datatype Bounds1D = Bounds1D(t1: real, t2: real)
  {
    function AsTuple(): seq<real>
    {
      [t1, t2]
    }

    function PrimaryAxis(): (axis: (string, string))
      ensures axis.0 == "t1" && axis.1 == "t2"
    {
      ("t1", "t2")
    }
  }

  /** `Bounds1D(*list(tuple))`: exactly two values. */
  function FromTuple1D(tuple: seq<real>): (r: Result<Bounds1D>)
    ensures r.Ok? <==> |tuple| == 2
    ensures r.Ok? ==> r.value.AsTuple() == tuple
  {
    if |tuple| != 2 then Err(TypeMismatch) else Ok(Bounds1D(tuple[0], tuple[1]))
  }

  /** `Bounds1D.__lt__`: by t1, then t2. */
  predicate Less1D(a: Bounds1D, b: Bounds1D)
  {
    LexLt(a.AsTuple(), b.AsTuple())
  }

  /** `<` on time bounds is a strict total order: exactly one of a < b, b < a, a = b. */
  lemma Less1DTrichotomy(a: Bounds1D, b: Bounds1D)
    ensures !Less1D(a, a)
    ensures Less1D(a, b) <==> a.t1 < b.t1 || (a.t1 == b.t1 && a.t2 < b.t2)
    ensures Less1D(a, b) || Less1D(b, a) || a == b
    ensures !(Less1D(a, b) && Less1D(b, a)) && !(a == b && Less1D(a, b))
  {
    LexLtIrreflexive(a.AsTuple());
    LexLtTrichotomy(a.AsTuple(), b.AsTuple());
    assert a.AsTuple()[1..] == [a.t2] && b.AsTuple()[1..] == [b.t2];
    assert [a.t2][1..] == [] && [b.t2][1..] == [];
  }

  lemma Less1DExamples()
    ensures Less1D(Bounds1D(0.0, 1.0), Bounds1D(0.0, 2.0))
    ensures Less1D(Bounds1D(0.0, 1.0), Bounds1D(1.0, 1.0))
    ensures !Less1D(Bounds1D(0.0, 2.0), Bounds1D(0.0, 1.0))
    ensures !Less1D(Bounds1D(1.0, 1.0), Bounds1D(0.0, 1.0))
    ensures FromTuple1D([0.0, 1.0]) == Ok(Bounds1D(0.0, 1.0))
  {
    Less1DTrichotomy(Bounds1D(0.0, 1.0), Bounds1D(0.0, 2.0));
    Less1DTrichotomy(Bounds1D(0.0, 1.0), Bounds1D(1.0, 1.0));
    Less1DTrichotomy(Bounds1D(0.0, 2.0), Bounds1D(0.0, 1.0));
    Less1DTrichotomy(Bounds1D(1.0, 1.0), Bounds1D(0.0, 1.0));
  }
}
