// `rekall/payload_predicates.py`: lifting a predicate on payloads to a
// predicate on intervals, for one or two intervals.

module PayloadPredicates {
  import opened Common
  import opened Temporal

  /**
   * A Python callable on payloads, seen through the two ways the adapter can
   * call it: with one payload and with two.
   */
  datatype PayloadPred<-P> = PayloadPred(one: P -> bool, two: (P, P) -> bool)

  /** `payload_satisfies(pred, arity)`: arity 1 and 2 give interval predicates; any other panics. */
  function PayloadSatisfies<P>(pred: PayloadPred<P>, arity: int): (r: Result<ArityPred<Interval<P>>>)
    ensures r.Ok? <==> arity == 1 || arity == 2
    ensures r.Err? ==> r.error == Panic
    ensures arity == 1 ==> r.value.Unary?
    ensures arity == 2 ==> r.value.Binary?
  {
    if arity == 1 then Ok(Unary((i: Interval<P>) => pred.one(i.payload)))
    else if arity == 2 then Ok(Binary((a: Interval<P>, b: Interval<P>) => pred.two(a.payload, b.payload)))
    else Err(Panic)
  }

  /** Arity 1 tests the one interval's payload; arity 2 tests the two payloads in argument order. */
  lemma PayloadSatisfiesMeaning<P>(pred: PayloadPred<P>, a: Interval<P>, b: Interval<P>)
    ensures PayloadSatisfies(pred, 1).value.f(a) == pred.one(a.payload)
    ensures PayloadSatisfies(pred, 2).value.g(a, b) == pred.two(a.payload, b.payload)
  {
  }

  /** The adapted predicates never read the bounds: intervals with equal payloads get equal answers. */
  lemma PayloadOnly<P>(pred: PayloadPred<P>, arity: int, a: Interval<P>, b: Interval<P>, c: Interval<P>, d: Interval<P>)
    requires a.payload == c.payload && b.payload == d.payload
    ensures var r := PayloadSatisfies(pred, arity);
            r.Ok? ==> (r.value.Unary? ==> r.value.f(a) == r.value.f(c)) &&
                      (r.value.Binary? ==> r.value.g(a, b) == r.value.g(c, d))
  {
  }

  /** With arity 2 the payloads reach `pred` in argument order. */
  lemma BinaryArgumentOrder(a: Interval<int>, b: Interval<int>)
    requires a.payload < b.payload
    ensures var less := PayloadPred((p: int) => false, (p: int, q: int) => p < q);
            var r := PayloadSatisfies(less, 2);
            r.Ok? && r.value.Binary? && r.value.g(a, b) && !r.value.g(b, a)
  {
  }
}
