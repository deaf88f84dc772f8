// The logical predicate combinators. `rekallpy/rekall/predicates.py` and
// `rekall/interval_set_3d_utils.py` define the same five: negation, a
// conjunction and a disjunction of any number of predicates that stop at the
// first deciding predicate, and the two constant predicates. `A` stands for
// the argument tuple `*args` the combined predicates receive.

module Logic {
  import Seqs

  /** `not_pred(pred)` */
  function Not<A>(pred: A -> bool): A -> bool
  {
    args => !pred(args)
  }

  /** The loop of `and_pred(*preds)`: return False at the first predicate that fails. */
  function AllHold<A>(preds: seq<A -> bool>, args: A): bool
  {
    if preds == [] then true
    else if !preds[0](args) then false
    else AllHold(preds[1..], args)
  }

  /** The loop of `or_pred(*preds)`: return True at the first predicate that holds. */
  function AnyHolds<A>(preds: seq<A -> bool>, args: A): bool
  {
    if preds == [] then false
    else if preds[0](args) then true
    else AnyHolds(preds[1..], args)
  }

  /** `and_pred(*preds)` */
  function And<A>(preds: seq<A -> bool>): A -> bool
  {
    args => AllHold(preds, args)
  }

  /** `or_pred(*preds)` */
  function Or<A>(preds: seq<A -> bool>): A -> bool
  {
    args => AnyHolds(preds, args)
  }

  /** `true_pred()` */
  function True<A>(): A -> bool
  {
    args => true
  }

  /** `false_pred()` */
  function False<A>(): A -> bool
  {
    args => false
  }

  // -------------------------------------------------------------------
  // Laws

  /** The conjunction holds iff every predicate holds; with no predicates it holds. */
  lemma {:induction false} AndMeaning<A>(preds: seq<A -> bool>, args: A)
    ensures And(preds)(args) <==> forall i :: 0 <= i < |preds| ==> preds[i](args)
  {
    if preds != [] {
      AndMeaning(preds[1..], args);
      assert forall i :: 1 <= i < |preds| ==> preds[i] == preds[1..][i - 1];
    }
  }

  /** The disjunction holds iff some predicate holds; with no predicates it fails. */
  lemma {:induction false} OrMeaning<A>(preds: seq<A -> bool>, args: A)
    ensures Or(preds)(args) <==> exists i :: 0 <= i < |preds| && preds[i](args)
  {
    if preds != [] {
      OrMeaning(preds[1..], args);
      assert forall i :: 1 <= i < |preds| ==> preds[i] == preds[1..][i - 1];
    }
  }

  /**
   * The conjunction stops at the first failing predicate: once `preds[k]`
   * fails after `preds[..k]` held, whatever follows is never consulted.
   */
  lemma {:induction false} AndStopsAtFirstFalse<A>(preds: seq<A -> bool>, k: nat, rest: seq<A -> bool>, args: A)
    requires k < |preds|
    requires forall i :: 0 <= i < k ==> preds[i](args)
    requires !preds[k](args)
    ensures AllHold(preds[..k + 1] + rest, args) == false
  {
    var run := preds[..k + 1] + rest;
    if k > 0 {
      assert run[1..] == preds[1..][..k] + rest;
      AndStopsAtFirstFalse(preds[1..], k - 1, rest, args);
    }
  }

  /** The disjunction stops at the first predicate that holds. */
  lemma {:induction false} OrStopsAtFirstTrue<A>(preds: seq<A -> bool>, k: nat, rest: seq<A -> bool>, args: A)
    requires k < |preds|
    requires forall i :: 0 <= i < k ==> !preds[i](args)
    requires preds[k](args)
    ensures AnyHolds(preds[..k + 1] + rest, args) == true
  {
    var run := preds[..k + 1] + rest;
    if k > 0 {
      assert run[1..] == preds[1..][..k] + rest;
      OrStopsAtFirstTrue(preds[1..], k - 1, rest, args);
    }
  }

  lemma NotNegates<A>(pred: A -> bool, args: A)
    ensures Not(pred)(args) == !pred(args)
    ensures Not(Not(pred))(args) == pred(args)
  {
  }

  /** De Morgan: negating a conjunction is the disjunction of the negations. */
  lemma {:induction false} NotAndIsOrNot<A>(preds: seq<A -> bool>, args: A)
    ensures Not(And(preds))(args) == Or(Seqs.Map(preds, Not))(args)
  {
    AndMeaning(preds, args);
    OrMeaning(Seqs.Map(preds, Not), args);
  }

  lemma ConstantPredicates<A>(args: A)
    ensures True<A>()(args) && !False<A>()(args)
  {
  }
}
