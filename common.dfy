// Shared vocabulary of the model: optional values, results that carry the
// exceptions the Python code raises, and the unbounded maximum distance.

module Common {

  datatype Option<T> = None | Some(value: T)

  /** The exceptions the modelled code raises, by kind. */
  datatype Error =
    | NotImplemented    // NotImplementedError
    | AssertionFailed   // a failing `assert False`
    | TypeMismatch      // TypeError (wrong number of arguments, reduce of an empty list)
    | KeyMissing        // KeyError
    | NameUndefined     // NameError
    | RuntimeFailure    // RekallRuntimeException
    | Panic             // rekall.helpers.panic
    | DivisionByZero    // ZeroDivisionError

  datatype Result<T> = Ok(value: T) | Err(error: Error)

  /** A maximum distance that is either a number or the library's INFTY. */
  datatype MaxDist = Infty | Finite(d: real)

  /** `d <= max_dist`, where INFTY admits every distance. */
  predicate WithinMax(d: real, maxDist: MaxDist)
  {
    maxDist.Infty? || d <= maxDist.d
  }

  function Abs(x: real): real
  {
    if x < 0.0 then -x else x
  }

  function Min(a: real, b: real): real
  {
    if a <= b then a else b
  }

  function Max(a: real, b: real): real
  {
    if a >= b then a else b
  }

  /** A predicate used either on one argument or on two, chosen by an arity. */
  datatype ArityPred<-A> = Unary(f: A -> bool) | Binary(g: (A, A) -> bool)
}
