/** Option and Result values, standing in for Java's nullable references and thrown exceptions. */
module Wrappers {

  /** A value that may be absent: `None` is Java's `null` or an empty `Optional`. */
  datatype Option<+T> = None | Some(value: T)

  /** The outcome of an operation that may throw: `Failure` carries what was thrown. */
  datatype Result<+R, +E> = Success(value: R) | Failure(error: E) {
    predicate IsFailure() { Failure? }

    function PropagateFailure<U>(): Result<U, E>
      requires Failure?
    {
      Failure(error)
    }

    function Extract(): R
      requires Success?
    {
      value
    }
  }

  /** Applies `f` to every element in order, stopping at the first failure (a stream `map` whose
      lambda throws, collected into a list). */
  function MapAll<T, U, E>(xs: seq<T>, f: T -> Result<U, E>): (r: Result<seq<U>, E>)
    ensures r.Success? <==> forall k :: 0 <= k < |xs| ==> f(xs[k]).Success?
    ensures r.Success? ==> |r.value| == |xs| && forall k :: 0 <= k < |xs| ==> f(xs[k]) == Success(r.value[k])
    ensures r.Failure? ==> exists k :: && 0 <= k < |xs| && f(xs[k]) == Failure(r.error)
                                       && (forall j :: 0 <= j < k ==> f(xs[j]).Success?)
    decreases |xs|
  {
    if xs == [] then Success([])
    else
      match f(xs[0])
      case Failure(e) => Failure(e)
      case Success(head) =>
        match MapAll(xs[1..], f)
        case Failure(e) =>
          assert forall k :: 1 <= k < |xs| ==> xs[k] == xs[1..][k - 1];
          Failure(e)
        case Success(tail) =>
          assert forall k :: 1 <= k < |xs| ==> xs[k] == xs[1..][k - 1];
          Success([head] + tail)
  }
}
