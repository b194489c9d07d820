/** Option and Result, the failure-compatible datatypes the rest of the model
    uses for Python's `None` returns and raised exceptions. */
module Wrappers {

  datatype Option<+T> = None | Some(value: T)

  datatype Result<+T, +E> = Success(value: T) | Failure(error: E) {

    predicate IsFailure() {
      Failure?
    }

    function PropagateFailure<U>(): Result<U, E>
      requires Failure?
    {
      Failure(error)
    }

    function Extract(): T
      requires Success?
    {
      value
    }
  }

  /** Applies `f` to the elements in order and stops at the first failure, as a
      loop does that raises on the first bad element: the result is every value
      when all succeed, and otherwise the error of the first element that fails. */
  method MapUntilFailure<A, B, E>(xs: seq<A>, f: A -> Result<B, E>) returns (r: Result<seq<B>, E>)
    ensures r.Success? <==> forall i :: 0 <= i < |xs| ==> f(xs[i]).Success?
    ensures r.Success? ==> |r.value| == |xs| && forall i :: 0 <= i < |xs| ==> r.value[i] == f(xs[i]).value
    ensures r.Failure? ==>
      exists k :: 0 <= k < |xs| && f(xs[k]) == Failure(r.error) && forall j :: 0 <= j < k ==> f(xs[j]).Success?
  {
    var values: seq<B> := [];
    var i := 0;
    while i < |xs|
      invariant 0 <= i <= |xs|
      invariant |values| == i
      invariant forall j :: 0 <= j < i ==> f(xs[j]).Success? && values[j] == f(xs[j]).value
    {
      var y := f(xs[i]);
      if y.Failure? {
        return Failure(y.error);
      }
      values := values + [y.value];
      i := i + 1;
    }
    return Success(values);
  }
}
