/** Option and Result, the two failure-compatible wrappers the model uses in place of
    Java's null and Java's exceptions. */
module Wrappers {

  /** A value that may be missing: Java's nullable reference. */
  datatype Option<+T> = None | Some(value: T) {

    predicate IsFailure() {
      None?
    }

    function PropagateFailure<U>(): Option<U>
      requires None?
    {
      None
    }

    function Extract(): T
      requires Some?
    {
      value
    }
  }

  /** The outcome of a computation that may throw: Success, or the exception it raises. */
  datatype Result<+T, +E> = Success(value: T) | Failure(error: E) {

    predicate IsFailure() {
      Failure?
    }

    function PropagateFailure<U>(): Result<U, E>
      requires Failure?
    {
      Failure(error)
    }

    function Extract(): T
      requires Success?
    {
      value
    }
  }

  /** f applied to each element in order, as a Java loop that adds each result
      to a list: the first element whose application fails aborts with its error. */
  function MapAll<T, U, E>(xs: seq<T>, f: T -> Result<U, E>): (r: Result<seq<U>, E>)
    ensures r.Success? <==> forall k :: 0 <= k < |xs| ==> f(xs[k]).Success?
    ensures r.Success? ==> |r.value| == |xs| && forall k :: 0 <= k < |xs| ==> r.value[k] == f(xs[k]).value
    ensures r.Failure? ==> exists k :: 0 <= k < |xs| && FirstFailure(xs, f, k) && f(xs[k]).error == r.error
    decreases |xs|
  {
    if |xs| == 0 then Success([])
    else
      var head := f(xs[0]);
      if head.Failure? then
        assert FirstFailure(xs, f, 0);
        Failure(head.error)
      else
        var rest := MapAll(xs[1..], f);
        MapAllStep(xs, f, rest);
        if rest.Failure? then Failure(rest.error)
        else Success([head.value] + rest.value)
  }

  /** Element k is the first whose application fails. */
  ghost predicate FirstFailure<T, U, E>(xs: seq<T>, f: T -> Result<U, E>, k: int)
    requires 0 <= k < |xs|
  {
    f(xs[k]).Failure? && forall q :: 0 <= q < k ==> f(xs[q]).Success?
  }

  /** What MapAll says of the elements after the first, said of all of them
      when the first one succeeds. */
  lemma MapAllStep<T, U, E>(xs: seq<T>, f: T -> Result<U, E>, rest: Result<seq<U>, E>)
    requires |xs| > 0 && f(xs[0]).Success?
    requires rest.Success? <==> forall k :: 0 <= k < |xs[1..]| ==> f(xs[1..][k]).Success?
    requires rest.Success? ==> |rest.value| == |xs[1..]| && forall k :: 0 <= k < |xs[1..]| ==> rest.value[k] == f(xs[1..][k]).value
    requires rest.Failure? ==> exists k :: 0 <= k < |xs[1..]| && FirstFailure(xs[1..], f, k) && f(xs[1..][k]).error == rest.error
    ensures rest.Success? <==> forall k :: 0 <= k < |xs| ==> f(xs[k]).Success?
    ensures rest.Success? ==> forall k :: 0 <= k < |xs| ==> ([f(xs[0]).value] + rest.value)[k] == f(xs[k]).value
    ensures rest.Failure? ==> exists k :: 0 <= k < |xs| && FirstFailure(xs, f, k) && f(xs[k]).error == rest.error
  {
    var tail := xs[1..];
    forall k | 1 <= k < |xs|
      ensures xs[k] == tail[k - 1]
    {
    }
    if rest.Failure? {
      var k :| 0 <= k < |tail| && FirstFailure(tail, f, k) && f(tail[k]).error == rest.error;
      assert FirstFailure(xs, f, k + 1);
    }
  }
}
