/** Failure-carrying results for the operations whose source raises an exception. */
module Wrappers {

  /** The exceptions the modelled Python code can raise, by kind. */
  datatype Error =
    | IndexError      // indexing past the end of a list or string, popping an empty list
    | KeyError        // a missing key in a dict-shaped parse tree
    | TypeError       // an operation applied to a value of the wrong type (e.g. None < int)
    | AttributeError  // an attribute looked up on an object that lacks it
    | NoneReturned    // the function fell through every branch and returned None

  datatype Option<+T> = None | Some(value: T)

  datatype Result<+T> = Ok(value: T) | Err(error: Error) {
    predicate IsFailure() { Err? }

    function PropagateFailure<U>(): Result<U>
      requires Err?
    {
      Err(error)
    }

    function Extract(): T
      requires Ok?
    {
      value
    }
  }

  /** A result as the calling Python code sees it: an exception raised inside the callee
      propagates, while a callee that fell through and returned None still hands back a value. */
  predicate Raised<T>(r: Result<T>)
  {
    r.Err? && r.error != NoneReturned
  }

  /** A list comprehension whose elements may raise: the results left to right, or the
      first failure. */
  function Collect<T>(rs: seq<Result<T>>): (r: Result<seq<T>>)
    ensures r.Ok? <==> forall k | 0 <= k < |rs| :: rs[k].Ok?
    ensures r.Ok? ==> |r.value| == |rs| && forall k | 0 <= k < |rs| :: r.value[k] == rs[k].value
    ensures r.Err? ==> exists k | 0 <= k < |rs| :: rs[k].Err? && rs[k].error == r.error
  {
    if |rs| == 0 then Ok([])
    else
      var init :- Collect(rs[..|rs| - 1]);
      var x :- rs[|rs| - 1];
      Ok(init + [x])
  }
}
