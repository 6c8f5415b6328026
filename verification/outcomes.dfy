/** Failure-compatible results for the Python exceptions the modelled code raises.

  Every exception the modelled functions can raise becomes an `Err` carrying
  the Python exception class and the constant part of its message, so that a
  contract can say which error a given input produces.
 */
module Outcomes {

  /** The Python exception classes the modelled code raises. */
  datatype Exc =
    | ValueError
    | RuntimeError
    | KeyError
    | TypeError
    | AttributeError
    | IndexError
    | TimeoutError
    | InventorySourceError
    /** pandas' `DataFrame.query` given an expression it cannot evaluate. */
    | QueryError
    /** Streamlit's `st.stop()`: the page script ends early. */
    | StopException

  /** An exception: its class and the fixed part of its message. */
  datatype Error = Error(exc: Exc, reason: string)

  datatype Option<+T> = None | Some(value: T)

  /** Either a value or the exception raised instead; usable with `:-`. */
  datatype Result<+T> = Ok(value: T) | Err(error: Error) {

    predicate IsFailure() {
      Err?
    }

    function PropagateFailure<U>(): Result<U>
      requires Err?
    {
      Err(error)
    }

    function Extract(): T
      requires Ok?
    {
      value
    }
  }

  /** The outcome of an operation that returns nothing but may raise. */
  datatype Outcome = Pass | Fail(error: Error) {

    predicate IsFailure() {
      Fail?
    }

    function PropagateFailure(): Outcome
      requires Fail?
    {
      this
    }
  }

  /** `f` applied to every element in order, stopping at the first element
      for which it raises: the result is the list of values exactly when no
      element raises, and otherwise the first element's exception. */
  function MapAll<T, U>(xs: seq<T>, f: T -> Result<U>): (r: Result<seq<U>>)
    ensures r.Ok? <==> forall i :: 0 <= i < |xs| ==> f(xs[i]).Ok?
    ensures r.Ok? ==> |r.value| == |xs| && forall i :: 0 <= i < |xs| ==> f(xs[i]) == Ok(r.value[i])
    ensures r.Err? ==> exists i :: 0 <= i < |xs| && f(xs[i]) == Err(r.error) &&
                                   forall j :: 0 <= j < i ==> f(xs[j]).Ok?
    decreases |xs|
  {
    if |xs| == 0 then Ok([])
    else
      var head := f(xs[0]);
      assert forall i :: 1 <= i < |xs| ==> xs[i] == xs[1..][i - 1];
      if head.Err? then Err(head.error)
      else
        var rest := MapAll(xs[1..], f);
        if rest.Err? then
          var i :| 0 <= i < |xs[1..]| && f(xs[1..][i]) == Err(rest.error) && forall j :: 0 <= j < i ==> f(xs[1..][j]).Ok?;
          assert f(xs[i + 1]) == Err(rest.error) && forall j :: 0 <= j < i + 1 ==> f(xs[j]).Ok?;
          Err(rest.error)
        else Ok([head.value] + rest.value)
  }
}
