/** Results of operations that, in the Python programs, either return a value or raise. */
module Outcomes {

  /** The exception classes the modelled code can raise. `UnsupportedRecordType` stands for
      the bare `Exception` the resolver raises on a record type it does not parse. */
  datatype Error =
    | IndexError
    | KeyError
    | ValueError
    | UnboundLocalError
    | StructError
    | UnsupportedRecordType

  datatype Option<+T> = None | Some(value: T)

  datatype Result<+T> = Success(value: T) | Failure(error: Error) {
    predicate IsFailure() { Failure? }

    function PropagateFailure<U>(): Result<U>
      requires Failure?
    {
      Failure(error)
    }

    function Extract(): T
      requires Success?
    {
      value
    }
  }

  /** `prefix` followed by whatever `rest` produces; a failure of `rest` is the failure of the whole. */
  function Prepend<T>(prefix: seq<T>, rest: Result<seq<T>>): (r: Result<seq<T>>)
    ensures r.Success? <==> rest.Success?
    ensures r.Success? ==> r.value == prefix + rest.value
    ensures r.Failure? ==> r.error == rest.error
  {
    match rest
    case Success(s) => Success(prefix + s)
    case Failure(e) => Failure(e)
  }

  lemma PrependTwice<T>(a: seq<T>, b: seq<T>, rest: Result<seq<T>>)
    ensures Prepend(a, Prepend(b, rest)) == Prepend(a + b, rest)
  {
    if rest.Success? {
      assert a + (b + rest.value) == (a + b) + rest.value;
    }
  }

  lemma PrependNothing<T>(rest: Result<seq<T>>)
    ensures Prepend([], rest) == rest
  {
    if rest.Success? {
      assert [] + rest.value == rest.value;
    }
  }

  lemma PrependOntoEmpty<T>(prefix: seq<T>)
    ensures Prepend(prefix, Success([])) == Success(prefix)
  {
    assert prefix + [] == prefix;
  }
}
