/**
  Failure-carrying datatypes for the radial-file model.

  Every exception the Python code raises (KeyError, TypeError, ValueError,
  IndexError, ZeroDivisionError, a failed `assert`, pandas' refusal to reindex
  a non-unique index) becomes an `Err` carrying one of the `Error` kinds below.
  Only the Ok/Err decision and the kind are modelled, not the message text.
 */
module Results {

  /** Python's `None`-or-value, also used for "key absent" (`dict.get(k, None)`). */
  datatype Option<+T> = None | Some(value: T) {
    function GetOr(default: T): T {
      match this
      case Some(v) => v
      case None => default
    }
  }

  datatype Error =
    | KeyMissing(key: string)         // KeyError on a metadata lookup
    | WrongType                       // TypeError / AttributeError: a value of the wrong kind
    | BadValue                        // ValueError: unparsable token, min of an empty array, wrong arity
    | NoSuchIndex                     // IndexError: `parts[1]` or `split()[0]` out of range
    | DivisionByZero                  // a zero divisor or a zero `arange` step
    | AssertionFailed                 // a failed `assert` in the re-indexer
    | DuplicateLabels                 // `reindex` on an index with repeated labels
    | AllCoordinatesMissing           // every LATD and every LOND is missing

  /** The outcome of an operation that may raise. Works with `:-`. */
  datatype Result<+T> = Ok(value: T) | Err(error: Error) {
    predicate IsFailure() {
      Err?
    }

    function PropagateFailure<U>(): Result<U>
      requires Err?
    {
      Err(error)
    }

    function Extract(): T
      requires Ok?
    {
      value
    }
  }
}
