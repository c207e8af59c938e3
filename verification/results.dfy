/** Failure-compatible wrappers for the model, and the Python exceptions the
    modelled code can raise. */
module Results {

  /** The exceptions the fragment-processing code can raise on malformed input. */
  datatype PyError =
    | IndexError      // a list or split result indexed past its end
    | EmptySeparator  // `str.split('')`, Python's "ValueError: empty separator"
    | UnboundLocal    // a local variable read before any branch assigned it

  datatype Option<+T> = None | Some(value: T)

  /** Either a value or the exception that aborted the computation. */
  datatype Result<+T> = Ok(value: T) | Err(error: PyError) {

    predicate IsFailure() {
      Err?
    }

    function PropagateFailure<U>(): Result<U>
      requires Err?
    {
      Err(error)
    }

    function Extract(): T
      requires Ok?
    {
      value
    }
  }
}
