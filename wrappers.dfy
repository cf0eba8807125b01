/** Option and Result values standing for Python's None returns and raised exceptions. */
module Wrappers {

  datatype Option<+T> = None | Some(value: T)

  /** The Python exceptions (and `exit` calls) the core can raise, as values. */
  datatype PyError =
    | KeyError(key: string)          // a missing dict key
    | ValueError(msg: string)        // e.g. str.split with an empty separator
    | AttributeError(msg: string)    // a str method called on a non-str value
    | TypeError(msg: string)         // an operation applied to a value of the wrong type
    | FileNotFound(path: string)     // open() of a file that does not exist
    | ZeroDivision                   // x / 0
    | Exit(status: int)              // exit(status) called from library code
    | Unsupported(what: string)      // a path whose Python behaviour the model does not describe

  datatype Result<+T> = Ok(value: T) | Err(error: PyError) {
    predicate IsFailure() { Err? }

    function PropagateFailure<U>(): Result<U>
      requires Err?
    {
      Err(error)
    }

    function Extract(): T
      requires Ok?
    {
      value
    }
  }
}
