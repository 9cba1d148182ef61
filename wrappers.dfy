/** Option and Result: the "value or nothing" and "value or error" shapes the model uses for
    Python's None and for exceptions that end a run. */
module Wrappers {

  datatype Option<+T> = None | Some(value: T)

  datatype Result<+T, +E> = Success(value: T) | Failure(error: E)
}
