/** The two ways an operation of the quiz core can end: with a value, or with
    the error the Python code would raise. */
module Outcomes {

  datatype Option<T> = None | Some(value: T)

  datatype Result<T, E> = Success(value: T) | Failure(error: E)
}
