/** The exceptions the core raises, as values: the Python exception class and,
    where the code supplies one, its message or key. */
module Outcomes {

  datatype Error =
    | ValueError(message: string)
    | KeyError(key: string)
    | IndexError

  datatype Result<T> = Success(value: T) | Failure(error: Error)

  /** A conversion that either yields a value or raises ValueError. */
  datatype Option<T> = None | Some(value: T)
}
