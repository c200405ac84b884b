/** The value-or-None and value-or-exception datatypes used across the
    model: `Option` for Python's "value or None" and `Result` for "value or
    raised exception". */
module Wrappers {

  datatype Option<+T> = None | Some(value: T)

  datatype Result<+T, +E> = Success(value: T) | Failure(error: E)
}
