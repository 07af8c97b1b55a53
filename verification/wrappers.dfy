/** Option and Result, the two wrapper types the model uses for nil values and for the
    ArgumentError raised by the constructor and by the parser. */
module Wrappers {

  datatype Option<+T> = None | Some(value: T)

  datatype Result<+T, +E> = Success(value: T) | Failure(error: E)
}
