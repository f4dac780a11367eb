/** Plain datatypes for optional values and for results that may carry an error, used across the model. */
module Wrappers {

  /** A value that may be absent, as `std::optional` is in the game code. */
  datatype Option<+T> = None | Some(value: T)

  /** Either a value or the error that prevented computing it. */
  datatype Result<+R, +E> = Success(value: R) | Failure(error: E)
}
