/** Option and Result, used for the null values and the faults of the modelled code. */
module Wrappers {

  /** None stands for a null reference. */
  datatype Option<+T> = None | Some(value: T)

  /** Failure stands for an exception thrown by the modelled operation. */
  datatype Result<+R, +E> = Success(value: R) | Failure(error: E)
}
