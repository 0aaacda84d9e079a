/** Option and Result: the values the modelled JavaScript returns as `null`,
    or as either a value or a thrown `Error`. */
module Wrappers {

  datatype Option<+T> = None | Some(value: T)

  /** `Failure(message)` stands for `throw new Error(message)`. */
  datatype Result<+R, +E> = Success(value: R) | Failure(error: E)
}
