/** Failure-carrying result types shared by the vector model. */
module Wrappers {

  /** A value that may be absent; used for undefined behaviour in the as-written model. */
  datatype Option<+T> = None | Some(value: T)

  /** The one reported error of the container: checked access past the live range. */
  datatype Error = OutOfRange

  /** The outcome of an operation that can throw std::out_of_range. */
  datatype Result<+T> = Ok(value: T) | Failure(error: Error)
}
