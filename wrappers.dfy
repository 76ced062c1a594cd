/** The Option and Result wrappers shared by every module of the model. */
module Wrappers {

  /** An optional value: `None` stands for Python's "nothing found" (`None`, `""`, a failed match). */
  datatype Option<+T> = None | Some(value: T)

  /** The outcome of an operation that the source lets raise. */
  datatype Result<+T, +E> = Success(value: T) | Failure(error: E)
}
