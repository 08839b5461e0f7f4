/** Failure-compatible result types shared by the whole model. */
module Wrappers {

  /** A Java reference that may be null: None stands for null. */
  datatype Option<+T> = None | Some(value: T)

  /** The outcome of a factory that validates its arguments with Guava's
      checkArgument: Failure carries the IllegalArgumentException message. */
  datatype Result<+T> = Success(value: T) | Failure(message: string)
}
