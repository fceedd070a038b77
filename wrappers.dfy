/** Optional values and the two-sided result the use cases return. */
module Wrappers {

  /** A value that may be absent: Java's Optional, and a nullable field. */
  datatype Option<+T> = None | Some(value: T)

  /** The result of a command: Left carries the validation errors, Right the output. */
  datatype Either<+L, +R> = Left(left: L) | Right(right: R)
}
