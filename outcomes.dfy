/** The success/failure value that stands for a Kotlin call that may throw
    or a `Result` returned by a use case. */
module Outcomes {

  datatype Result<+T, +E> = Success(value: T) | Failure(error: E)

}
