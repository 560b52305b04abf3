/** Failure-carrying results, used where the Java code throws. */
module Outcomes {

  datatype Result<+T, +E> = Success(value: T) | Failure(error: E)
}
