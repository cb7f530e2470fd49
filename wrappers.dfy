/** Failure-carrying values shared by every module of the model. */
module Wrappers {

  /** A value that may be absent: a Java `Optional`, or a nullable reference. */
  datatype Option<+T> = None | Some(value: T)

  /** The outcome of a service call: its return value, or the exception it throws. */
  datatype Result<+R, +E> = Success(value: R) | Failure(error: E)

  /** The outcome of a call into a collaborator the model does not see (JwtUtil, the
      user lookup): the value it returned, or the fact that it threw. */
  datatype Call<+T> = Returned(value: T) | Threw
}
