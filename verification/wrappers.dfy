/**
 Failure-carrying values shared by the two build tools. A `Failure` stands for
 what the scripts report on standard error before giving up on an operation.
 */
module Wrappers {

  datatype Result<+R, +E> = Success(value: R) | Failure(error: E)
}
