/** Failure-compatible result types standing in for the source's null returns and exceptions. */
module Wrappers {

  /** `None` stands for a C# `null` result or for an exception the operation throws. */
  datatype Option<+T> = None | Some(value: T)

  /** The outcome of an operation that returns nothing but may throw: `Fail` carries the exception message. */
  datatype Outcome<+E> = Pass | Fail(error: E)
}
