/** Failure-carrying result types used in place of ninja's NULL returns
    and `string* err` out-parameters. */
module Wrappers {

  /** A value that may be absent; `None` plays the role of a NULL pointer. */
  datatype Option<+T> = None | Some(value: T)

  /** Success or failure without a value; `Fail` carries the error message. */
  datatype Outcome<+E> = Pass | Fail(error: E)
}
