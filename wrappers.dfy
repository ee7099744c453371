/** Small failure-compatible datatypes shared by the model. */
module Wrappers {

  /** A value that may be absent (a null reference in the original). */
  datatype Option<+T> = None | Some(value: T)

  /** The outcome of an operation guarded by a fatal assertion. */
  datatype Outcome = Pass | AssertionFailed
}
