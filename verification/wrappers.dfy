/** Failure-carrying values shared by the rest of the model. */
module Wrappers {

  /** `None` stands for a computation that panics in Go (an out-of-range
      slice index is a run-time panic). */
  datatype Option<+T> = None | Some(value: T)
}
