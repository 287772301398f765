/** The Option type that stands in for the source's `null` results. */
module Wrappers {

  /** `None` plays the role of a null reference, `Some(v)` of a non-null `v`. */
  datatype Option<+T> = None | Some(value: T)
}
