/** Small failure-carrying datatypes shared by the containers. */
module Wrappers {

  /** A nil pointer or an absent error (None) versus a present value (Some). */
  datatype Option<+T> = None | Some(value: T)
}
