/** Small value wrappers shared by the other modules. */
module Wrappers {

  /** An optional value: Ruby's `nil` or a present value. */
  datatype Option<+T> = None | Some(value: T)
}
