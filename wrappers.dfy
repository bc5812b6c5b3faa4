/** The optional-value datatype the schedule returns when nothing is due. */
module Wrappers {
  datatype Option<+T> = None | Some(value: T)
}
