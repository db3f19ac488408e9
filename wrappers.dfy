/** The optional value used for nullable inputs and pending timers. */
module Wrappers {

  datatype Option<+T> = None | Some(value: T)
}
