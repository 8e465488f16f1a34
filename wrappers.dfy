/** The optional value used where the application's code has `None`. */
module Wrappers {

  datatype Option<+T> = None | Some(value: T)
}
