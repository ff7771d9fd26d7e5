/** The optional value used wherever the program has `null` or `undefined`. */
module Wrappers {

  datatype Option<+T> = None | Some(value: T)
}
