/** The optional value used for a JavaScript read that may yield `undefined`. */
module Wrappers {

  datatype Option<+T> = None | Some(value: T)
}
