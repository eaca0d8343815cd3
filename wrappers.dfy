/** The optional value used throughout the model: a JavaScript value that may be
    `null` or `undefined` is `None`. */
module Wrappers {

  datatype Option<+T> = None | Some(value: T)
}
