/** The optional value, for a JavaScript value that is `null`/`undefined` or present. */
module Wrappers {

  datatype Option<+T> = None | Some(value: T)
}
