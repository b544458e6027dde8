/** The optional value used where the JavaScript source returns an object or `null`. */
module Wrappers {

  datatype Option<+T> = None | Some(value: T)

}
