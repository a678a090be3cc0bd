/** The optional value used where the JavaScript source returns `null`,
    `undefined` or an empty string in place of a value. */
module Wrappers {

  datatype Option<+T> = None | Some(value: T)

}
