/** The optional value used where the JavaScript source has `undefined` or `NaN`. */
module Wrappers {

  datatype Option<+T> = None | Some(value: T)

}
