/** The optional value used wherever the page's JavaScript has `undefined` or `NaN`. */
module Wrappers {

  datatype Option<+T> = None | Some(value: T)
}
