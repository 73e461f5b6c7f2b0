/** Option: JavaScript's `undefined` as an explicit absent value. */
module Wrappers {

  datatype Option<+T> = None | Some(value: T)
}
