/** A JavaScript value that may be `undefined` (or `null`): the field was absent. */
module Wrappers {

  datatype Option<+T> = None | Some(value: T)
}
