/** The conventional optional value, used for a JavaScript `undefined` or a Java `null`. */
module Wrappers {
  datatype Option<+T> = None | Some(value: T)
}
