/** Option, for values the source represents as `undefined`. */
module Wrappers {
  datatype Option<+T> = None | Some(value: T)
}
