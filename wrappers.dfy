/** The Option type used in place of JavaScript's `null` results. */
module Wrappers {
  datatype Option<+T> = None | Some(value: T)
}
