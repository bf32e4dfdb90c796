/** The Option datatype used for values the source may leave unset or null. */
module Wrappers {

  datatype Option<+T> = None | Some(value: T)
}
