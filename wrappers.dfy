/** The Option datatype used for partial results (a date that does not parse, a file that is absent). */
module Wrappers {
  datatype Option<+T> = None | Some(value: T)
}
