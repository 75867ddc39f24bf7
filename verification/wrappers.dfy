/** The Option type used for lookups that may find nothing (the handler's `NaN` index). */
module Wrappers {

  datatype Option<+T> = None | Some(value: T)
}
