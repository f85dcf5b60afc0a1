/** The Option type used for absent fields and failed lookups. */
module Wrappers {
  datatype Option<+T> = None | Some(value: T)
}
