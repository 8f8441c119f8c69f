/** The optional value used for missing enrollment counts and failed lookups. */
module Wrappers {

  datatype Option<+T> = None | Some(value: T)
}
