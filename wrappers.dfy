/** The optional value used for header lookups. */
module Wrappers {

  datatype Option<+T> = None | Some(value: T)
}
