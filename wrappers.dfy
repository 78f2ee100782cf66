/** The conventional optional value, used for absent members, role arguments and document fields. */
module Wrappers {
  datatype Option<+T> = None | Some(value: T)
}
