/** An optional value, for the nullable results of the platform (a last known
    location that may be absent) and for record fields the decoder may leave unset. */
module Wrappers {
  datatype Option<+T> = None | Some(value: T)
}
