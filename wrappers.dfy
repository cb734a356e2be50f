/** The optional value the widget reads from its host: a trait that may be unset, or a picker
    payload that may be null. */
module Wrappers {
  datatype Option<+T> = None | Some(value: T)
}
