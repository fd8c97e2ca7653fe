/** The optional value the engine uses where the JavaScript state holds `null`. */
module Wrappers {
  datatype Option<+T> = None | Some(value: T)
}
