/** The optional value the catalog code expresses with `null` / `undefined`. */
module Wrappers {
  datatype Option<+T> = None | Some(value: T)
}
