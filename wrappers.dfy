/** The optional values of the source: `null`, `undefined` and a missing lookup. */
module Wrappers {

  datatype Option<+T> = None | Some(value: T)
}
