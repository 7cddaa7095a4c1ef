/** The optional value used by the parsers and the reverse lookup of this model. */
module Wrappers {

  datatype Option<+T> = None | Some(value: T)
}
