/** A stock optional-value datatype used by the codecs. */
module Wrappers {

  datatype Option<+T> = None | Some(value: T)
}
