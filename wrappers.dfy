/** The optional-value datatype used for the decoders' `error` results. */
module Wrappers {

  datatype Option<+T> = None | Some(value: T)
}
