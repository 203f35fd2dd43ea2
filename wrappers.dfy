/** The optional value used for pandas' missing cells (NaN) and for parsers that give up. */
module Wrappers {

  datatype Option<+T> = None | Some(value: T)

}
