/** The optional value used where the compressor's Java code would hand back null or a sentinel. */
module Wrappers {

  datatype Option<+T> = None | Some(value: T)
}
