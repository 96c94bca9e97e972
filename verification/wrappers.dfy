/** The single failure-carrying type of the decoder. Every grammar rule either
    succeeds with a value and the unconsumed input, or fails; the parser
    library's distinction between "not enough input" and "malformed input" is
    collapsed into `None`. */
module Wrappers {

  datatype Option<+T> = None | Some(value: T)
}
