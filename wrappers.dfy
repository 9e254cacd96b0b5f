/** The Some/None datatype used for the source's None returns and failed parses. */
module Wrappers {

  datatype Option<+T> = None | Some(value: T)
}

