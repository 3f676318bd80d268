/** The Some/None datatype used where the source has a value that may be missing (an
    unset option, `null`). */
module Wrappers {

  datatype Option<+T> = None | Some(value: T)
}
