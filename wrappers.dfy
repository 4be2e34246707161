/** The optional value used throughout the model for JavaScript's `null` and
    for Python's "key not present". */
module Wrappers {

  datatype Option<+T> = None | Some(value: T)
}
