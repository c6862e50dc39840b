/** The optional-value datatype used across the model for Python's
    "value or nothing" results (a found index, a matching record, a message
    that may be absent). */
module Wrappers {

  datatype Option<+T> = None | Some(value: T)
}
