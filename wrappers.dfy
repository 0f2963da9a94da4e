/** The Some/None datatype used wherever the script yields a value or nothing
    (JavaScript's null, NaN or a missing element). */
module Wrappers {

  datatype Option<+T> = None | Some(value: T)
}
