/** An optional value: Python's `X | None`. */
module Wrappers {

  datatype Option<+T> = None | Some(value: T)
}
