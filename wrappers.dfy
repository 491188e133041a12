/** The optional value the Python code writes as `X | None`. */
module Wrappers {

  datatype Option<+T> = None | Some(value: T)
}
