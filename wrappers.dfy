/** An optional value: `None` stands for Python's `None` and for any other falsy result. */
module Wrappers {

  datatype Option<+T> = None | Some(value: T)
}
