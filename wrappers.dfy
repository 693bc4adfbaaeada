/** The optional value that stands for Python's `None` in the to-do helpers. */
module Wrappers {

  /** `None` is Python's `None`; `Some(v)` is any other returned value `v`. */
  datatype Option<+T> = None | Some(value: T)
}
