/** The absent-or-present value used for Python's `Optional[...]` results. */
module Wrappers {

  /** `None` plays the role of Python's `None`; `Some(v)` carries a real result. */
  datatype Option<+T> = None | Some(value: T)
}
