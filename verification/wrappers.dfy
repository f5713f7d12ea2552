/** The optional value used wherever the blog's storage answers `undefined`. */
module Wrappers {

  /** `None` stands for JavaScript's `undefined`, `Some(v)` for a present value. */
  datatype Option<+T> = None | Some(value: T)
}
