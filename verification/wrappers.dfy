/** The optional value used for JavaScript's `null` / `undefined` results. */
module Wrappers {

  /** `None` stands for the source's `null` (or `undefined`), `Some(v)` for a present value. */
  datatype Option<+T> = None | Some(value: T)
}
