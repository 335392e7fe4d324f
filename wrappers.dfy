/** The optional value shared by the other modules. */
module Wrappers {

  /** `None` stands for JavaScript's `undefined` (a missing column) or for an aborted step. */
  datatype Option<+T> = None | Some(value: T)
}
