/** Small helper datatypes shared by the modules of this project. */
module Wrappers {

  /** A value that may be absent: JavaScript's `null` where the source returns or accepts it. */
  datatype Option<+T> = None | Some(value: T)

  /**
   * The outcome of a JavaScript call that may throw: either it returns a value,
   * or it throws (here: a `TypeError` from destructuring `null`).
   */
  datatype Outcome<+T> = Returned(value: T) | Threw
}
