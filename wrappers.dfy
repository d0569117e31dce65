/** Small result types shared by the other modules. */
module Wrappers {

  /** A value that may be absent: JavaScript's `undefined` where a lookup misses. */
  datatype Option<+T> = None | Some(value: T)

  /** What a JavaScript expression does: yields a value, or throws an error. */
  datatype Completion<+T> = Returns(value: T) | Throws(error: string)
}
