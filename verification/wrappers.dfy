/** Small value wrappers shared by the other modules. */
module Wrappers {

  /** A value that may be absent (JavaScript `null` / a failed lookup). */
  datatype Option<+T> = None | Some(value: T)
}
