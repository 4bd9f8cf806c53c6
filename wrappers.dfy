/** Option, as a value that may be absent (a parse that failed, a missing key). */
module Wrappers {

  datatype Option<+T> = None | Some(value: T)
}
