/** A value that may be absent: Java's nullable references (a `null` String or int[]). */
module Wrappers {
  datatype Option<+T> = None | Some(value: T)
}
