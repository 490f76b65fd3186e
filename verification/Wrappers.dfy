/** Values that may be absent: SQL NULLs, missing headers, failed look-ups. */
module Wrappers {
  datatype Option<+T> = None | Some(value: T)
}
