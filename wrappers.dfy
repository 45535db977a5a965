/** An optional value: a camera read that may yield no frame, a table that
    may not exist yet. */
module Wrappers {
  datatype Option<+T> = None | Some(value: T)
}
