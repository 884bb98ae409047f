/** Rust's `Option<T>`, used for the optional description of a record and
    for the optional title of a feed item. */
module Wrappers {

  datatype Option<+T> = None | Some(value: T)
}
