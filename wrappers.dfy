/** Optional values, as Rust's `Option` is used for a thread's parent channel. */
module Wrappers {

  datatype Option<+T> = None | Some(value: T)
}
