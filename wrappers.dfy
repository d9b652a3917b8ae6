/** A value that may be missing, as in a PHP function that returns `false` instead. */
module Wrappers {
  datatype Option<T> = None | Some(value: T)
}
