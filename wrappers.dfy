/** The nullable values of the PHP source (a `migrated` stamp, a class name) as an Option. */
module Wrappers {

  datatype Option<+T> = None | Some(value: T)
}
