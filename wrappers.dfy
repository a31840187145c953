/** Nullable values: a SQL column that may hold NULL is an `Option`. */
module Wrappers {

  datatype Option<+T> = None | Some(value: T)
}
