/** Nullable values of the Java source, as an explicit option. */
module Wrappers {
  datatype Option<T> = None | Some(value: T)
}
