/** The option type used throughout for values that C code represents by NULL and Python code by an exception. */
module Wrappers {
  datatype Option<+T> = None | Some(value: T)
}
