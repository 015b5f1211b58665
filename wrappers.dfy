/** Small value types shared by every module of the model. */
module Wrappers {
  /** An optional value; for a C pointer, None is the null pointer. */
  datatype Option<T> = None | Some(value: T)
}
