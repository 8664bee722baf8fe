/** Small helper datatypes shared by the allocator, the tree and the stack models. */
module Wrappers {

  /** A value that may be absent: stands for a C pointer that may be NULL. */
  datatype Option<T> = None | Some(value: T)
}
