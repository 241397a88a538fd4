/** Small value types shared by the modules of this model. */
module Wrappers {

  datatype Option<T> = None | Some(value: T)

  /** How a piece of user or kernel code ends: by returning a value, or by panicking. */
  datatype Exit<T> = Returned(value: T) | Panicked
}
