/** Small value types shared by the modules of the model. */
module Util {

  /** Python's "a value or None". */
  datatype Option<T> = None | Some(value: T)

}
