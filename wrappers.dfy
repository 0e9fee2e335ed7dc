/** Option and Result, the two sum types the Rust code uses for "maybe absent"
    and "succeeded or failed". */
module Wrappers {

  datatype Option<+T> = None | Some(value: T)

  datatype Result<+R, +E> = Success(value: R) | Failure(error: E)
}
