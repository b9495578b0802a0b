/** Option and Result values: JavaScript's null/undefined results and the
    handlers' error returns become data instead of sentinels. */
module Wrappers {

  datatype Option<+T> = None | Some(value: T)

  datatype Result<+R, +E> = Success(value: R) | Failure(error: E)
}
