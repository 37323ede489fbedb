/** The two wrappers shared by the whole model: `Option` stands for a nullable
    cell (pandas NaN / Python None), `Result` for an operation that can raise. */
module Wrappers {

  datatype Option<+T> = None | Some(value: T)

  datatype Result<+R, +E> = Success(value: R) | Failure(error: E)
}
