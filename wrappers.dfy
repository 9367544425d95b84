/** Success/failure wrappers used for the error paths of the server and the
    collaborators it calls (a thrown exception becomes `None` or `Failure`). */
module Wrappers {

  datatype Option<+T> = None | Some(value: T)

  datatype Result<+R, +E> = Success(value: R) | Failure(error: E)

  function Min(a: int, b: int): int
  {
    if a <= b then a else b
  }
}
