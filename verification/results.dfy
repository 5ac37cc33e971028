/** Failure-carrying values shared by every module: an optional value (a
    lookup that may find nothing) and a result that is either a value or the
    error the operation raised instead. */
module Results {

  datatype Option<+T> = None | Some(value: T)

  datatype Result<+T, +E> = Success(value: T) | Failure(error: E)
}
