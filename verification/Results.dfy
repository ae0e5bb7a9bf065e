/** Failure-carrying results shared by the models: the source's exceptions become `Err` values. */
module Results {

  datatype Option<+T> = None | Some(value: T)

  datatype Result<+T, +E> = Ok(value: T) | Err(error: E)
}
