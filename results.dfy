/** Option and Result, the failure-carrying values the rest of the model returns
    in place of Java's nulls and exceptions. */
module Results {

  datatype Option<+T> = None | Some(value: T)

  datatype Result<+T, +E> = Ok(value: T) | Err(error: E)
}
