/** Optional values and fallible results, the Dafny counterparts of Rust's
    `Option` and `Result` as the modelled program uses them. */
module Results {

  datatype Option<+T> = None | Some(value: T)

  datatype Result<+T, +E> = Ok(value: T) | Err(error: E)
}
