/** Optional values and error results, the Dafny counterparts of `null | T` in
    TypeScript and of `Option` / `anyhow::Result` in Rust. */
module Wrappers {

  datatype Option<+T> = None | Some(value: T)

  datatype Result<+R, +E> = Ok(value: R) | Err(error: E)
}
