/** Optional values and the outcomes of checked edits. */
module Wrappers {

  /** Present or absent; stands for a TypeScript optional property (`x?: T`). */
  datatype Option<T> = None | Some(value: T)

  /** Either the edited value or the reason the edit was refused. */
  datatype Result<T, E> = Ok(value: T) | Err(error: E)
}
