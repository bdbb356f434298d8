/** Optional values and the errors the sprite pipeline can raise. */
module Wrappers {

  datatype Option<T> = None | Some(value: T)

  /** The Python exceptions that can escape the pipeline. */
  datatype Error =
    | KeyError                  // a label looked up in the connection dict that is not a key
    | ValueError(message: string)

  /** Either a value or the exception the source raises instead. */
  datatype Outcome<T> = Ok(value: T) | Fail(err: Error)
}
