/** Optional values and results with an error, used wherever the source
    returns None or raises. */
module Wrappers {

  datatype Option<+T> = None | Some(value: T)

  /** The Python exceptions the modelled code can raise. */
  datatype PyError =
    | KeyError(key: string)
    | AttributeError
    | TypeError
    | ValueError

  datatype Result<+T> = Ok(value: T) | Err(error: PyError)
}
