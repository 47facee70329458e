/** Optional values, and results that carry the exception the program would raise. */
module Wrappers {

  datatype Option<+T> = None | Some(value: T)

  /** The exceptions that the modelled commands raise. */
  datatype Error =
    | ValueError
    | StructError
    | LookupError
    | IndexError
    | RuntimeError
    | OSError
    | AssertionError
    | TypeError
    | UnboundLocalError
    | UnicodeDecodeError
    | AttributeError
    | AvbError
    | ZlibError

  datatype Result<+T> = Ok(value: T) | Raised(error: Error)
}
