/** Optional values, the exceptions the modelled Python code can raise,
    and a result type that carries either a value or such an exception. */
module Outcomes {

  datatype Option<+T> = None | Some(value: T) {
    function GetOr(default: T): T {
      match this
      case Some(v) => v
      case None => default
    }
  }

  /** The Python exceptions that escape the modelled code. */
  datatype Error =
    | SchemaError(missing: set<string>)   // RuntimeError: required columns missing from the sheet
    | ConfigError(key: string)            // RuntimeError: required setting missing
    | IndexError                          // list index out of range
    | ValueError                          // int() of text that is not an integer
    | TypeError                           // int() of None
    | AttributeError                      // .strip() called on a non-string

  datatype Result<+T> = Ok(value: T) | Err(error: Error)
}
