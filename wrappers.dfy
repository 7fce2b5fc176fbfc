/** Optional values and results, standing for the null handles and absent results of the
    Objective-C and CoreGraphics calls the tool makes. */
module Wrappers {

  datatype Option<+T> = None | Some(value: T)

  /** A value, or the error that ends the command. */
  datatype Result<+T, +E> = Ok(value: T) | Err(error: E)
}
