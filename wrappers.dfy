/** Option and Result values, and the exceptions the modelled scripts can raise. */
module Wrappers {

  datatype Option<+T> = None | Some(value: T)

  datatype Result<+T, +E> = Ok(value: T) | Err(error: E)

  /** The failures of the Python and JavaScript scripts that the model keeps apart. */
  datatype Exception =
    | KeyError(key: string)        // dict lookup of a missing key
    | ValueError                   // unpacking the wrong number of values, or int() of bad text
    | TypeError                    // calling something that is not callable
    | AttributeError               // a method called on None
    | FileNotFound(path: string)   // loading a script file that does not exist
}
