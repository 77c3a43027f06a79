/** Optional values and results with an error, used for the "no frame this tick"
    and "report could not be unpacked" outcomes. */
module Wrappers {

  datatype Option<+T> = None | Some(value: T)

  datatype Result<+T, +E> = Ok(value: T) | Err(error: E)
}
