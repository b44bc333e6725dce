/** Optional values and error results, for the places where the tracker finds
    nothing (no snapshot file) or where Python raises (an index out of range). */
module Wrappers {

  datatype Option<+T> = None | Some(value: T)

  datatype Result<+T, +E> = Ok(value: T) | Err(error: E)
}
