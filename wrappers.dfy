/** Optional values and results with an error message, shared by every module. */
module Wrappers {
  datatype Option<T> = None | Some(value: T)
  {
    function GetOr(default: T): T {
      if Some? then value else default
    }
  }

  datatype Result<T> = Ok(value: T) | Err(error: string)
}
