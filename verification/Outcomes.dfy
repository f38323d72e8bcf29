/** Optional values, and results of operations that can raise. */
module Outcomes {

  datatype Option<+T> = None | Some(value: T)

  /** An operation's result, or the fact that it raised. */
  datatype Result<+T> = Ok(value: T) | Err
}
