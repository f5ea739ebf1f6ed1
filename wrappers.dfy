/** Optional values (the source's `null`) and the exceptions the modelled code can raise. */
module Wrappers {

  datatype Option<T> = None | Some(value: T)

  /** The .NET exceptions the modelled members let escape to their callers. */
  datatype Failure =
    | IndexOutOfRange      // indexing a list or array past its end
    | ArgumentOutOfRange   // `Substring` with a negative length
    | NullReference        // a member called on `null`
    | InvalidOption        // `OutputProcessor.Initialize` rejecting its options

  datatype Result<T> = Ok(value: T) | Err(failure: Failure)

  /** `String.IsNullOrEmpty`. */
  predicate NullOrEmpty(s: Option<string>) {
    s.None? || s.value == ""
  }
}
