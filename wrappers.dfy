/** Option, Result and Outcome: the failure-carrying values that stand for the
    source's null returns, failed futures and swallowed exceptions. */
module Wrappers {

  datatype Option<+T> = None | Some(value: T)

  /** A completed future carrying a value, or a failed one carrying its cause. */
  datatype Result<+T, +E> = Ok(value: T) | Err(error: E)

  /** A completed `CompletableFuture<Void>`, or a failed one. */
  datatype Outcome<+E> = Pass | Fail(error: E)
}
