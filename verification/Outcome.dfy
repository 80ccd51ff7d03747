/** Results of operations that the program reports with a Go `error` value. */
module Outcome {

  datatype Option<+T> = None | Some(value: T)

  /** Why an operation failed: the `Reason` of a Cincinnati `Error`, or the check that refused an input. */
  datatype Reason =
    | ApiRequestError
    | VersionNotFound
    | NoVersionsFound
    | InvalidChannelName
    | InvalidVersion
    | InvalidEntryName
    | NoPreviousRelease
    | NoCurrentConfig
    | InvalidImageReference
    | InvalidRange

  datatype Result<+T> = Ok(value: T) | Err(reason: Reason)
}
