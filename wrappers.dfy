/** Values shared by every step of the action: an optional value, the
    failures the action reports, and a success-or-failure result. */
module Wrappers {

  datatype Option<T> = None | Some(value: T)

  /** The failures the action turns into its single failure message. */
  datatype Error =
    | AmbiguousMatches(count: nat)          // the search found `count` descriptor files, not one
    | VersionNotFound(descriptorPath: string) // the descriptor holds neither recognised line
    | MissingToken                           // check-image was requested without image-token
    | NetworkError(reason: string)           // the package listing request failed

  datatype Result<T> = Ok(value: T) | Err(error: Error)
}
