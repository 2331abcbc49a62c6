/** Result and option types that stand in for the provider's thrown errors and nullable rows. */
module Wrappers {

  datatype Option<+T> = None | Some(value: T)

  /** The error kinds a provider operation can end with, instead of throwing. */
  datatype FsError =
    | InvalidArgument   // a malformed path, a missing leaf name, `path == newPath`, refused content
    | NotFound          // a path that names no directory or no file of this owner
    | Conflict          // the destination name is taken in the table's unique index

  datatype Result<+T> = Success(value: T) | Failure(error: FsError)

  /** The outcome of an operation that returns nothing on success. */
  datatype Outcome = Pass | Fail(error: FsError)
}
