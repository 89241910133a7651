/** The error kinds the inventory raises, and the wrappers that carry them.
    Each Java exception class becomes one variant of `Error`. */
module Exceptions {

  /** The failures an inventory operation can report. `StoreError` stands
      for any `SQLException` that is not a key violation: the database could
      not be reached, read or written. */
  datatype Error =
    | NoItemPresent
    | EmptyItemName
    | ItemAlreadyExists
    | StoreError

  /** Either the value an operation returns or the error it raises. */
  datatype Result<T> = Success(value: T) | Failure(error: Error)

  /** A reference that may be `null`. */
  datatype Option<T> = None | Some(value: T)
}
