/** Small shared datatypes: an optional value (Go's nil / JavaScript's null and
    undefined) and the error results the repositories return. */
module Common {

  datatype Option<+T> = None | Some(value: T)

  /** The outcome of a repository call that either yields a value or fails with
      one of the repository's sentinel errors. */
  datatype Result<+T> = Ok(value: T) | Err(error: Error)

  /** The sentinel errors of the repository package, plus a catch-all for a
      failing database call. */
  datatype Error =
    | AssetAssignmentNotFound
    | OverlappingAssignment
    | AssetPropertyNotFound
    | PersonAttributeNotFound
    | StorageError
}
