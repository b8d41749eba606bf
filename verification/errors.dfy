/** Error values that flow through the account and auth services, the wrappers
    that carry them, and the 64-bit integer range of the store's BIGINT columns.

    Go compares errors by identity, so each distinct error value of the source
    is a distinct constructor here:
    - `Service(s)` is one of the sentinels of the services' `model` packages
      (`model.ErrInternalServer`, `model.ErrInvalidArgument`, ...);
    - `Store(c)` is an error the database driver hands back unchanged
      (`sql.ErrNoRows`, a `*pq.Error` with its SQLSTATE code, anything else);
    - `Message(t)` is a fresh `errors.New(t)`, equal to no sentinel even when
      the text is the same;
    - `NilDereference` is the runtime panic of dereferencing a nil pointer;
    - `Library` is an error from the password-hashing or token-generating
      library, whose internals are not modelled. */
module Errors {

  datatype Option<+T> = None | Some(value: T)

  /** Every fallible operation of the model returns a Result; an `Err` carries
      no new store state, so a failed operation leaves the state as it was. */
  datatype Result<+T> = Ok(value: T) | Err(error: Error)

  datatype Sentinel =
    | InternalServer
    | InvalidArgument
    | NotAuthorized
    | NotAuthenticated
    | UserAlreadyExists

  datatype StoreError =
    | NoRows
    | PqError(code: string)
    | DriverError

  datatype Error =
    | Service(sentinel: Sentinel)
    | Store(cause: StoreError)
    | Message(text: string)
    | NilDereference
    | Library

  const Internal: Error := Service(InternalServer)

  /** PostgreSQL SQLSTATE codes the model distinguishes. */
  const SerializationFailure: string := "40001"
  const UniqueViolation: string := "23505"
  const ForeignKeyViolation: string := "23503"
  const NumericValueOutOfRange: string := "22003"
  const InvalidRowCountInLimit: string := "2201W"

  /** The only condition the retry loops retry on: a `*pq.Error` whose code is 40001. */
  predicate IsSerializationFailure(e: Error) {
    e == Store(PqError(SerializationFailure))
  }

  predicate IsUniqueViolation(e: Error) {
    e == Store(PqError(UniqueViolation))
  }

  /** The range of a Go `int64` and of a PostgreSQL BIGINT. */
  const MinInt64: int := -0x8000_0000_0000_0000
  const MaxInt64: int := 0x7FFF_FFFF_FFFF_FFFF

  predicate IsInt64(x: int) {
    MinInt64 <= x <= MaxInt64
  }
}
