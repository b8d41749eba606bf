/** The API gateway's translation of a failed gRPC call into an HTTP error
    reply (api-gateway/utils/gRPC_to_HTTP.go). */
module Gateway {

  /** The gRPC status codes, in their wire order (0 to 16). */
  datatype Code =
    | OK | Canceled | Unknown | InvalidArgument | DeadlineExceeded | NotFound
    | AlreadyExists | PermissionDenied | ResourceExhausted | FailedPrecondition
    | Aborted | OutOfRange | Unimplemented | Internal | Unavailable | DataLoss
    | Unauthenticated

  /** What `status.FromError` sees in the error a backend call returned: either
      an error that carries no gRPC status, or a status with its message. */
  datatype CallError = NotStatus | Status(code: Code, message: string)

  /** The reply written: the HTTP status and the `error` field of the JSON body. */
  datatype HttpReply = HttpReply(status: int, error: string)

  const BadRequest := 400
  const Unauthorized := 401
  const Conflict := 409
  const InternalServerError := 500

  /** The message that replaces whatever the backend said. */
  const GenericMessage := "Internal server error"

  /** The one InvalidArgument message the gateway treats as an authentication failure. */
  const InvalidJwt := "invalid JWT"

  /** The codes whose own message reaches the client. */
  predicate KeepsMessage(code: Code) {
    code == InvalidArgument || code == AlreadyExists || code == Unauthenticated || code == Internal
  }

  /** WriteGRPCErrorToHTTP. */
  function WriteGrpcErrorToHttp(err: CallError): (r: HttpReply)
    ensures r.status == BadRequest || r.status == Unauthorized || r.status == Conflict || r.status == InternalServerError
    ensures r.status == BadRequest <==> err.Status? && err.code == InvalidArgument && err.message != InvalidJwt
    ensures r.status == Unauthorized <==>
      err.Status? && (err.code == Unauthenticated || (err.code == InvalidArgument && err.message == InvalidJwt))
    ensures r.status == Conflict <==> err.Status? && err.code == AlreadyExists
    ensures r.status == InternalServerError <==> err.NotStatus? || !(err.code in {InvalidArgument, AlreadyExists, Unauthenticated})
    ensures err.Status? && KeepsMessage(err.code) ==> r.error == err.message
    ensures err.NotStatus? || !KeepsMessage(err.code) ==> r.error == GenericMessage
  {
    match err
    case NotStatus => HttpReply(InternalServerError, GenericMessage)
    case Status(code, message) =>
      match code
      case InvalidArgument => HttpReply(if message == InvalidJwt then Unauthorized else BadRequest, message)
      case AlreadyExists => HttpReply(Conflict, message)
      case Unauthenticated => HttpReply(Unauthorized, message)
      case Internal => HttpReply(InternalServerError, message)
      case _ => HttpReply(InternalServerError, GenericMessage)
  }

  /** There is no PermissionDenied case: a "not authorized" status reaches the
      client as a 500 with the generic message, not as a 401. */
  lemma PermissionDeniedIsServerError(message: string)
    ensures WriteGrpcErrorToHttp(Status(PermissionDenied, message)) == HttpReply(InternalServerError, GenericMessage)
  {
  }
}
