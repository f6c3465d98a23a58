/** Error values the model passes around: gRPC statuses (as returned by
    `status.Errorf`) and the plain Go errors of the hosts manager, the hosts
    agent client, the file system and the codecs. */
module Errors {
  import opened Wrappers

  /** google.golang.org/grpc/codes. */
  datatype Code =
    | OK | Canceled | Unknown | InvalidArgument | DeadlineExceeded | NotFound
    | AlreadyExists | PermissionDenied | ResourceExhausted | FailedPrecondition
    | Aborted | OutOfRange | Unimplemented | Internal | Unavailable | DataLoss
    | Unauthenticated

  /** codes.Code.String(). */
  function CodeName(c: Code): string {
    match c
    case OK => "OK"
    case Canceled => "Canceled"
    case Unknown => "Unknown"
    case InvalidArgument => "InvalidArgument"
    case DeadlineExceeded => "DeadlineExceeded"
    case NotFound => "NotFound"
    case AlreadyExists => "AlreadyExists"
    case PermissionDenied => "PermissionDenied"
    case ResourceExhausted => "ResourceExhausted"
    case FailedPrecondition => "FailedPrecondition"
    case Aborted => "Aborted"
    case OutOfRange => "OutOfRange"
    case Unimplemented => "Unimplemented"
    case Internal => "Internal"
    case Unavailable => "Unavailable"
    case DataLoss => "DataLoss"
    case Unauthenticated => "Unauthenticated"
  }

  datatype Error =
      /** An error built by status.Errorf: it carries a gRPC code. */
    | Status(code: Code, desc: string)
      /** Manager.Add/Remove: `%q is an invalid IP address`. */
    | InvalidIPAddress(ip: string)
      /** netutils.invalidIPError. */
    | InvalidServerIP(ip: string)
      /** hosts.ErrFailedToAddHosts. */
    | FailedToAddHosts
      /** hosts.ErrFailedToRemoveHosts. */
    | FailedToRemoveHosts
      /** Reading a file the file system does not hold. */
    | FileNotFound(path: string)
      /** Creating or writing a file the file system refuses to write. */
    | IOFailure(path: string)
      /** A JSON or protojson encode/decode failure; `text` is its Error(). */
    | Codec(text: string)
      /** uuid.NewRandom could not read the random source. */
    | RandomSourceFailed
      /** A transport (IPC) failure reaching the hosts agent. */
    | Transport(text: string)
      /** A Go runtime panic (index out of range, nil dereference); the
          operation stops where the panic occurs. */
    | Panic(what: string)

  /** The panic of a field access through a nil pointer. */
  const NilDereference: Error :=
    Panic("invalid memory address or nil pointer dereference")

  /** Error() of a status error: the text grpc-go's status package builds. */
  function StatusText(code: Code, desc: string): string {
    "rpc error: code = " + CodeName(code) + " desc = " + desc
  }

  /** status.FromError: the code of a status error; plain errors have none. */
  function CodeOf(e: Error): (r: Option<Code>)
    ensures r.Some? <==> e.Status?
  {
    if e.Status? then Some(e.code) else None
  }
}
