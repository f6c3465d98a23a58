/** The JSON error responses of pkg/httputils/httputils.go and the gRPC
    status to HTTP status mapping. A response is a value: its status, its
    Content-Type header and its body. */
module HttpUtils {
  import opened Wrappers
  import opened Errors

  const StatusOK: int := 200
  const StatusCreated: int := 201
  const StatusBadRequest: int := 400
  const StatusUnauthorized: int := 401
  const StatusForbidden: int := 403
  const StatusInternalServerError: int := 500
  const StatusNotImplemented: int := 501

  const ContentTypeJSON: string := "application/json"
  const MessageKey: string := "message"

  const UnexpectedErrorMessage: string := "Unexpected error occurred"

  /** A value held by a `map[string]interface{}`: a string, or anything else
      carried as the JSON text encoding/json writes for it. */
  datatype JsonValue = JsonString(s: string) | JsonOther(json: string)

  /** A response body: the JSON object of an error response, kept as its
      fields (encoding/json is not modelled), or bytes an encoder produced. */
  datatype Body = ErrorObject(fields: map<string, JsonValue>) | Encoded(bytes: seq<byte>)

  datatype Response = Response(status: int, contentType: string, body: Body)

  /** HTTPErrorWithFields: the caller's fields with `message` set to the
      message (replacing a field of that name), sent as JSON with the status.
      Go writes `message` into the caller's map itself; the map as updated is
      the body here. */
  function HTTPErrorWithFields(statusCode: int, message: string,
                               fields: map<string, JsonValue>): (r: Response)
    ensures r.status == statusCode && r.contentType == ContentTypeJSON
    ensures r.body.ErrorObject?
    ensures r.body.fields.Keys == fields.Keys + {MessageKey}
    ensures r.body.fields[MessageKey] == JsonString(message)
    ensures forall k :: k in fields && k != MessageKey ==> r.body.fields[k] == fields[k]
  {
    Response(statusCode, ContentTypeJSON, ErrorObject(fields[MessageKey := JsonString(message)]))
  }

  /** HTTPError: an error response whose body holds the message and nothing
      else. */
  function HTTPError(statusCode: int, message: string): (r: Response)
    ensures r.status == statusCode && r.contentType == ContentTypeJSON
    ensures r.body == ErrorObject(map[MessageKey := JsonString(message)])
  {
    HTTPErrorWithFields(statusCode, message, map[])
  }

  /** The codes HTTPErrorFromGRPC singles out. */
  predicate MappedCode(c: Code) {
    c == PermissionDenied || c == Unauthenticated || c == Unimplemented || c == InvalidArgument
  }

  /** The status and message HTTPErrorFromGRPC picks for an error. */
  function StatusAndMessage(err: Error): (r: (int, string))
    ensures CodeOf(err) == Some(PermissionDenied) ==> r == (StatusForbidden, "Permission denied")
    ensures CodeOf(err) == Some(Unauthenticated) ==> r == (StatusUnauthorized, "Unauthenticated")
    ensures CodeOf(err) == Some(Unimplemented) ==> r == (StatusNotImplemented, "Not implemented")
    ensures CodeOf(err) == Some(InvalidArgument) ==>
      r == (StatusBadRequest, "Invalid argument: " + StatusText(err.code, err.desc))
    ensures !(err.Status? && MappedCode(err.code)) ==>
      r == (StatusInternalServerError, UnexpectedErrorMessage)
  {
    match CodeOf(err)
    case Some(PermissionDenied) => (StatusForbidden, "Permission denied")
    case Some(Unauthenticated) => (StatusUnauthorized, "Unauthenticated")
    case Some(Unimplemented) => (StatusNotImplemented, "Not implemented")
    case Some(InvalidArgument) =>
      (StatusBadRequest, "Invalid argument: " + StatusText(err.code, err.desc))
    case _ => (StatusInternalServerError, UnexpectedErrorMessage)
  }

  /** HTTPErrorFromGRPC: the error response for an error a service returned. */
  function HTTPErrorFromGRPC(err: Error): (r: Response)
    ensures r.status == StatusAndMessage(err).0
    ensures r == HTTPError(r.status, StatusAndMessage(err).1)
  {
    var (status, message) := StatusAndMessage(err);
    HTTPError(status, message)
  }

  /** Every error maps to a client or server error status, and the error's own
      text reaches the client only for an invalid argument: every other
      message is fixed. */
  lemma {:induction false} ErrorMappingIsClosed(err: Error)
    ensures var r := HTTPErrorFromGRPC(err);
      400 <= r.status < 600 &&
      r.body.fields.Keys == {MessageKey} &&
      (r.status == StatusBadRequest <==> CodeOf(err) == Some(InvalidArgument)) &&
      (r.status != StatusBadRequest ==>
        r.body.fields[MessageKey].s in
          {"Permission denied", "Unauthenticated", "Not implemented", UnexpectedErrorMessage})
  {
    var r := HTTPErrorFromGRPC(err);
    assert r.body.fields == map[MessageKey := JsonString(StatusAndMessage(err).1)];
  }

  /** Only errors that carry a gRPC status can map to anything but 500. */
  lemma PlainErrorsAre500(err: Error)
    requires !err.Status?
    ensures HTTPErrorFromGRPC(err) == HTTPError(StatusInternalServerError, UnexpectedErrorMessage)
  {
  }
}
