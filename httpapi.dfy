/** The Secret Manager REST controller (internal/gcloud/httpapi/secretmanager.go):
    each handler reads its path and query variables and the request body,
    decodes the body with protojson, fixes the resource names from the path,
    calls the service in process and encodes its answer. The service, the
    protojson codecs and the two helpers whose source is not part of this
    model are parameters; a handler returns the request it handed to the
    service, if any, and the response it wrote. */
module SecretManagerApi {
  import opened Wrappers
  import opened Errors
  import opened GoStrings
  import opened HttpUtils
  import opened SecretStore

  const SecretManagerHost: string := "secretmanager.googleapis.local"
  const FailedPreparingResponseMessage: string := "Unexpected error occurred: failed when preparing response"
  const AddVersionSuffix: string := ":addVersion"
  const CreateSecretPrefix: string := "Invalid request: "

  /** An incoming request: the router's variables and the body as read,
      or the text of the read error. */
  datatype HttpRequest = HttpRequest(vars: map<string, string>, body: Result<seq<byte>, string>)

  /** The service the controller calls, one function per RPC. */
  datatype Service = Service(
    addSecretVersion: AddSecretVersionRequest -> Result<SecretVersion, Error>,
    createSecret: CreateSecretRequest -> Result<Secret, Error>,
    listSecrets: ListSecretsRequest -> Result<ListSecretsResponse, Error>,
    getSecret: GetSecretRequest -> Result<Secret, Error>,
    updateSecret: UpdateSecretRequest -> Result<Secret, Error>)

  /** protojson for the messages the controller decodes and encodes; a
      decode failure is the text of the plain error protojson returns. */
  datatype ProtoJson = ProtoJson(
    decodeAddVersion: seq<byte> -> Result<AddSecretVersionRequest, string>,
    decodeSecret: seq<byte> -> Result<Secret, string>,
    encodeVersion: SecretVersion -> Result<seq<byte>, Error>,
    encodeSecret: Secret -> Result<seq<byte>, Error>,
    encodeList: ListSecretsResponse -> Result<seq<byte>, Error>)

  /** httputils.InvalidRequestMessage, applied to an error's text, and the
      content type httputils.SetResponseAsJSON sets. */
  datatype Helpers = Helpers(invalidRequestMessage: string -> string, jsonContentType: string)

  /** What a handler did: the request it handed to the service (None when it
      answered before calling it) and the response it wrote. */
  datatype Handled<R> = Handled(call: Option<R>, response: Response)

  /** mux.Vars(r)[key]: a missing variable reads as "". */
  function Var(vars: map<string, string>, key: string): string {
    if key in vars then vars[key] else ""
  }

  /** fullyQualifiedSecretName. */
  function FullyQualifiedSecretName(project: string, secret: string): string {
    "projects/" + project + "/secrets/" + secret
  }

  /** fullyQualifiedProject. */
  function FullyQualifiedProject(project: string): string {
    "projects/" + project
  }

  /** The name the controller gives a secret is the name the engine gives
      the secret it creates in the project under that id, and the engine
      reads both from the same file. */
  lemma NamesAgree(root: string, project: string, secretId: string)
    requires '/' !in secretId
    ensures FullyQualifiedSecretName(project, secretId) == SecretName(FullyQualifiedProject(project), secretId)
    ensures SecretFilePath(root, FullyQualifiedSecretName(project, secretId)) ==
      CreatedFilePath(root, FullyQualifiedProject(project), secretId)
  {
    CreatedFileIsSecretFile(root, FullyQualifiedProject(project), secretId);
  }

  /** The end every handler shares: a service error goes through
      HTTPErrorFromGRPC, an answer that does not encode is a 400 with a fixed
      message, and an encoded answer is written as JSON with `success`. */
  function Respond<Y>(h: Helpers, answer: Result<Y, Error>, encode: Y -> Result<seq<byte>, Error>,
                      success: int): (r: Response)
    requires 200 <= success < 300
    ensures answer.Err? ==> r == HTTPErrorFromGRPC(answer.error)
    ensures answer.Ok? && encode(answer.value).Err? ==>
      r == HTTPError(StatusBadRequest, FailedPreparingResponseMessage)
    ensures r.status == success <==> answer.Ok? && encode(answer.value).Ok?
    ensures r.status == success ==>
      r == Response(success, h.jsonContentType, Encoded(encode(answer.value).value))
  {
    match answer
    case Err(e) => ErrorMappingIsClosed(e); HTTPErrorFromGRPC(e)
    case Ok(message) =>
      match encode(message)
      case Err(_) => HTTPError(StatusBadRequest, FailedPreparingResponseMessage)
      case Ok(bytes) => Response(success, h.jsonContentType, Encoded(bytes))
  }

  /** The parent AddVersion derives: the secret variable without its
      ":addVersion" suffix, in the project. */
  function AddVersionParent(vars: map<string, string>): string {
    FullyQualifiedSecretName(Var(vars, "project"), TrimSuffix(Var(vars, "secret"), AddVersionSuffix))
  }

  /** AddVersion (POST .../secrets/{secret}:addVersion): the parent comes from
      the path after decoding, so the body cannot choose it. A body that does
      not decode goes through HTTPErrorFromGRPC. */
  function AddVersion(svc: Service, pj: ProtoJson, h: Helpers, req: HttpRequest): (r: Handled<AddSecretVersionRequest>)
    ensures req.body.Err? ==>
      r == Handled(None, HTTPError(StatusBadRequest, h.invalidRequestMessage(req.body.error)))
    ensures req.body.Ok? && pj.decodeAddVersion(req.body.value).Err? ==>
      r == Handled(None, HTTPErrorFromGRPC(Error.Codec(pj.decodeAddVersion(req.body.value).error)))
    ensures r.call.Some? <==> req.body.Ok? && pj.decodeAddVersion(req.body.value).Ok?
    ensures r.call.Some? ==>
      r.call.value.parent == AddVersionParent(req.vars) &&
      r.call.value.payload == pj.decodeAddVersion(req.body.value).value.payload
    ensures r.call.Some? ==>
      r.response == Respond(h, svc.addSecretVersion(r.call.value), pj.encodeVersion, StatusCreated)
  {
    match req.body
    case Err(text) => Handled(None, HTTPError(StatusBadRequest, h.invalidRequestMessage(text)))
    case Ok(bytes) =>
      match pj.decodeAddVersion(bytes)
      case Err(e) => Handled(None, HTTPErrorFromGRPC(Error.Codec(e)))
      case Ok(decoded) =>
        var call := decoded.(parent := AddVersionParent(req.vars));
        Handled(Some(call), Respond(h, svc.addSecretVersion(call), pj.encodeVersion, StatusCreated))
  }

  /** Create (POST .../secrets?secretId=...): parent and id come from the path
      and the query; the body fills only the secret. */
  function Create(svc: Service, pj: ProtoJson, h: Helpers, req: HttpRequest): (r: Handled<CreateSecretRequest>)
    ensures req.body.Err? ==>
      r == Handled(None, HTTPError(StatusBadRequest, h.invalidRequestMessage(req.body.error)))
    ensures req.body.Ok? && pj.decodeSecret(req.body.value).Err? ==>
      r == Handled(None, HTTPError(StatusBadRequest,
                                   CreateSecretPrefix + pj.decodeSecret(req.body.value).error))
    ensures r.call.Some? <==> req.body.Ok? && pj.decodeSecret(req.body.value).Ok?
    ensures r.call.Some? ==>
      r.call.value == CreateSecretRequest(FullyQualifiedProject(Var(req.vars, "project")),
                                          Var(req.vars, "secretId"),
                                          Some(pj.decodeSecret(req.body.value).value))
    ensures r.call.Some? ==>
      r.response == Respond(h, svc.createSecret(r.call.value), pj.encodeSecret, StatusCreated)
  {
    match req.body
    case Err(text) => Handled(None, HTTPError(StatusBadRequest, h.invalidRequestMessage(text)))
    case Ok(bytes) =>
      match pj.decodeSecret(bytes)
      case Err(e) => Handled(None, HTTPError(StatusBadRequest, CreateSecretPrefix + e))
      case Ok(secret) =>
        var call := CreateSecretRequest(FullyQualifiedProject(Var(req.vars, "project")),
                                        Var(req.vars, "secretId"), Some(secret));
        Handled(Some(call), Respond(h, svc.createSecret(call), pj.encodeSecret, StatusCreated))
  }

  /** ListSecrets (GET .../secrets): no body is read. */
  function ListSecrets(svc: Service, pj: ProtoJson, h: Helpers, req: HttpRequest): (r: Handled<ListSecretsRequest>)
    ensures r.call == Some(ListSecretsRequest(FullyQualifiedProject(Var(req.vars, "project"))))
    ensures r.response == Respond(h, svc.listSecrets(r.call.value), pj.encodeList, StatusOK)
  {
    var call := ListSecretsRequest(FullyQualifiedProject(Var(req.vars, "project")));
    Handled(Some(call), Respond(h, svc.listSecrets(call), pj.encodeList, StatusOK))
  }

  /** GetSecret (GET .../secrets/{secret}): no body is read. */
  function GetSecret(svc: Service, pj: ProtoJson, h: Helpers, req: HttpRequest): (r: Handled<GetSecretRequest>)
    ensures r.call == Some(GetSecretRequest(FullyQualifiedSecretName(Var(req.vars, "project"), Var(req.vars, "secret"))))
    ensures r.response == Respond(h, svc.getSecret(r.call.value), pj.encodeSecret, StatusOK)
  {
    var call := GetSecretRequest(FullyQualifiedSecretName(Var(req.vars, "project"), Var(req.vars, "secret")));
    Handled(Some(call), Respond(h, svc.getSecret(call), pj.encodeSecret, StatusOK))
  }

  /** UpdateSecret (PATCH .../secrets/{secret}?updateMask=...): the mask is
      the query value split on commas, and the secret's name is the one from
      the path, whatever the body says. */
  function UpdateSecret(svc: Service, pj: ProtoJson, h: Helpers, req: HttpRequest): (r: Handled<UpdateSecretRequest>)
    ensures req.body.Err? ==>
      r == Handled(None, HTTPError(StatusBadRequest, h.invalidRequestMessage(req.body.error)))
    ensures req.body.Ok? && pj.decodeSecret(req.body.value).Err? ==>
      r == Handled(None, HTTPError(StatusBadRequest,
                                   h.invalidRequestMessage(pj.decodeSecret(req.body.value).error)))
    ensures r.call.Some? <==> req.body.Ok? && pj.decodeSecret(req.body.value).Ok?
    ensures r.call.Some? ==>
      var name := FullyQualifiedSecretName(Var(req.vars, "project"), Var(req.vars, "secret"));
      r.call.value.secret == Some(pj.decodeSecret(req.body.value).value.(name := name)) &&
      r.call.value.updateMask == Some(FieldMask(Split(Var(req.vars, "updateMask"), ',')))
    ensures r.call.Some? ==>
      r.response == Respond(h, svc.updateSecret(r.call.value), pj.encodeSecret, StatusOK)
  {
    match req.body
    case Err(text) => Handled(None, HTTPError(StatusBadRequest, h.invalidRequestMessage(text)))
    case Ok(bytes) =>
      match pj.decodeSecret(bytes)
      case Err(e) => Handled(None, HTTPError(StatusBadRequest, h.invalidRequestMessage(e)))
      case Ok(secret) =>
        var name := FullyQualifiedSecretName(Var(req.vars, "project"), Var(req.vars, "secret"));
        var call := UpdateSecretRequest(Some(secret.(name := name)),
                                        Some(FieldMask(Split(Var(req.vars, "updateMask"), ','))));
        Handled(Some(call), Respond(h, svc.updateSecret(call), pj.encodeSecret, StatusOK))
  }

  /** A handler answers with its success status exactly when it called the
      service, the service succeeded and the answer encoded; then the body is
      the encoded answer. */
  lemma {:induction false} SuccessMeansServedAndEncoded(svc: Service, pj: ProtoJson, h: Helpers, req: HttpRequest)
    ensures var r := AddVersion(svc, pj, h, req);
      r.response.status == StatusCreated <==>
        r.call.Some? && svc.addSecretVersion(r.call.value).Ok? &&
        pj.encodeVersion(svc.addSecretVersion(r.call.value).value).Ok?
    ensures var r := Create(svc, pj, h, req);
      r.response.status == StatusCreated <==>
        r.call.Some? && svc.createSecret(r.call.value).Ok? &&
        pj.encodeSecret(svc.createSecret(r.call.value).value).Ok?
    ensures var r := UpdateSecret(svc, pj, h, req);
      r.response.status == StatusOK <==>
        r.call.Some? && svc.updateSecret(r.call.value).Ok? &&
        pj.encodeSecret(svc.updateSecret(r.call.value).value).Ok?
    ensures var r := GetSecret(svc, pj, h, req);
      r.response.status == StatusOK <==>
        svc.getSecret(r.call.value).Ok? && pj.encodeSecret(svc.getSecret(r.call.value).value).Ok?
    ensures var r := ListSecrets(svc, pj, h, req);
      r.response.status == StatusOK <==>
        svc.listSecrets(r.call.value).Ok? && pj.encodeList(svc.listSecrets(r.call.value).value).Ok?
  {
    if req.body.Ok? {
      var bytes := req.body.value;
      if pj.decodeAddVersion(bytes).Err? {
        ErrorMappingIsClosed(Error.Codec(pj.decodeAddVersion(bytes).error));
      }
    }
  }

  /** Every unimplemented RPC, reached through the error mapping, answers
      501 "Not implemented". */
  lemma UnimplementedIs501(m: UnimplementedRpc)
    ensures HTTPErrorFromGRPC(NotImplemented(m)) == HTTPError(StatusNotImplemented, "Not implemented")
  {
    var e := NotImplemented(m);
    assert CodeOf(e) == Some(Unimplemented);
  }

  /** As written, a body that is not an AddSecretVersionRequest is answered
      500 "Unexpected error occurred": protojson's error carries no gRPC code.
      Create and UpdateSecret answer the same kind of fault with 400. */
  lemma MalformedAddVersionIs500(svc: Service, pj: ProtoJson, h: Helpers, req: HttpRequest)
    requires req.body.Ok? && pj.decodeAddVersion(req.body.value).Err?
    ensures AddVersion(svc, pj, h, req).response == HTTPError(StatusInternalServerError, UnexpectedErrorMessage)
    ensures AddVersion(svc, pj, h, req).call.None?
  {
    PlainErrorsAre500(Error.Codec(pj.decodeAddVersion(req.body.value).error));
  }

  /** AddVersion with a malformed body answered as an invalid request, as the
      other handlers that read a body do; everything else is unchanged. */
  function AddVersionCorrected(svc: Service, pj: ProtoJson, h: Helpers, req: HttpRequest): (r: Handled<AddSecretVersionRequest>)
    ensures req.body.Ok? && pj.decodeAddVersion(req.body.value).Err? ==>
      r == Handled(None, HTTPError(StatusBadRequest, h.invalidRequestMessage(pj.decodeAddVersion(req.body.value).error)))
    ensures !(req.body.Ok? && pj.decodeAddVersion(req.body.value).Err?) ==> r == AddVersion(svc, pj, h, req)
  {
    if req.body.Ok? && pj.decodeAddVersion(req.body.value).Err? then
      Handled(None, HTTPError(StatusBadRequest, h.invalidRequestMessage(pj.decodeAddVersion(req.body.value).error)))
    else
      AddVersion(svc, pj, h, req)
  }

  /** With the correction, every handler that reads a body answers 400
      whenever it stops before calling the service, and never 400 with the
      fixed message of an unexpected error. */
  lemma {:induction false} UnservedRequestsAre400(svc: Service, pj: ProtoJson, h: Helpers, req: HttpRequest)
    ensures AddVersionCorrected(svc, pj, h, req).call.None? ==>
      AddVersionCorrected(svc, pj, h, req).response.status == StatusBadRequest
    ensures Create(svc, pj, h, req).call.None? ==> Create(svc, pj, h, req).response.status == StatusBadRequest
    ensures UpdateSecret(svc, pj, h, req).call.None? ==> UpdateSecret(svc, pj, h, req).response.status == StatusBadRequest
  {
  }
}
