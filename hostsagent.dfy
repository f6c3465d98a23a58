/** The hosts agent's gRPC client and server (pkg/hosts/grpc.go): the client
    forwards Add and Remove to the agent and turns its answer into an error;
    the server runs the real hosts service and answers whether it applied
    the change. The transport and the service are parameters. */
module HostsAgent {
  import opened Wrappers
  import opened Errors

  /** The parameters of the hosts service's Add and Remove: an IP and a
      comma-separated list of hosts. Go declares this record twice, as
      `Params` and as `HostsParams`, with the same two fields; a nil field is
      not modelled. */
  datatype Params = Params(ip: string, hosts: string)

  /** The agent's request and response messages. */
  datatype HostsRequest = HostsRequest(ip: string, hosts: string)
  datatype HostsResponse = HostsResponse(applied: bool)

  /** The request the client sends: the same IP and hosts strings. */
  function RequestFor(params: Params): (req: HostsRequest)
    ensures req.ip == params.ip && req.hosts == params.hosts
  {
    HostsRequest(params.ip, params.hosts)
  }

  /** What the client makes of the agent's answer: a transport error as it
      is, `failed` when the agent did not apply the change, nil otherwise. */
  function Outcome(answer: Result<HostsResponse, Error>, failed: Error): (err: Option<Error>)
    ensures answer.Err? ==> err == Some(answer.error)
    ensures answer.Ok? ==> (err.None? <==> answer.value.applied)
    ensures answer.Ok? && !answer.value.applied ==> err == Some(failed)
  {
    match answer
    case Err(e) => Some(e)
    case Ok(response) => if !response.applied then Some(failed) else None
  }

  /** GRPCClient.Add: `send` is the agent's Add over the connection. */
  function ClientAdd(send: HostsRequest -> Result<HostsResponse, Error>, params: Params): (err: Option<Error>)
    ensures err.None? <==> send(RequestFor(params)).Ok? && send(RequestFor(params)).value.applied
    ensures send(RequestFor(params)).Err? ==> err == Some(send(RequestFor(params)).error)
    ensures send(RequestFor(params)).Ok? && !send(RequestFor(params)).value.applied ==>
      err == Some(FailedToAddHosts)
  {
    Outcome(send(RequestFor(params)), FailedToAddHosts)
  }

  /** GRPCClient.Remove: `send` is the agent's Remove over the connection. */
  function ClientRemove(send: HostsRequest -> Result<HostsResponse, Error>, params: Params): (err: Option<Error>)
    ensures err.None? <==> send(RequestFor(params)).Ok? && send(RequestFor(params)).value.applied
    ensures send(RequestFor(params)).Err? ==> err == Some(send(RequestFor(params)).error)
    ensures send(RequestFor(params)).Ok? && !send(RequestFor(params)).value.applied ==>
      err == Some(FailedToRemoveHosts)
  {
    Outcome(send(RequestFor(params)), FailedToRemoveHosts)
  }

  /** The parameters the server hands to the hosts service. */
  function ParamsFor(req: HostsRequest): (params: Params)
    ensures params.ip == req.ip && params.hosts == req.hosts
  {
    Params(req.ip, req.hosts)
  }

  /** What the server answers for the service's error: the error with no
      response, or `applied` on success. */
  function Answer(err: Option<Error>): (r: Result<HostsResponse, Error>)
    ensures r.Err? <==> err.Some?
    ensures r.Err? ==> r.error == err.value
    ensures r.Ok? ==> r.value.applied
  {
    if err.Some? then Err(err.value) else Ok(HostsResponse(true))
  }

  /** GRPCServer.Add: `impl` is the hosts service's Add. */
  function ServerAdd(impl: Params -> Option<Error>, req: HostsRequest): (r: Result<HostsResponse, Error>)
    ensures r.Err? <==> impl(ParamsFor(req)).Some?
    ensures r.Err? ==> r.error == impl(ParamsFor(req)).value
    ensures r.Ok? ==> r.value == HostsResponse(true)
  {
    Answer(impl(ParamsFor(req)))
  }

  /** GRPCServer.Remove: `impl` is the hosts service's Remove. */
  function ServerRemove(impl: Params -> Option<Error>, req: HostsRequest): (r: Result<HostsResponse, Error>)
    ensures r.Err? <==> impl(ParamsFor(req)).Some?
    ensures r.Err? ==> r.error == impl(ParamsFor(req)).value
    ensures r.Ok? ==> r.value == HostsResponse(true)
  {
    Answer(impl(ParamsFor(req)))
  }

  /** A connection that delivers the server's answer, turning the server's
      error into the error the client sees (gRPC wraps a plain error in a
      status); transport failures are not part of this connection. */
  function Deliver(answer: Result<HostsResponse, Error>, wrap: Error -> Error): Result<HostsResponse, Error> {
    match answer
    case Err(e) => Err(wrap(e))
    case Ok(response) => Ok(response)
  }

  /** Client and server together: the client's Add succeeds exactly when the
      service's Add does, the service sees the caller's IP and hosts, and
      since the server never answers "not applied" the client never reports
      ErrFailedToAddHosts. */
  lemma AddEndToEnd(impl: Params -> Option<Error>, wrap: Error -> Error, params: Params)
    ensures var send := (req: HostsRequest) => Deliver(ServerAdd(impl, req), wrap);
      var err := ClientAdd(send, params);
      ParamsFor(RequestFor(params)) == params &&
      (err.None? <==> impl(params).None?) &&
      (impl(params).Some? ==> err == Some(wrap(impl(params).value))) &&
      (err == Some(FailedToAddHosts) ==>
        impl(params).Some? && wrap(impl(params).value) == FailedToAddHosts)
  {
    assert ParamsFor(RequestFor(params)) == params;
  }

  /** The same for Remove. */
  lemma RemoveEndToEnd(impl: Params -> Option<Error>, wrap: Error -> Error, params: Params)
    ensures var send := (req: HostsRequest) => Deliver(ServerRemove(impl, req), wrap);
      var err := ClientRemove(send, params);
      (err.None? <==> impl(params).None?) &&
      (impl(params).Some? ==> err == Some(wrap(impl(params).value)))
  {
    assert ParamsFor(RequestFor(params)) == params;
  }
}
