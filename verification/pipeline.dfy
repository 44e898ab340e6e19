/**
 * The request pipeline: stages registered in a fixed order and nested, the
 * first registered outermost, around an endpoint. The endpoint is a
 * parameter; the program registers the error boundary, then
 * authentication, then logging.
 */
module Pipeline {
  import opened Wrappers
  import opened Http
  import opened Authentication
  import opened ErrorHandling
  import opened Logging

  /** The three kinds of interceptor. */
  datatype Stage = ErrorBoundary | Authenticator | RequestLogger

  /** Registration order, outer to inner. */
  const Registered: seq<Stage> := [ErrorBoundary, Authenticator, RequestLogger]

  /** Runs one stage on `req` with `next` as the rest of the chain. */
  function Apply(stage: Stage, req: Request, next: Handler): Run
  {
    match stage
    case ErrorBoundary => Boundary(req, next)
    case Authenticator => Authenticate(req, next)
    case RequestLogger => Log(req, next)
  }

  /** Nests `stages` around `endpoint`; `stages[0]` sees the request first. */
  function Compose(stages: seq<Stage>, endpoint: Handler): Handler
    decreases |stages|
  {
    if |stages| == 0 then endpoint
    else (req: Request) => Apply(stages[0], req, Compose(stages[1..], endpoint))
  }

  /** The application as registered. */
  function Server(endpoint: Handler): Handler
  {
    Compose(Registered, endpoint)
  }

  /**
   * Every stage passes the request on unmodified and looks at the rest of
   * the chain only through its answer for that request: two continuations
   * that agree there give the same result.
   */
  lemma ApplyDependsOnlyOnNextAt(stage: Stage, req: Request, next1: Handler, next2: Handler)
    requires next1(req) == next2(req)
    ensures Apply(stage, req, next1) == Apply(stage, req, next2)
  {
  }

  /** The composed chain is the boundary around authentication around logging. */
  lemma RegistrationOrder(endpoint: Handler, req: Request)
    ensures Server(endpoint)(req) ==
              Boundary(req, (r1: Request) => Authenticate(r1, (r2: Request) => Log(r2, endpoint)))
  {
  }

  /** No `Authorization` header: 401 "missing", no log record, endpoint irrelevant. */
  lemma ServerMissingHeader(endpoint: Handler, req: Request)
    requires AuthorizationHeader !in req.headers
    ensures Server(endpoint)(req) ==
              Run(Done(Response(401, None, Text("Unauthorized: Token is missing."))), [])
  {
  }

  /** Header present but the token is wrong: 401 "invalid", no log record. */
  lemma ServerInvalidToken(endpoint: Handler, req: Request)
    requires AuthorizationHeader in req.headers && Judge(req) != Accepted
    ensures Server(endpoint)(req) ==
              Run(Done(Response(401, None, Text("Unauthorized: Invalid token."))), [])
  {
  }

  /**
   * An accepted request reaches the endpoint with the request unchanged; its
   * response comes back unchanged, framed by one incoming and one outgoing
   * record around the endpoint's own records.
   */
  lemma ServerAccepted(endpoint: Handler, req: Request, response: Response, trace: seq<LogEntry>)
    requires Judge(req) == Accepted
    requires endpoint(req) == Run(Done(response), trace)
    ensures Server(endpoint)(req) ==
              Run(Done(response), [Incoming(req.verb, req.path)] + trace + [Outgoing(response.status)])
  {
  }

  /**
   * An accepted request whose endpoint throws gets the 500 envelope; the
   * incoming record stays, no outgoing record is written.
   */
  lemma ServerFault(endpoint: Handler, req: Request, message: string, trace: seq<LogEntry>)
    requires Judge(req) == Accepted
    requires endpoint(req) == Run(Fault(message), trace)
    ensures Server(endpoint)(req) ==
              Run(Done(Response(500, Some("application/json"),
                                ErrorEnvelope("Internal server error.", message))),
                  [Incoming(req.verb, req.path)] + trace)
  {
  }

  /** With the boundary outermost, no exception leaves the chain, whatever is inside. */
  lemma BoundaryOutermostNeverFaults(stages: seq<Stage>, endpoint: Handler, req: Request)
    requires |stages| > 0 && stages[0] == ErrorBoundary
    ensures Compose(stages, endpoint)(req).outcome.Done?
  {
  }

  /** In particular the registered application always answers. */
  lemma ServerNeverFaults(endpoint: Handler, req: Request)
    ensures Server(endpoint)(req).outcome.Done?
  {
  }

  /**
   * Short-circuit: once an authentication stage anywhere in a chain rejects
   * the request, nothing inside it runs, so the endpoint cannot influence
   * the result.
   */
  lemma {:induction false} RejectedChainIgnoresEndpoint(
    stages: seq<Stage>, endpoint1: Handler, endpoint2: Handler, req: Request)
    requires Authenticator in stages
    requires Judge(req) != Accepted
    ensures Compose(stages, endpoint1)(req) == Compose(stages, endpoint2)(req)
    decreases |stages|
  {
    var inner1 := Compose(stages[1..], endpoint1);
    var inner2 := Compose(stages[1..], endpoint2);
    if stages[0] == Authenticator {
      RejectionIgnoresNext(req, inner1, inner2);
    } else {
      assert Authenticator in stages[1..];
      RejectedChainIgnoresEndpoint(stages[1..], endpoint1, endpoint2, req);
      ApplyDependsOnlyOnNextAt(stages[0], req, inner1, inner2);
    }
  }

  /**
   * The registered order matters: were logging placed outside
   * authentication, a request without a header would be logged in and out.
   */
  lemma LoggingOutsideAuthenticationWouldLogRejections(endpoint: Handler, req: Request)
    requires AuthorizationHeader !in req.headers
    ensures Compose([ErrorBoundary, RequestLogger, Authenticator], endpoint)(req).trace ==
              [Incoming(req.verb, req.path), Outgoing(401)]
  {
  }
}
