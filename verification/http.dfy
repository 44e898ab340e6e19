/**
 * The request/response data the interceptors exchange. One request is
 * handled by a chain of stages, each a pure function of the request and of
 * the remainder of the chain (`Handler`). A stage's result is a `Run`: the
 * outcome (a finished response, or an exception still in flight) together
 * with the log records written while producing it, in order.
 */
module Http {
  import opened Wrappers

  /**
   * An incoming request. Header names are assumed already normalised by
   * the host; each name maps to the ordered values sent under it.
   */
  datatype Request = Request(
    verb: string,
    path: string,
    headers: map<string, seq<string>>,
    body: string)

  /** A response body, kept structured rather than serialised. */
  datatype Body =
    | Empty
    | Text(text: string)                            // a plain-text write
    | ErrorEnvelope(error: string, details: string) // {"error": …, "details": …}
    | Payload(json: string)                         // whatever an endpoint produced

  /** A completed response; `contentType` is `None` when nobody set it. */
  datatype Response = Response(status: int, contentType: Option<string>, body: Body)

  /** Either a finished response or an exception carrying its message. */
  datatype Outcome = Done(response: Response) | Fault(message: string)

  /** The two records the logging stage writes. */
  datatype LogEntry = Incoming(verb: string, path: string) | Outgoing(status: int)

  /** What running (part of) the chain on one request yields. */
  datatype Run = Run(outcome: Outcome, trace: seq<LogEntry>)

  /** The remainder of a chain, or the endpoint at its end. */
  type Handler = Request -> Run
}
