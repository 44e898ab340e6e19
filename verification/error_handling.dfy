/**
 * The error boundary, the outermost stage: it runs the rest of the chain
 * once and turns an exception into a fixed 500 JSON envelope carrying the
 * exception's message.
 */
module ErrorHandling {
  import opened Wrappers
  import opened Http

  const JsonContentType: string := "application/json"
  const InternalError: string := "Internal server error."

  /** The 500 response built for an exception with message `message`. */
  function ErrorResponse(message: string): Response
  {
    Response(500, Some(JsonContentType), ErrorEnvelope(InternalError, message))
  }

  /** The stage: pass a normal result through, replace a fault by the envelope. */
  function Boundary(req: Request, next: Handler): (r: Run)
    ensures r.outcome.Done?
    ensures r.trace == next(req).trace
    ensures next(req).outcome.Done? ==> r.outcome == next(req).outcome
    ensures next(req).outcome.Fault? ==>
              r.outcome.response == Response(500, Some("application/json"),
                ErrorEnvelope("Internal server error.", next(req).outcome.message))
  {
    var inner := next(req);
    match inner.outcome
    case Done(_) => inner
    case Fault(message) => Run(Done(ErrorResponse(message)), inner.trace)
  }
}
