/**
 * The logging stage: one "incoming" record before running the rest of the
 * chain, one "outgoing" record with the final status after it returns
 * normally, and nothing after an exception, which it does not catch.
 */
module Logging {
  import opened Http

  /** The stage; it never changes the request it hands on or the outcome. */
  function Log(req: Request, next: Handler): (r: Run)
    ensures r.outcome == next(req).outcome
    ensures |r.trace| == |next(req).trace| + (if next(req).outcome.Done? then 2 else 1)
    ensures r.trace[0] == Incoming(req.verb, req.path)
    ensures r.trace[1..|next(req).trace| + 1] == next(req).trace
    ensures next(req).outcome.Done? ==>
              r.trace[|r.trace| - 1] == Outgoing(next(req).outcome.response.status)
  {
    var inner := next(req);
    var after := match inner.outcome
      case Done(response) => [Outgoing(response.status)]
      case Fault(_) => [];
    Run(inner.outcome, [Incoming(req.verb, req.path)] + inner.trace + after)
  }
}
