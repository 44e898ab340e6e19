/**
 * The authentication stage: a shared-secret check on the first value of the
 * `Authorization` header. The token is the piece after the last space of
 * that value, so both `Bearer <token>` and a bare `<token>` are accepted.
 */
module Authentication {
  import opened Wrappers
  import opened Http
  import opened Strings

  const AuthorizationHeader: string := "Authorization"
  const ValidToken: string := "mysecrettoken"
  const TokenMissingMessage: string := "Unauthorized: Token is missing."
  const InvalidTokenMessage: string := "Unauthorized: Invalid token."

  /** How the stage judges a request. */
  datatype Verdict = Missing | Invalid | Accepted

  /**
   * The token as the source computes it: the first header value, split on
   * every space, last piece; `None` when the header holds no value at all.
   */
  function ExtractToken(values: seq<string>): (token: Option<string>)
    ensures token.None? <==> |values| == 0
    ensures token.Some? ==> token.value == LastSegment(values[0], ' ')
  {
    if |values| == 0 then None
    else
      LastOfSplit(values[0], ' ');
      Some(Last(Split(values[0], ' ')))
  }

  /** The header's first value equals the secret, or ends in a space and the secret. */
  predicate CarriesSecret(value: string)
  {
    value == ValidToken ||
    (|value| > |ValidToken| && value[|value| - |ValidToken| - 1..] == " " + ValidToken)
  }

  /** The verdict: header absent, token absent/empty/wrong, or exact match. */
  function Judge(req: Request): (v: Verdict)
    ensures v == Missing <==> AuthorizationHeader !in req.headers
    ensures v == Accepted <==>
              AuthorizationHeader in req.headers &&
              |req.headers[AuthorizationHeader]| > 0 &&
              CarriesSecret(req.headers[AuthorizationHeader][0])
  {
    if AuthorizationHeader !in req.headers then Missing
    else
      var values := req.headers[AuthorizationHeader];
      match ExtractToken(values)
      case None => Invalid
      case Some(token) =>
        LastSegmentIsWord(values[0], ' ', ValidToken);
        if |token| == 0 || token != ValidToken then Invalid else Accepted
  }

  /** A 401 with a plain-text body and no content type. */
  function Unauthorized(message: string): Response
  {
    Response(401, None, Text(message))
  }

  /**
   * The stage itself: a rejection answers 401 without running the rest of
   * the chain and without logging; an accepted request is handed on
   * unchanged and the inner result returned as is.
   */
  function Authenticate(req: Request, next: Handler): (r: Run)
    ensures AuthorizationHeader !in req.headers ==>
              r == Run(Done(Response(401, None, Text(TokenMissingMessage))), [])
    ensures AuthorizationHeader in req.headers && Judge(req) != Accepted ==>
              r == Run(Done(Response(401, None, Text(InvalidTokenMessage))), [])
    ensures Judge(req) == Accepted ==> r == next(req)
  {
    match Judge(req)
    case Missing => Run(Done(Unauthorized(TokenMissingMessage)), [])
    case Invalid => Run(Done(Unauthorized(InvalidTokenMessage)), [])
    case Accepted => next(req)
  }

  /** A rejected request's result does not depend on the rest of the chain. */
  lemma RejectionIgnoresNext(req: Request, next1: Handler, next2: Handler)
    requires Judge(req) != Accepted
    ensures Authenticate(req, next1) == Authenticate(req, next2)
    ensures Authenticate(req, next1).outcome.Done?
    ensures Authenticate(req, next1).outcome.response.status == 401
    ensures Authenticate(req, next1).trace == []
  {
  }

  /** `Bearer mysecrettoken` and a bare `mysecrettoken` are both accepted. */
  lemma AcceptedForms(req: Request)
    requires AuthorizationHeader in req.headers && |req.headers[AuthorizationHeader]| > 0
    requires req.headers[AuthorizationHeader][0] == "Bearer mysecrettoken" ||
             req.headers[AuthorizationHeader][0] == "mysecrettoken"
    ensures Judge(req) == Accepted
  {
  }

  /**
   * An empty value, a trailing space, or a case variant of the secret is
   * rejected as an invalid token.
   */
  lemma RejectedForms(req: Request)
    requires AuthorizationHeader in req.headers && |req.headers[AuthorizationHeader]| > 0
    requires req.headers[AuthorizationHeader][0] == "" ||
             req.headers[AuthorizationHeader][0] == "Bearer mysecrettoken " ||
             req.headers[AuthorizationHeader][0] == "Bearer MySecretToken" ||
             req.headers[AuthorizationHeader][0] == "Bearer wrongvalue"
    ensures Judge(req) == Invalid
  {
  }
}
