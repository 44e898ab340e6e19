# UserManagementAPI — request pipeline and user store, modelled in Dafny

This project models the core of a small ASP.NET Core web service that keeps user
records in memory. The model has two parts.

- **The request pipeline.** Three interceptors (middleware) are registered in a
  fixed order: the error boundary, then authentication, then logging, then the
  endpoint. Each interceptor is a pure function of the request and of a
  continuation `next: Request -> Run`. A `Run` pairs the outcome with the log
  records written, in order. The outcome is either a finished `Response` or a
  `Fault(message)`, which stands for an exception still in flight.
  `Pipeline.Compose` nests the stages in registration order.
  - "Short-circuit" means the result does not depend on `next`.
  - "Calls `next` exactly once" means the result is built from the single value
    `next(req)`, with the request unmodified, and `next`'s log records appear in
    the output exactly once.
- **The user controller.** `GetAllUsers`, `GetUserById`, `CreateUser`,
  `UpdateUser` and `DeleteUser` work over an ordered `seq<User>`. Each is a pure
  function returning the action result and the list after the action. Two
  library checks are called by the source but their code is not available:
  `string.IsNullOrWhiteSpace` and `EmailAddressAttribute.IsValid`. They are left
  uninterpreted as the function-valued fields of a `Validators` value.

Files: `wrappers.dfy` (Option), `strings.dfy` (split on a character, and the
piece after the last separator), `http.dfy` (request/response data),
`authentication.dfy`, `error_handling.dfy`, `logging.dfy`, `pipeline.dfy`,
`users.dfy`.

The middleware classes exist twice: once in their own files and once inline in
`Program.cs`. The two copies decide the same way. The model follows the copies in
their own files and cites both.

Two behaviours of the code worth noting:
- The token is taken by splitting the first header value on every space and
  keeping the last piece, not by splitting on the first space. So
  `Bearer  mysecrettoken`, `Basic mysecrettoken` and a bare `mysecrettoken` are
  all accepted.
- `CreateUser` assigns no id and does not check for duplicates. The body's own id
  is stored, and a later lookup of a duplicated id returns the earlier entry
  (`Users.CreateDuplicateIsShadowed`).

## Model

| member | source | states |
|---|---|---|
| `Strings.JoinSplit` | UserManagementAPI/AuthenticationMiddleware.cs:28 | Splitting on a separator loses nothing: joining the pieces with the separator gives back the header value |
| `Strings.SplitJoin` | UserManagementAPI/AuthenticationMiddleware.cs:28 | Splitting separator-free pieces after joining them gives the same pieces back, so `Split` is the inverse of `Join` |
| `Strings.Split` | UserManagementAPI/AuthenticationMiddleware.cs:28 | Splits on every space and keeps empty pieces. It never returns an empty list, and no piece contains a space |
| `Strings.LastSegment` | UserManagementAPI/AuthenticationMiddleware.cs:28 | The result is the separator-free suffix of the value that is either the whole value or preceded by a separator, i.e. the text after the last space |
| `Strings.LastOfSplit` | UserManagementAPI/AuthenticationMiddleware.cs:28 | The last piece of `Split(" ")` equals the text after the last space, so a bare token with no space is used whole |
| `Strings.LastSegmentIsWord` | UserManagementAPI/AuthenticationMiddleware.cs:28-29 | For a word without spaces, the last piece equals the word exactly when the value is the word or ends with a space followed by the word |
| `Authentication.ExtractToken` | UserManagementAPI/AuthenticationMiddleware.cs:28 | No token exists exactly when the header has no value; otherwise the token is the text after the last space of the first value |
| `Authentication.Judge` | UserManagementAPI/AuthenticationMiddleware.cs:10-33 | The verdict is Missing exactly when there is no `Authorization` header. It is Accepted exactly when the first value is `mysecrettoken` or ends in a space and `mysecrettoken` (exact, case-sensitive). Otherwise it is Invalid, which covers no value, an empty token and a wrong token. Same logic in Program.cs:106,115-131 |
| `Authentication.Authenticate` | UserManagementAPI/AuthenticationMiddleware.cs:17-38 | A missing header gives 401 `Unauthorized: Token is missing.`, with no content type and no log record. A bad token gives 401 `Unauthorized: Invalid token.`. An accepted request returns `next(req)` unchanged. Same in Program.cs:113-135 |
| `Authentication.RejectionIgnoresNext` | UserManagementAPI/AuthenticationMiddleware.cs:20-34 | A rejected request's result is the same whatever the rest of the chain does; it is a 401 with an empty trace, so `next` never runs |
| `Authentication.AcceptedForms` | UserManagementAPI/AuthenticationMiddleware.cs:27-29 | `Bearer mysecrettoken` and a bare `mysecrettoken` are both accepted |
| `Authentication.RejectedForms` | UserManagementAPI/AuthenticationMiddleware.cs:28-33 | An empty value, a trailing space, `Bearer MySecretToken` and `Bearer wrongvalue` are each judged Invalid |
| `ErrorHandling.Boundary` | UserManagementAPI/ErrorHandlingMiddleware.cs:17-38 | The outcome is never a fault. A normal inner outcome is returned unchanged. A fault becomes status 500, content type `application/json`, body `{error: "Internal server error.", details: <message verbatim>}`. The inner log records are kept. Same in Program.cs:76-98 |
| `Logging.Log` | UserManagementAPI/LoggingMiddleware.cs:17-29 | The outcome is the inner outcome, unchanged, and a fault propagates. The first record is `Incoming(method, path)`, followed by the inner records exactly once. After a normal completion there is exactly one final `Outgoing(status)` with the final status; after a fault there is none. Same in Program.cs:146-158 |
| `Pipeline.ApplyDependsOnlyOnNextAt` | UserManagementAPI/Program.cs:76-158 | Every stage hands the request on unmodified and uses the rest of the chain only through its answer for that request |
| `Pipeline.RegistrationOrder` | UserManagementAPI/Program.cs:26-32 | The composed application is the error boundary around authentication around logging around the endpoint |
| `Pipeline.ServerMissingHeader` | UserManagementAPI/Program.cs:115-121 | End to end, a request without `Authorization` gets 401 `Unauthorized: Token is missing.` with no log record, whatever the endpoint |
| `Pipeline.ServerInvalidToken` | UserManagementAPI/Program.cs:124-131 | End to end, a header whose token is absent, empty or wrong gets 401 `Unauthorized: Invalid token.` with no log record |
| `Pipeline.ServerAccepted` | UserManagementAPI/Program.cs:76-158 | End to end, an accepted request gets the endpoint's response unchanged. The trace is `Incoming`, then the endpoint's records, then `Outgoing(status)` |
| `Pipeline.ServerFault` | UserManagementAPI/Program.cs:83-98 | End to end, an endpoint fault becomes the 500 JSON envelope with the message. The trace keeps `Incoming` and has no `Outgoing` |
| `Pipeline.BoundaryOutermostNeverFaults` | UserManagementAPI/Program.cs:76-99 | Any chain whose outermost stage is the error boundary never lets a fault out, whatever the inner stages and endpoint are |
| `Pipeline.ServerNeverFaults` | UserManagementAPI/Program.cs:26-32 | The registered application always answers with a response |
| `Pipeline.RejectedChainIgnoresEndpoint` | UserManagementAPI/Program.cs:115-131 | In any chain that contains authentication, a rejected request's result does not depend on the endpoint: nothing inside the rejecting stage runs |
| `Pipeline.LoggingOutsideAuthenticationWouldLogRejections` | UserManagementAPI/Program.cs:29-32 | The order matters: with logging outside authentication, a request with no header would be logged as `Incoming` and `Outgoing(401)` |
| `Users.FirstIndex` | UserManagementAPI/UsersController.cs:34 | Returns the position of the first user with the id. It returns None exactly when no user has the id; every earlier entry has a different id |
| `Users.ValidationError` | UserManagementAPI/UsersController.cs:52-59 | Validation passes exactly when the body is present, the name and email are not blank, and the email is well formed. A failure message is one of the four fixed messages |
| `Users.ValidationPrecedence` | UserManagementAPI/UsersController.cs:81-88 | The checks run in order: missing body, blank name, blank email, bad email format. The first failure decides the message whatever the later fields hold |
| `Users.GetAllUsers` | UserManagementAPI/UsersController.cs:15-19 | Returns 200 with the whole list in insertion order and leaves the list unchanged |
| `Users.GetUserById` | UserManagementAPI/UsersController.cs:30-37 | Gives 404 `User not found` exactly when no entry has the id. Otherwise it gives 200 with the first entry in list order that has the id. The list is unchanged either way |
| `Users.CreateUser` | UserManagementAPI/UsersController.cs:47-62 | Any validation failure gives 400 with the first failing check's message and leaves the list unchanged. Success appends exactly the given user at the end, with no id assigned, and gives 201 with that user |
| `Users.UpdateUser` | UserManagementAPI/UsersController.cs:72-92 | An unknown id gives 404 before the body is examined. Then validation failures give 400 with the list unchanged. Success gives 204 and changes only the name and email of the first matching entry; its id, the length and all other entries are kept |
| `Users.DeleteUser` | UserManagementAPI/UsersController.cs:102-111 | An unknown id gives 404 with the list unchanged. Otherwise the call gives 204 and removes exactly the first matching entry; the length drops by one and the others keep their order |
| `Users.DeleteRemovesOneMatch` | UserManagementAPI/UsersController.cs:106-110 | A delete lowers that id's count by one and leaves every other id's count unchanged. The multiset of users loses exactly the removed entry |
| `Users.DeleteThenGet` | UserManagementAPI/UsersController.cs:106-110 | After a delete, a lookup of the id gives 404 exactly when the id occurred once; a duplicate becomes visible otherwise |
| `Users.CreateThenGet` | UserManagementAPI/UsersController.cs:61-62 | After creating a user whose id is fresh, a lookup of that id returns the created user |
| `Users.CreateDuplicateIsShadowed` | UserManagementAPI/UsersController.cs:61-62 | Creating a user whose id already exists adds one more entry with that id, but a lookup still returns the earlier entry |
| `Users.CreatesAppearInOrder` | UserManagementAPI/UsersController.cs:61 | Two successful creates followed by a listing show the two users at the end, in creation order |
| `Users.UpdateThenGet` | UserManagementAPI/UsersController.cs:90-92 | After a successful update, a lookup of the id returns the entry with the id kept and the new name and email |
| `Users.UpdateKeepsIds` | UserManagementAPI/UsersController.cs:90-91 | Every update outcome keeps the length and each entry's id, so every id's multiplicity is unchanged |

## Left out

- Console and `ILogger` output: the logging stage's records are an appended `seq<LogEntry>`. The `[DEBUG]` console lines of the inline copies in `Program.cs` are not modelled (lines 86, 117, 127). They have no effect on any response.
- The asynchronous machinery and the real HTTP objects: `Task`, `HttpContext`, `WriteAsync`. A response is a value, and the host's refusal to change the status once a body has started is not modelled. So `ErrorHandling.Boundary` always replaces the response on a fault.
- Header-name case-insensitivity and multi-value storage are host behaviour. Headers are a map from an already normalised name to the ordered values.
- JSON serialisation: the 500 envelope and the `{message}` bodies are structured values.
- `Users.ValidationError`: `string.IsNullOrWhiteSpace` and `EmailAddressAttribute.IsValid` are library code whose source is not available here. They are parameters, so the contracts hold for every choice of the two predicates. A `null` name or email is represented by a string the blank predicate accepts.
- Routing: `Program.cs` never registers the controllers, so the pipeline's endpoint is a parameter and the user actions are modelled on their own. The `[ApiController]` automatic model validation and the `[Required]`/`[EmailAddress]` annotations are also left out.
- The controller's `catch` blocks returning 500 (UsersController.cs:21-25, 39-42, 64-67, 94-97, 113-116): the list operations of the model cannot fault.
- Concurrent access to the unsynchronised static list: the actions are modelled as sequential functions.
- Object identity: `users.Remove(user)` removes the first reference-equal element. That is the element `FirstOrDefault` found, because every earlier entry has a different id. Likewise, the in-place update of `user` is the replacement of that position.
- The weather forecast endpoint, which uses randomness, the clock and floating point. Host setup is also left out: Swagger and HTTPS redirection.
- Program.cs holds a second definition of the three middleware classes: only one copy is modelled.
