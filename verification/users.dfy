/**
 * The user controller's actions over its in-memory list, modelled as pure
 * functions from the current list to an action result and the next list.
 * The two library checks the actions call (blank-string test and e-mail
 * syntax) are opaque to this model and come in as a `Validators` value.
 */
module Users {
  import opened Wrappers

  datatype User = User(id: int, name: string, email: string)

  /** The library predicates the validation relies on, left uninterpreted. */
  datatype Validators = Validators(
    isNullOrWhiteSpace: string -> bool,
    isValidEmail: string -> bool)

  /** The result an action hands back; bodies are kept structured. */
  datatype ActionResult =
    | OkList(users: seq<User>)          // 200 with the list
    | OkUser(user: User)                // 200 with one user
    | Created(routeId: int, user: User) // 201, location points at routeId
    | NoContent                         // 204
    | NotFound(message: string)         // 404 {message}
    | BadRequest(message: string)       // 400 {message}

  /** An action's result together with the list after the action. */
  datatype Step = Step(result: ActionResult, store: seq<User>)

  const UserNotFound: string := "User not found"
  const UserDataRequired: string := "User data is required."
  const UpdatedDataRequired: string := "Updated user data is required."
  const NameRequired: string := "Name is required."
  const EmailRequired: string := "Email is required."
  const InvalidEmail: string := "Invalid email format."

  function StatusCode(result: ActionResult): int
  {
    match result
    case OkList(_) => 200
    case OkUser(_) => 200
    case Created(_, _) => 201
    case NoContent => 204
    case NotFound(_) => 404
    case BadRequest(_) => 400
  }

  /** `id` occurs in the list. */
  predicate HasId(store: seq<User>, id: int)
  {
    exists j :: 0 <= j < |store| && store[j].id == id
  }

  /** Number of entries carrying `id`. */
  function CountId(store: seq<User>, id: int): nat
  {
    if |store| == 0 then 0
    else (if store[0].id == id then 1 else 0) + CountId(store[1..], id)
  }

  /** Position of the first entry with `id` (LINQ `FirstOrDefault`). */
  function FirstIndex(store: seq<User>, id: int): (r: Option<nat>)
    ensures r.None? <==> !HasId(store, id)
    ensures r.Some? ==> r.value < |store| && store[r.value].id == id
    ensures r.Some? ==> forall j :: 0 <= j < r.value ==> store[j].id != id
  {
    if |store| == 0 then None
    else if store[0].id == id then Some(0)
    else
      match FirstIndex(store[1..], id)
      case None =>
        assert forall j :: 1 <= j < |store| ==> store[j] == store[1..][j - 1];
        None
      case Some(k) => Some(k + 1)
  }

  /**
   * The checks create and update run, in order: body present, name not
   * blank, email not blank, email well-formed. The first failure decides.
   */
  function ValidationError(v: Validators, body: Option<User>, missing: string): (err: Option<string>)
    ensures err.None? <==>
              body.Some? && !v.isNullOrWhiteSpace(body.value.name) &&
              !v.isNullOrWhiteSpace(body.value.email) && v.isValidEmail(body.value.email)
    ensures err.Some? ==> err.value in {missing, NameRequired, EmailRequired, InvalidEmail}
  {
    match body
    case None => Some(missing)
    case Some(u) =>
      if v.isNullOrWhiteSpace(u.name) then Some(NameRequired)
      else if v.isNullOrWhiteSpace(u.email) then Some(EmailRequired)
      else if !v.isValidEmail(u.email) then Some(InvalidEmail)
      else None
  }

  /** GET api/users: the whole list, in insertion order, nothing changed. */
  function GetAllUsers(store: seq<User>): (s: Step)
    ensures s.store == store
    ensures s.result.OkList? && s.result.users == store
    ensures StatusCode(s.result) == 200
  {
    Step(OkList(store), store)
  }

  /** GET api/users/{id}: the first user with that id, or 404. */
  function GetUserById(store: seq<User>, id: int): (s: Step)
    ensures s.store == store
    ensures s.result.NotFound? <==> !HasId(store, id)
    ensures s.result.NotFound? ==> s.result.message == "User not found"
    ensures !s.result.NotFound? ==>
              s.result.OkUser? && s.result.user.id == id && s.result.user in store &&
              exists i :: 0 <= i < |store| && store[i] == s.result.user &&
                          forall j :: 0 <= j < i ==> store[j].id != id
  {
    match FirstIndex(store, id)
    case None => Step(NotFound(UserNotFound), store)
    case Some(i) => Step(OkUser(store[i]), store)
  }

  /**
   * POST api/users: validate, then append the body as given (no id is
   * assigned and duplicates are not refused); 201 with that user.
   */
  function CreateUser(v: Validators, store: seq<User>, body: Option<User>): (s: Step)
    ensures ValidationError(v, body, UserDataRequired).Some? ==>
              s == Step(BadRequest(ValidationError(v, body, UserDataRequired).value), store)
    ensures ValidationError(v, body, UserDataRequired).None? ==>
              |s.store| == |store| + 1 && s.store[..|store|] == store &&
              s.store[|store|] == body.value &&
              s.result == Created(body.value.id, body.value)
  {
    match ValidationError(v, body, UserDataRequired)
    case Some(message) => Step(BadRequest(message), store)
    case None => Step(Created(body.value.id, body.value), store + [body.value])
  }

  /**
   * PUT api/users/{id}: an unknown id is a 404 before the body is looked at;
   * then validation; then the first matching entry takes the new name and
   * email, keeping its id and place; 204.
   */
  function UpdateUser(v: Validators, store: seq<User>, id: int, body: Option<User>): (s: Step)
    ensures !HasId(store, id) ==> s == Step(NotFound(UserNotFound), store)
    ensures HasId(store, id) && ValidationError(v, body, UpdatedDataRequired).Some? ==>
              s == Step(BadRequest(ValidationError(v, body, UpdatedDataRequired).value), store)
    ensures HasId(store, id) && ValidationError(v, body, UpdatedDataRequired).None? ==>
              s.result == NoContent && |s.store| == |store| &&
              exists i :: 0 <= i < |store| && store[i].id == id &&
                (forall j :: 0 <= j < i ==> store[j].id != id) &&
                s.store[i] == User(id, body.value.name, body.value.email) &&
                (forall j :: 0 <= j < |store| && j != i ==> s.store[j] == store[j])
  {
    match FirstIndex(store, id)
    case None => Step(NotFound(UserNotFound), store)
    case Some(i) =>
      match ValidationError(v, body, UpdatedDataRequired)
      case Some(message) => Step(BadRequest(message), store)
      case None =>
        var updated := store[i].(name := body.value.name, email := body.value.email);
        Step(NoContent, store[i := updated])
  }

  /**
   * DELETE api/users/{id}: removes exactly the first matching entry, keeping
   * the order of the others; 404 and no change for an unknown id.
   */
  function DeleteUser(store: seq<User>, id: int): (s: Step)
    ensures !HasId(store, id) ==> s == Step(NotFound(UserNotFound), store)
    ensures HasId(store, id) ==>
              s.result == NoContent && |s.store| == |store| - 1 &&
              exists i :: 0 <= i < |store| && store[i].id == id &&
                (forall j :: 0 <= j < i ==> store[j].id != id) &&
                s.store == store[..i] + store[i + 1..]
  {
    match FirstIndex(store, id)
    case None => Step(NotFound(UserNotFound), store)
    case Some(i) => Step(NoContent, store[..i] + store[i + 1..])
  }

  /** The first failing check decides the message, whatever the later fields hold. */
  lemma ValidationPrecedence(v: Validators, body: Option<User>, missing: string)
    ensures body.None? ==> ValidationError(v, body, missing) == Some(missing)
    ensures body.Some? && v.isNullOrWhiteSpace(body.value.name) ==>
              ValidationError(v, body, missing) == Some("Name is required.")
    ensures body.Some? && !v.isNullOrWhiteSpace(body.value.name) &&
            v.isNullOrWhiteSpace(body.value.email) ==>
              ValidationError(v, body, missing) == Some("Email is required.")
    ensures body.Some? && !v.isNullOrWhiteSpace(body.value.name) &&
            !v.isNullOrWhiteSpace(body.value.email) && !v.isValidEmail(body.value.email) ==>
              ValidationError(v, body, missing) == Some("Invalid email format.")
  {
  }

  /** Counting matches agrees with the existence test. */
  lemma {:induction false} CountIdPositive(store: seq<User>, id: int)
    ensures CountId(store, id) > 0 <==> HasId(store, id)
  {
    if |store| > 0 {
      CountIdPositive(store[1..], id);
      if HasId(store[1..], id) {
        var j :| 0 <= j < |store[1..]| && store[1..][j].id == id;
        assert store[j + 1].id == id;
      }
      if HasId(store, id) && store[0].id != id {
        var j :| 0 <= j < |store| && store[j].id == id;
        assert store[1..][j - 1].id == id;
      }
    }
  }

  /** Counting distributes over concatenation. */
  lemma {:induction false} CountIdAppend(a: seq<User>, b: seq<User>, id: int)
    ensures CountId(a + b, id) == CountId(a, id) + CountId(b, id)
    decreases |a|
  {
    if |a| > 0 {
      CountIdAppend(a[1..], b, id);
      assert (a + b)[1..] == a[1..] + b;
    } else {
      assert a + b == b;
    }
  }

  /** Deleting removes one entry with that id and leaves every other id's count. */
  lemma DeleteRemovesOneMatch(store: seq<User>, id: int, other: int)
    requires HasId(store, id)
    requires other != id
    ensures CountId(DeleteUser(store, id).store, id) == CountId(store, id) - 1
    ensures CountId(DeleteUser(store, id).store, other) == CountId(store, other)
    ensures multiset(DeleteUser(store, id).store) + multiset{store[FirstIndex(store, id).value]} ==
              multiset(store)
  {
    var i := FirstIndex(store, id).value;
    var after := DeleteUser(store, id).store;
    assert after == store[..i] + store[i + 1..];
    assert store == store[..i] + [store[i]] + store[i + 1..];
    CountIdAppend(store[..i] + [store[i]], store[i + 1..], id);
    CountIdAppend(store[..i], [store[i]], id);
    CountIdAppend(store[..i], store[i + 1..], id);
    CountIdAppend(store[..i] + [store[i]], store[i + 1..], other);
    CountIdAppend(store[..i], [store[i]], other);
    CountIdAppend(store[..i], store[i + 1..], other);
  }

  /** After a delete the id is still found exactly when it was duplicated. */
  lemma DeleteThenGet(store: seq<User>, id: int)
    requires HasId(store, id)
    ensures GetUserById(DeleteUser(store, id).store, id).result.NotFound? <==> CountId(store, id) == 1
  {
    DeleteRemovesOneMatch(store, id, id + 1);
    CountIdPositive(DeleteUser(store, id).store, id);
  }

  /** A created user with a fresh id is what a later lookup of that id returns. */
  lemma CreateThenGet(v: Validators, store: seq<User>, u: User)
    requires ValidationError(v, Some(u), UserDataRequired).None?
    requires !HasId(store, u.id)
    ensures GetUserById(CreateUser(v, store, Some(u)).store, u.id).result == OkUser(u)
  {
  }

  /**
   * Ids are not unique: a created user whose id is already present is
   * shadowed, and a lookup still returns the earlier entry.
   */
  lemma CreateDuplicateIsShadowed(v: Validators, store: seq<User>, u: User)
    requires ValidationError(v, Some(u), UserDataRequired).None?
    requires HasId(store, u.id)
    ensures GetUserById(CreateUser(v, store, Some(u)).store, u.id).result ==
              GetUserById(store, u.id).result
    ensures CountId(CreateUser(v, store, Some(u)).store, u.id) == CountId(store, u.id) + 1
  {
    var after := CreateUser(v, store, Some(u)).store;
    assert after == store + [u];
    var i := FirstIndex(store, u.id).value;
    var k := FirstIndex(after, u.id).value;
    assert after[i] == store[i];
    assert k == i;
    CountIdAppend(store, [u], u.id);
  }

  /** Listing after creations shows the users in the order they were created. */
  lemma CreatesAppearInOrder(v: Validators, store: seq<User>, u1: User, u2: User)
    requires ValidationError(v, Some(u1), UserDataRequired).None?
    requires ValidationError(v, Some(u2), UserDataRequired).None?
    ensures GetAllUsers(CreateUser(v, CreateUser(v, store, Some(u1)).store, Some(u2)).store).result ==
              OkList(store + [u1, u2])
  {
  }

  /** A successful update is what a later lookup of the id returns. */
  lemma UpdateThenGet(v: Validators, store: seq<User>, id: int, u: User)
    requires HasId(store, id)
    requires ValidationError(v, Some(u), UpdatedDataRequired).None?
    ensures GetUserById(UpdateUser(v, store, id, Some(u)).store, id).result ==
              OkUser(User(id, u.name, u.email))
  {
  }

  /** An update keeps every entry's id, hence every id's multiplicity. */
  lemma {:induction false} UpdateKeepsIds(v: Validators, store: seq<User>, id: int, body: Option<User>, other: int)
    ensures |UpdateUser(v, store, id, body).store| == |store|
    ensures forall j :: 0 <= j < |store| ==> UpdateUser(v, store, id, body).store[j].id == store[j].id
    ensures CountId(UpdateUser(v, store, id, body).store, other) == CountId(store, other)
  {
    SameIdsSameCount(store, UpdateUser(v, store, id, body).store, other);
  }

  /** Lists that agree on ids position by position count every id alike. */
  lemma {:induction false} SameIdsSameCount(a: seq<User>, b: seq<User>, id: int)
    requires |a| == |b|
    requires forall j :: 0 <= j < |a| ==> a[j].id == b[j].id
    ensures CountId(a, id) == CountId(b, id)
    decreases |a|
  {
    if |a| > 0 {
      SameIdsSameCount(a[1..], b[1..], id);
    }
  }
}
