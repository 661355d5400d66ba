/** The HTTP layer's decisions (internal/rest/user.go): which routes sit
    behind the guard, and, per handler, the ownership check and the mapping
    from the service's answer to a status and a message. Binding the JSON
    body is done by the framework; its result is an input here. */
module Rest {
  import opened Wrappers
  import opened Text
  import opened Entities

  const StatusOK: int := 200
  const StatusCreated: int := 201
  const StatusNoContent: int := 204
  const StatusBadRequest: int := 400
  const StatusUnauthorized: int := 401
  const StatusForbidden: int := 403
  const StatusNotFound: int := 404
  const StatusInternalServerError: int := 500

  const ServiceUnavailable: string := "service unavailable"
  const ForbiddenMessage: string := "forbidden"
  const NotFoundMessage: string := "not found"
  const UnauthorizedMessage: string := "unauthorized"
  const InvalidPasswordPrefix: string := "invalid password"
  const RecordNotFoundText: string := "record not found"

  datatype CreateUserPayload = CreateUserPayload(name: string, email: string, password: string, birthday: Option<Date>)
  datatype LogInUserPayload = LogInUserPayload(email: string, password: string)
  datatype UserPatchPayload = UserPatchPayload(name: string, birthday: Option<Date>)

  /** The `data` member of a response envelope. */
  datatype Data = UserData(user: User) | TokenData(token: string)

  /** A response body: the `{data, error}` envelope (absent members omitted),
      or the framework's plain-text page. */
  datatype Body = Envelope(data: Option<Data>, error: Option<string>) | PlainText(text: string)

  /** What a handler does: the status and body it writes, and whether it
      called the service. */
  datatype Reply = Reply(status: int, body: Body, serviceCalled: bool)

  function ErrorBody(message: string): Body
  {
    Envelope(None, Some(message))
  }

  /** A reply written before the service is reached. */
  function Reject(status: int, message: string): (r: Reply)
    ensures !r.serviceCalled
  {
    Reply(status, ErrorBody(message), false)
  }

  /** The ownership check: the path id must equal the `userid` the guard
      bound. An unbound `userid` (a nil interface) never equals a string. */
  predicate Owns(pathId: string, ctxUserId: Option<string>)
  {
    ctxUserId == Some(pathId)
  }

  /** The record createUser hands the service: the payload's four fields, no id. */
  function CreateArgument(p: CreateUserPayload): (u: User)
    ensures u.id.None? && u.name == p.name && u.email == p.email && u.password == p.password && u.birthday == p.birthday
  {
    User(None, p.name, p.email, p.password, p.birthday)
  }

  /** The record logInUser hands the service: only email and password. */
  function LogInArgument(p: LogInUserPayload): (u: User)
    ensures u.id.None? && u.name == "" && u.email == p.email && u.password == p.password && u.birthday.None?
  {
    User(None, "", p.email, p.password, None)
  }

  /** The record updateUser hands the service: only the path id, the name and
      the birthday; email and password are left empty. */
  function UpdateArgument(pathId: string, p: UserPatchPayload): (u: User)
    ensures u.id == Some(pathId) && u.name == p.name && u.birthday == p.birthday
    ensures u.email == "" && u.password == ""
  {
    User(Some(pathId), p.name, "", "", p.birthday)
  }

  /** The shared tail of getUser and updateUser: an error is a generic 500, a
      nil user with no error is 404, a user is 200 with that user. */
  function FetchedUserReply(outcome: Result<Option<User>, string>): (r: Reply)
    ensures r.serviceCalled
    ensures outcome.Failure? ==> r.status == StatusInternalServerError && r.body == ErrorBody(ServiceUnavailable)
    ensures outcome == Success(None) ==> r.status == StatusNotFound && r.body == ErrorBody(NotFoundMessage)
    ensures outcome.Success? && outcome.value.Some? ==>
              r.status == StatusOK && r.body == Envelope(Some(UserData(outcome.value.value)), None)
  {
    match outcome
    case Failure(_) => Reply(StatusInternalServerError, ErrorBody(ServiceUnavailable), true)
    case Success(None) => Reply(StatusNotFound, ErrorBody(NotFoundMessage), true)
    case Success(Some(u)) => Reply(StatusOK, Envelope(Some(UserData(u)), None), true)
  }

  /** createUser: a binding error is 400 with its text; an error that starts
      with "invalid password" is 400 with that text; any other error is a
      generic 500; success is 201 with the created user (possibly none). */
  function CreateUser(bind: Result<CreateUserPayload, string>, outcome: Result<Option<User>, string>): (r: Reply)
    ensures bind.Failure? ==> r == Reject(StatusBadRequest, bind.error)
    ensures bind.Success? ==> r.serviceCalled
    ensures bind.Success? && outcome.Failure? && HasPrefix(outcome.error, InvalidPasswordPrefix) ==>
              r.status == StatusBadRequest && r.body == ErrorBody(outcome.error)
    ensures bind.Success? && outcome.Failure? && !HasPrefix(outcome.error, InvalidPasswordPrefix) ==>
              r.status == StatusInternalServerError && r.body == ErrorBody(ServiceUnavailable)
    ensures bind.Success? && outcome.Success? ==>
              r.status == StatusCreated
              && r.body == Envelope(if outcome.value.Some? then Some(UserData(outcome.value.value)) else None, None)
  {
    match bind
    case Failure(e) => Reject(StatusBadRequest, e)
    case Success(_) =>
      match outcome
      case Failure(e) =>
        if HasPrefix(e, InvalidPasswordPrefix) then Reply(StatusBadRequest, ErrorBody(e), true)
        else Reply(StatusInternalServerError, ErrorBody(ServiceUnavailable), true)
      case Success(created) =>
        Reply(StatusCreated, Envelope(match created case Some(u) => Some(UserData(u)) case None => None, None), true)
  }

  /** getUser: 403 "forbidden" without calling the service unless the caller
      owns the path id; then the fetched-user mapping. */
  function GetUser(pathId: string, ctxUserId: Option<string>, outcome: Result<Option<User>, string>): (r: Reply)
    ensures !Owns(pathId, ctxUserId) ==> r == Reject(StatusForbidden, ForbiddenMessage)
    ensures Owns(pathId, ctxUserId) ==> r == FetchedUserReply(outcome)
  {
    if !Owns(pathId, ctxUserId) then Reject(StatusForbidden, ForbiddenMessage)
    else FetchedUserReply(outcome)
  }

  /** logInUser: a binding error is 400 with its text; a service error is a
      generic 500; an empty token is 401 "unauthorized"; otherwise 200 with
      the token. */
  function LogInUser(bind: Result<LogInUserPayload, string>, outcome: Result<string, string>): (r: Reply)
    ensures bind.Failure? ==> r == Reject(StatusBadRequest, bind.error)
    ensures bind.Success? ==> r.serviceCalled
    ensures bind.Success? && outcome.Failure? ==> r.status == StatusInternalServerError && r.body == ErrorBody(ServiceUnavailable)
    ensures bind.Success? && outcome == Success("") ==> r.status == StatusUnauthorized && r.body == ErrorBody(UnauthorizedMessage)
    ensures bind.Success? && outcome.Success? && outcome.value != "" ==>
              r.status == StatusOK && r.body == Envelope(Some(TokenData(outcome.value)), None)
  {
    match bind
    case Failure(e) => Reject(StatusBadRequest, e)
    case Success(_) =>
      match outcome
      case Failure(_) => Reply(StatusInternalServerError, ErrorBody(ServiceUnavailable), true)
      case Success(token) =>
        if token == "" then Reply(StatusUnauthorized, ErrorBody(UnauthorizedMessage), true)
        else Reply(StatusOK, Envelope(Some(TokenData(token)), None), true)
  }

  /** updateUser: the body is bound first (400 on failure, before any
      ownership check), then the ownership check (403), then the
      fetched-user mapping. */
  function UpdateUser(bind: Result<UserPatchPayload, string>, pathId: string, ctxUserId: Option<string>,
                      outcome: Result<Option<User>, string>): (r: Reply)
    ensures bind.Failure? ==> r == Reject(StatusBadRequest, bind.error)
    ensures bind.Success? && !Owns(pathId, ctxUserId) ==> r == Reject(StatusForbidden, ForbiddenMessage)
    ensures bind.Success? && Owns(pathId, ctxUserId) ==> r == FetchedUserReply(outcome)
  {
    match bind
    case Failure(e) => Reject(StatusBadRequest, e)
    case Success(_) =>
      if !Owns(pathId, ctxUserId) then Reject(StatusForbidden, ForbiddenMessage)
      else FetchedUserReply(outcome)
  }

  /** deleteUser: 403 unless the caller owns the path id; an error whose text
      contains "record not found" is 404; any other error a generic 500;
      success 204. */
  function DeleteUser(pathId: string, ctxUserId: Option<string>, outcome: Outcome<string>): (r: Reply)
    ensures !Owns(pathId, ctxUserId) ==> r == Reject(StatusForbidden, ForbiddenMessage)
    ensures Owns(pathId, ctxUserId) ==> r.serviceCalled
    ensures Owns(pathId, ctxUserId) && outcome.Fail? && Contains(outcome.error, RecordNotFoundText) ==>
              r.status == StatusNotFound && r.body == ErrorBody(NotFoundMessage)
    ensures Owns(pathId, ctxUserId) && outcome.Fail? && !Contains(outcome.error, RecordNotFoundText) ==>
              r.status == StatusInternalServerError && r.body == ErrorBody(ServiceUnavailable)
    ensures Owns(pathId, ctxUserId) && outcome.Pass? ==> r.status == StatusNoContent && r.body == Envelope(None, None)
  {
    if !Owns(pathId, ctxUserId) then Reject(StatusForbidden, ForbiddenMessage)
    else
      match outcome
      case Fail(e) =>
        if Contains(e, RecordNotFoundText) then Reply(StatusNotFound, ErrorBody(NotFoundMessage), true)
        else Reply(StatusInternalServerError, ErrorBody(ServiceUnavailable), true)
      case Pass => Reply(StatusNoContent, Envelope(None, None), true)
  }

  /** The messages a handler may write once the body has bound: fixed texts,
      except a policy error on create, which is passed through. */
  predicate GenericMessage(m: string)
  {
    m == ServiceUnavailable || m == ForbiddenMessage || m == NotFoundMessage || m == UnauthorizedMessage
  }

  /** No service error text reaches the client from get, login, update or
      delete, and from create only a password-policy error does. */
  lemma ServiceErrorsNotLeaked(pathId: string, ctxUserId: Option<string>, e: string,
                               c: CreateUserPayload, l: LogInUserPayload, p: UserPatchPayload)
    ensures GenericMessage(GetUser(pathId, ctxUserId, Failure(e)).body.error.value)
    ensures GenericMessage(LogInUser(Success(l), Failure(e)).body.error.value)
    ensures GenericMessage(UpdateUser(Success(p), pathId, ctxUserId, Failure(e)).body.error.value)
    ensures GenericMessage(DeleteUser(pathId, ctxUserId, Fail(e)).body.error.value)
    ensures CreateUser(Success(c), Failure(e)).body.error.value == e ==>
              HasPrefix(e, InvalidPasswordPrefix) || e == ServiceUnavailable
  {
  }

  /** On update a binding failure decides the reply whoever the caller is:
      the ownership check is not reached. */
  lemma UpdateBindsBeforeOwnership(e: string, pathId: string, ctx1: Option<string>, ctx2: Option<string>,
                                   o1: Result<Option<User>, string>, o2: Result<Option<User>, string>)
    ensures UpdateUser(Failure(e), pathId, ctx1, o1) == UpdateUser(Failure(e), pathId, ctx2, o2)
    ensures UpdateUser(Failure(e), pathId, ctx1, o1).status == StatusBadRequest
  {
  }

  datatype Method = GET | POST | PUT | PATCH | DELETE | HEAD | OPTIONS

  /** The handlers routes lead to; the resource routes carry their `:id`. */
  datatype Endpoint = CreateUserRoute | LogInRoute | GetUserRoute(id: string) | UpdateUserRoute(id: string) | DeleteUserRoute(id: string)

  const UsersPath: string := "/v1/users/"

  /** The `:id` segment of a path under /v1/users/: one non-empty segment. */
  function IdSegment(path: string): (id: Option<string>)
    ensures id.Some? <==> HasPrefix(path, UsersPath) && |path| > |UsersPath| && '/' !in path[|UsersPath|..]
    ensures id.Some? ==> path == UsersPath + id.value && id.value != "" && '/' !in id.value
  {
    if HasPrefix(path, UsersPath) && |path| > |UsersPath| && '/' !in path[|UsersPath|..] then
      assert path == UsersPath + path[|UsersPath|..];
      Some(path[|UsersPath|..])
    else None
  }

  /** ImportRoutes: POST /v1/users/ and POST /v1/users/login, then GET, PATCH
      and DELETE on /v1/users/:id; every other method and path has no route. */
  function Route(verb: Method, path: string): (e: Option<Endpoint>)
    ensures verb == POST ==> e == (if path == UsersPath then Some(CreateUserRoute)
                                   else if path == UsersPath + "login" then Some(LogInRoute)
                                   else None)
    ensures verb == GET ==> e == (if IdSegment(path).Some? then Some(GetUserRoute(IdSegment(path).value)) else None)
    ensures verb == PATCH ==> e == (if IdSegment(path).Some? then Some(UpdateUserRoute(IdSegment(path).value)) else None)
    ensures verb == DELETE ==> e == (if IdSegment(path).Some? then Some(DeleteUserRoute(IdSegment(path).value)) else None)
    ensures verb in {PUT, HEAD, OPTIONS} ==> e.None?
  {
    match verb
    case POST =>
      if path == UsersPath then Some(CreateUserRoute)
      else if IdSegment(path) == Some("login") then Some(LogInRoute)
      else None
    case GET => (match IdSegment(path) case Some(id) => Some(GetUserRoute(id)) case None => None)
    case PATCH => (match IdSegment(path) case Some(id) => Some(UpdateUserRoute(id)) case None => None)
    case DELETE => (match IdSegment(path) case Some(id) => Some(DeleteUserRoute(id)) case None => None)
    case _ => None
  }

  /** The routes registered in the group that uses the auth middleware. */
  predicate Protected(e: Endpoint)
  {
    e.GetUserRoute? || e.UpdateUserRoute? || e.DeleteUserRoute?
  }

  /** Exactly GET, PATCH and DELETE on an id are guarded; creating a user and
      logging in are not. */
  lemma ProtectionTable(verb: Method, path: string)
    requires Route(verb, path).Some?
    ensures Protected(Route(verb, path).value) <==> verb in {GET, PATCH, DELETE}
    ensures verb == POST ==> !Protected(Route(verb, path).value)
  {
  }
}
