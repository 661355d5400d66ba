/** The service assembled (cmd/api/main.go wiring, internal/rest/user.go
    routes): one request goes through the route table, the guard on the
    protected group, the handler's decision and the workflow against the
    store. Everything the outside world decides for a request (the clock,
    bcrypt's salt, the fate of each database statement, JSON binding) is an
    input. */
module Server {
  import opened Wrappers
  import opened Entities
  import opened Repository
  import opened Token
  import Text
  import Models
  import Middleware
  import Service
  import Rest

  datatype App = App(store: Store, auth: AuthService, codec: JwtCodec, bcrypt: Models.Bcrypt)

  /** A request: method, path, Authorization header, and what binding its
      body into each payload type gives. */
  datatype Request = Request(
    verb: Rest.Method,
    path: string,
    authorization: string,
    createBody: Result<Rest.CreateUserPayload, string>,
    logInBody: Result<Rest.LogInUserPayload, string>,
    patchBody: Result<Rest.UserPatchPayload, string>)

  /** The world's part in one request: the instant, bcrypt's random salt and
      the outcome of the first and second database statement. */
  datatype World = World(now: int, salt: Models.Salt, first: Io, second: Io)

  datatype Response = Response(status: int, body: Rest.Body)

  const NotFoundPage: string := "404 page not found"

  function ToResponse(reply: Rest.Reply): Response
  {
    Response(reply.status, reply.body)
  }

  /** Runs a handler: the service is called only when the handler's own
      checks let the request through; otherwise the store is untouched and
      the outcome the handler is given is never looked at. */
  function Dispatch(app: App, e: Rest.Endpoint, req: Request, ctx: Option<string>, w: World): (r: (Store, Rest.Reply))
    ensures !r.1.serviceCalled ==> r.0 == app.store
  {
    match e
    case CreateUserRoute =>
      (match req.createBody
       case Failure(_) => (app.store, Rest.CreateUser(req.createBody, Success(None)))
       case Success(p) =>
         var (st', created) := Service.NewUser(app.store, app.bcrypt, w.salt, Rest.CreateArgument(p), w.first, w.second);
         (st', Rest.CreateUser(req.createBody, created)))
    case LogInRoute =>
      (match req.logInBody
       case Failure(_) => (app.store, Rest.LogInUser(req.logInBody, Success("")))
       case Success(p) =>
         var token := Service.LogInUser(app.store, app.auth, app.codec, app.bcrypt, Rest.LogInArgument(p), w.now, w.first);
         (app.store, Rest.LogInUser(req.logInBody, token)))
    case GetUserRoute(id) =>
      if Rest.Owns(id, ctx) then (app.store, Rest.GetUser(id, ctx, Service.GetUser(app.store, id, w.first)))
      else (app.store, Rest.GetUser(id, ctx, Success(None)))
    case UpdateUserRoute(id) =>
      (match req.patchBody
       case Failure(_) => (app.store, Rest.UpdateUser(req.patchBody, id, ctx, Success(None)))
       case Success(p) =>
         if Rest.Owns(id, ctx) then
           var (st', updated) := Service.UpdateUser(app.store, Rest.UpdateArgument(id, p), w.first, w.second);
           (st', Rest.UpdateUser(req.patchBody, id, ctx, updated))
         else (app.store, Rest.UpdateUser(req.patchBody, id, ctx, Success(None))))
    case DeleteUserRoute(id) =>
      if Rest.Owns(id, ctx) then
        var (st', deleted) := Service.DeleteUser(app.store, id, w.first);
        (st', Rest.DeleteUser(id, ctx, deleted))
      else (app.store, Rest.DeleteUser(id, ctx, Pass))
  }

  /** One request end to end: no route is the framework's 404 page; a
      protected route first passes the guard, whose abort is final; the
      handler then runs with `userid` bound to the token's user. */
  function Serve(app: App, req: Request, w: World): (r: (Store, Response))
    ensures Rest.Route(req.verb, req.path).None? ==> r == (app.store, Response(Rest.StatusNotFound, Rest.PlainText(NotFoundPage)))
    ensures Rest.Route(req.verb, req.path).Some? && Rest.Protected(Rest.Route(req.verb, req.path).value)
            && Middleware.AuthMiddleware(app.auth, app.codec, w.now, req.authorization).Abort? ==>
              r.0 == app.store && r.1.status == Rest.StatusUnauthorized
  {
    match Rest.Route(req.verb, req.path)
    case None => (app.store, Response(Rest.StatusNotFound, Rest.PlainText(NotFoundPage)))
    case Some(e) =>
      if Rest.Protected(e) then
        match Middleware.AuthMiddleware(app.auth, app.codec, w.now, req.authorization)
        case Abort(status, message) => (app.store, Response(status, Rest.ErrorBody(message)))
        case Next(userId) =>
          var (st', reply) := Dispatch(app, e, req, Some(userId), w);
          (st', ToResponse(reply))
      else
        var (st', reply) := Dispatch(app, e, req, None, w);
        (st', ToResponse(reply))
  }

  /** A caller whose token names another user is refused with 403 on every
      resource route (after a successful bind on update), and nothing in the
      store changes. */
  lemma OwnershipEnforced(app: App, req: Request, w: World)
    requires Rest.Route(req.verb, req.path).Some? && Rest.Protected(Rest.Route(req.verb, req.path).value)
    requires Middleware.AuthMiddleware(app.auth, app.codec, w.now, req.authorization).Next?
    requires Middleware.AuthMiddleware(app.auth, app.codec, w.now, req.authorization).userId != Rest.Route(req.verb, req.path).value.id
    requires req.verb == Rest.PATCH ==> req.patchBody.Success?
    ensures Serve(app, req, w) == (app.store, Response(Rest.StatusForbidden, Rest.ErrorBody(Rest.ForbiddenMessage)))
  {
  }

  /** Creating a user and logging in never look at the Authorization header. */
  lemma OpenRoutesIgnoreAuthorization(app: App, req: Request, w: World, header: string)
    requires Rest.Route(req.verb, req.path).Some? && !Rest.Protected(Rest.Route(req.verb, req.path).value)
    ensures Serve(app, req, w) == Serve(app, req.(authorization := header), w)
  {
  }

  /** The path of a user's resource routes. */
  function UserPath(id: string): string
  {
    Rest.UsersPath + id
  }

  lemma UserPathRoutes(n: nat)
    ensures Rest.IdSegment(UserPath(Text.NatToString(n))) == Some(Text.NatToString(n))
  {
    var id := Text.NatToString(n);
    var path := UserPath(id);
    assert path[|Rest.UsersPath|..] == id;
    assert path[..|Rest.UsersPath|] == Rest.UsersPath;
    assert '/' !in id by {
      forall i | 0 <= i < |id| ensures id[i] != '/' { assert Text.IsDigit(id[i]); }
    }
  }

  /** Registration: a payload with an unused email and a password the policy
      accepts, when hashing succeeds, makes the create route answer 201 with
      the stored record, whose JSON carries the assigned id and no password. */
  lemma RegisterResponds(app: App, req: Request, w: World)
    requires req.verb == Rest.POST && req.path == Rest.UsersPath && req.createBody.Success?
    requires w.first == Done && w.second == Done
    requires Models.ValidatePassword(req.createBody.value.password).Pass?
    requires app.bcrypt.generate(req.createBody.value.password, w.salt).Success?
    requires forall i :: 0 <= i < |app.store.rows| ==> app.store.rows[i].email != req.createBody.value.email
    ensures var p := req.createBody.value;
            var created := User(Some(AssignedId(app.store)), p.name, p.email, app.bcrypt.generate(p.password, w.salt).value, p.birthday);
            && Serve(app, req, w).1 == Response(Rest.StatusCreated, Rest.Envelope(Some(Rest.UserData(created)), None))
            && ToJson(created)[0].1 == JString(AssignedId(app.store))
            && forall i :: 0 <= i < |ToJson(created)| ==> ToJson(created)[i].0 != "password"
  {
    var p := req.createBody.value;
    Service.RegisterReturnsCreated(app.store, app.bcrypt, w.salt, Rest.CreateArgument(p));
    var created := User(Some(AssignedId(app.store)), p.name, p.email, app.bcrypt.generate(p.password, w.salt).value, p.birthday);
    PasswordNeverSerialised(created, "");
  }

  /** The login request for an email and password. */
  function LogInRequest(email: string, password: string): Request
  {
    Request(Rest.POST, Rest.UsersPath + "login", "", Failure(""), Success(Rest.LogInUserPayload(email, password)), Failure(""))
  }

  /** A login request reaches the login handler with its payload. */
  lemma LogInRequestDispatches(app: App, email: string, password: string, w: World)
    ensures Serve(app, LogInRequest(email, password), w)
            == (app.store, ToResponse(Rest.LogInUser(Success(Rest.LogInUserPayload(email, password)),
                  Service.LogInUser(app.store, app.auth, app.codec, app.bcrypt, User(None, "", email, password, None), w.now, w.first))))
  {
    var path := Rest.UsersPath + "login";
    assert path[|Rest.UsersPath|..] == "login";
    assert path[..|Rest.UsersPath|] == Rest.UsersPath;
    assert Rest.Route(Rest.POST, path) == Some(Rest.LogInRoute);
  }

  /** After registering `u` in table `st`, logging in with the same password
      answers 200 with the token issued for the new id, when signing succeeds. */
  lemma LogInResponds(st: Store, app: App, u: User, salt: Models.Salt, w: World)
    requires Models.Accepts(app.bcrypt)
    requires Models.ValidatePassword(u.password).Pass? && app.bcrypt.generate(u.password, salt).Success?
    requires forall i :: 0 <= i < |st.rows| ==> st.rows[i].email != u.email
    requires w.first == Done
    requires GenerateJWT(app.auth, app.codec, AssignedId(st), w.now).Success?
    ensures var registered := app.(store := Create(st, u, app.bcrypt, salt, Done).0);
            Serve(registered, LogInRequest(u.email, u.password), w).1
            == Response(Rest.StatusOK, Rest.Envelope(Some(Rest.TokenData(GenerateJWT(app.auth, app.codec, AssignedId(st), w.now).value)), None))
  {
    var registered := app.(store := Create(st, u, app.bcrypt, salt, Done).0);
    LogInRequestDispatches(registered, u.email, u.password, w);
    Service.RegisterThenLogIn(st, app.auth, app.codec, app.bcrypt, salt, u, w.now);
  }

  /** A wrong password and an unregistered email both answer the same 401
      "unauthorized". */
  lemma LogInFailuresIndistinguishable(st: Store, app: App, u: User, salt: Models.Salt, w: World, wrong: string, stranger: string)
    requires Models.Discriminates(app.bcrypt)
    requires Models.ValidatePassword(u.password).Pass? && app.bcrypt.generate(u.password, salt).Success?
    requires forall i :: 0 <= i < |st.rows| ==> st.rows[i].email != u.email
    requires w.first == Done
    requires Models.BcryptKey(wrong) != Models.BcryptKey(u.password) && stranger != u.email
    requires forall i :: 0 <= i < |st.rows| ==> st.rows[i].email != stranger
    ensures var registered := app.(store := Create(st, u, app.bcrypt, salt, Done).0);
            Serve(registered, LogInRequest(u.email, wrong), w).1 == Response(Rest.StatusUnauthorized, Rest.ErrorBody(Rest.UnauthorizedMessage))
    ensures var registered := app.(store := Create(st, u, app.bcrypt, salt, Done).0);
            Serve(registered, LogInRequest(stranger, wrong), w).1 == Serve(registered, LogInRequest(u.email, wrong), w).1
  {
    var registered := app.(store := Create(st, u, app.bcrypt, salt, Done).0);
    LogInRequestDispatches(registered, u.email, wrong, w);
    LogInRequestDispatches(registered, stranger, wrong, w);
    Service.WrongPasswordLikeUnknownEmail(st, app.auth, app.codec, app.bcrypt, salt, u, wrong, stranger, w.now);
  }

  /** A request to a user's resource route carrying a bearer token. */
  function ResourceRequest(verb: Rest.Method, id: string, token: string): Request
  {
    Request(verb, UserPath(id), Middleware.BearerPrefix + token, Failure(""), Failure(""), Failure(""))
  }

  /** With the token login issued for user `n`, presented before it expires:
      fetching the user answers 200 while the record is live, deleting
      answers 204, and fetching afterwards answers 404, the token still
      being valid. */
  lemma OwnerFetchesThenDeletes(app: App, n: nat, issuedAt: int, w: World)
    requires Faithful(app.codec)
    requires GenerateJWT(app.auth, app.codec, Text.NatToString(n), issuedAt).Success?
    requires w.now < issuedAt + TokenLifetime
    requires w.first == Done
    ensures var id := Text.NatToString(n);
            var token := GenerateJWT(app.auth, app.codec, id, issuedAt).value;
            var got := Serve(app, ResourceRequest(Rest.GET, id, token), w);
            var del := Serve(app, ResourceRequest(Rest.DELETE, id, token), w);
            var after := Serve(app.(store := del.0), ResourceRequest(Rest.GET, id, token), w);
            && got.0 == app.store
            && (got.1.status == Rest.StatusOK <==>
                  exists i :: 0 <= i < |app.store.rows| && !app.store.rows[i].deleted && IdText(app.store.rows[i]) == id)
            && del.1 == Response(Rest.StatusNoContent, Rest.Envelope(None, None))
            && after.1 == Response(Rest.StatusNotFound, Rest.ErrorBody(Rest.NotFoundMessage))
  {
    var id := Text.NatToString(n);
    UserPathRoutes(n);
    Middleware.IssuedTokenPassesGuard(app.auth, app.codec, id, issuedAt, w.now);
    Service.DeleteThenGet(app.store, id);
  }
}
