/** The bearer-token guard (internal/middlewares/middlewares.go), scheme per
    section 2.1 of RFC 6750 but matched case-sensitively on "Bearer ". */
module Middleware {
  import opened Wrappers
  import opened Text
  import opened Token

  const BearerPrefix: string := "Bearer "
  const MissingHeaderMessage: string := "missing or invalid Authorization header"
  const StatusUnauthorized: int := 401

  /** The guard either aborts the request with a status and error text, or
      lets it through with `userid` bound in the request context. */
  datatype GuardResult = Abort(status: int, message: string) | Next(userId: string)

  /** The guard over any token validator: a header that is empty or lacks
      the exact prefix is refused without consulting the validator; otherwise
      the validator sees the header with one prefix removed, its error is
      reported as 401 with its text, and its claims' user id is bound. */
  function Authenticate(header: string, validate: string -> Result<Claims, TokenError>): (r: GuardResult)
    ensures !HasPrefix(header, BearerPrefix) ==> r == Abort(StatusUnauthorized, MissingHeaderMessage)
    ensures HasPrefix(header, BearerPrefix) ==>
      match validate(header[|BearerPrefix|..])
      case Failure(e) => r == Abort(StatusUnauthorized, e.Message())
      case Success(c) => r == Next(c.userId)
    ensures r.Next? ==> HasPrefix(header, BearerPrefix) && validate(header[|BearerPrefix|..]).Success?
  {
    if header == "" || !HasPrefix(header, BearerPrefix) then
      Abort(StatusUnauthorized, MissingHeaderMessage)
    else
      match validate(TrimPrefix(header, BearerPrefix))
      case Failure(e) => Abort(StatusUnauthorized, e.Message())
      case Success(claims) => Next(claims.userId)
  }

  /** AuthMiddleware: the guard with the service's own ValidateJWT at `now`. */
  function AuthMiddleware(svc: AuthService, codec: JwtCodec, now: int, header: string): (r: GuardResult)
    ensures r.Next? <==> HasPrefix(header, BearerPrefix) && ValidateJWT(svc, codec, now, header[|BearerPrefix|..]).Success?
    ensures r.Next? ==> r.userId == ValidateJWT(svc, codec, now, header[|BearerPrefix|..]).value.userId
    ensures r.Abort? ==> r.status == StatusUnauthorized
  {
    Authenticate(header, t => ValidateJWT(svc, codec, now, t))
  }

  /** Token validation is never called on a header without the prefix: the
      outcome is the same whatever the validator would have said. */
  lemma NoValidationWithoutBearer(header: string, v1: string -> Result<Claims, TokenError>, v2: string -> Result<Claims, TokenError>)
    requires !HasPrefix(header, BearerPrefix)
    ensures Authenticate(header, v1) == Authenticate(header, v2) == Abort(StatusUnauthorized, MissingHeaderMessage)
  {
  }

  /** The empty header and a lower-case scheme are both refused. */
  lemma MissingOrLowercaseSchemeRefused(validate: string -> Result<Claims, TokenError>, token: string)
    ensures Authenticate("", validate) == Abort(StatusUnauthorized, MissingHeaderMessage)
    ensures Authenticate("bearer " + token, validate) == Abort(StatusUnauthorized, MissingHeaderMessage)
  {
    var h := "bearer " + token;
    assert h[0] == 'b';
  }

  /** Only one prefix is removed: "Bearer Bearer t" hands "Bearer t" to the
      validator, and the guard depends on nothing but that stripped token. */
  lemma StripsPrefixOnce(token: string, v1: string -> Result<Claims, TokenError>, v2: string -> Result<Claims, TokenError>)
    requires v1("Bearer " + token) == v2("Bearer " + token)
    ensures Authenticate("Bearer Bearer " + token, v1) == Authenticate("Bearer Bearer " + token, v2)
  {
    var h := "Bearer Bearer " + token;
    assert h[..|BearerPrefix|] == BearerPrefix;
    assert h[|BearerPrefix|..] == "Bearer " + token;
  }

  /** A freshly issued token, presented as "Bearer " + token before it
      expires, lets the request through bound to the user it was issued for. */
  lemma IssuedTokenPassesGuard(svc: AuthService, codec: JwtCodec, userId: string, issuedAt: int, now: int)
    requires Faithful(codec)
    requires GenerateJWT(svc, codec, userId, issuedAt).Success?
    requires now < issuedAt + TokenLifetime
    ensures AuthMiddleware(svc, codec, now, BearerPrefix + GenerateJWT(svc, codec, userId, issuedAt).value) == Next(userId)
  {
    var token := GenerateJWT(svc, codec, userId, issuedAt).value;
    var h := BearerPrefix + token;
    assert h[..|BearerPrefix|] == BearerPrefix;
    assert h[|BearerPrefix|..] == token;
    IssuedTokenValidates(svc, codec, userId, issuedAt, now);
  }

  /** A token with the wrong number of segments is refused with 401 and the
      library's malformed-token text (the corrected validation; as written
      the same request panics). */
  lemma MalformedTokenRejected(svc: AuthService, codec: JwtCodec, now: int, token: string)
    requires |Split(token, '.')| != 3
    ensures AuthMiddleware(svc, codec, now, BearerPrefix + token)
            == Abort(StatusUnauthorized, Malformed(SegmentCountDetail).Message())
  {
    var h := BearerPrefix + token;
    assert h[..|BearerPrefix|] == BearerPrefix;
    assert h[|BearerPrefix|..] == token;
  }
}
