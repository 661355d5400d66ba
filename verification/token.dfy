/** The token service (internal/services/token.go): HS256-signed JSON Web
    Tokens (RFC 7519, signature per section 3.2 of RFC 7518) carrying the
    user id, issued-at and expiry, validated the way golang-jwt v5's
    ParseWithClaims does. Base64url/JSON encoding and HMAC are uninterpreted. */
module Token {
  import opened Wrappers
  import Text

  const DefaultKey: string := "very-strong-key"
  /** One hour, in seconds. */
  const TokenLifetime: int := 3600
  const SigningAlg: string := "HS256"
  /** The HMAC methods a byte-string key can verify. */
  const HmacAlgs: seq<string> := ["HS256", "HS384", "HS512"]
  const SegmentCountDetail: string := "token contains an invalid number of segments"

  datatype AuthService = AuthService(key: string)

  /** NewAuthService: an empty key falls back to the fixed default key; any
      other key is used verbatim. The key is never empty. */
  function NewAuthService(jwtKey: string): (s: AuthService)
    ensures s.key != ""
    ensures jwtKey != "" ==> s.key == jwtKey
    ensures jwtKey == "" ==> s.key == DefaultKey
  {
    AuthService(if jwtKey == "" then DefaultKey else jwtKey)
  }

  /** Claims: the `user` claim plus the registered `exp`, `iat` and `nbf`
      claims (NumericDate seconds; a token need not carry them). */
  datatype Claims = Claims(userId: string, expiresAt: Option<int>, issuedAt: Option<int>, notBefore: Option<int>)

  datatype Header = Header(alg: string, typ: string)

  /** The library pieces the model cannot see: segment encoders (JSON then
      base64url; the first two may fail), their decoders, and the MAC of a
      signing input under a key for a named algorithm. */
  datatype JwtCodec = JwtCodec(
    encodeHeader: Header -> Result<string, string>,
    encodeClaims: Claims -> Result<string, string>,
    encodeSignature: string -> string,
    decodeHeader: string -> Result<Header, string>,
    decodeClaims: string -> Result<Claims, string>,
    decodeSignature: string -> Result<string, string>,
    mac: (string, string, string) -> string)

  /** What the model assumes of the encoding when it needs to: decoding
      inverts encoding, and encoded segments contain no '.'. */
  ghost predicate Faithful(codec: JwtCodec)
  {
    && (forall h :: codec.encodeHeader(h).Success? ==>
          '.' !in codec.encodeHeader(h).value && codec.decodeHeader(codec.encodeHeader(h).value) == Success(h))
    && (forall c :: codec.encodeClaims(c).Success? ==>
          '.' !in codec.encodeClaims(c).value && codec.decodeClaims(codec.encodeClaims(c).value) == Success(c))
    && (forall sig :: '.' !in codec.encodeSignature(sig) && codec.decodeSignature(codec.encodeSignature(sig)) == Success(sig))
  }

  /** Why a token is refused, with the library's error text. */
  /** `InvalidClaims` records which time checks failed (at least one does):
      the library runs the expiry check and the not-before check and joins
      their errors with ", ". */
  datatype TokenError = Malformed(detail: string) | Unverifiable | SignatureInvalid | InvalidClaims(expired: bool, premature: bool) {
    function Message(): string
    {
      match this
      case Malformed(d) => "token is malformed: " + d
      case Unverifiable => "token is unverifiable: signing method (alg) is unavailable"
      case SignatureInvalid => "token signature is invalid: signature is invalid"
      case InvalidClaims(expired, premature) =>
        "token has invalid claims: "
        + (if expired && premature then "token is expired, token is not valid yet"
           else if expired then "token is expired"
           else "token is not valid yet")
    }
  }

  /** The expiry check: a token without `exp` never expires; one with it is
      valid only while `now` is strictly before it. */
  predicate HasExpired(c: Claims, now: int)
  {
    c.expiresAt.Some? && now >= c.expiresAt.value
  }

  /** The not-before check: a token with `nbf` is refused while `now` is
      strictly before it. */
  predicate NotYetValid(c: Claims, now: int)
  {
    c.notBefore.Some? && now < c.notBefore.value
  }

  /** The claims GenerateJWT signs for `userId` at instant `now` (both
      time.Now() calls read as the one instant `now`). */
  function IssuedClaims(userId: string, now: int): (c: Claims)
    ensures c.userId == userId
    ensures c.issuedAt == Some(now) && c.expiresAt == Some(now + TokenLifetime) && c.notBefore.None?
  {
    Claims(userId, Some(now + TokenLifetime), Some(now), None)
  }

  /** The text a JWS signature covers: header and claims segments joined by '.'. */
  function SigningInput(header: string, claims: string): string
  {
    header + "." + claims
  }

  /** GenerateJWT: the compact serialisation header.claims.signature, signed
      with HS256 under the service key, or the encoder's error. */
  function GenerateJWT(svc: AuthService, codec: JwtCodec, userId: string, now: int): (r: Result<string, string>)
    ensures codec.encodeHeader(Header(SigningAlg, "JWT")).Failure? ==> r.Failure?
    ensures codec.encodeClaims(IssuedClaims(userId, now)).Failure? ==> r.Failure?
    ensures r.Success? ==> r.value != ""
    ensures r.Success? ==>
      var h := codec.encodeHeader(Header(SigningAlg, "JWT")).value;
      var c := codec.encodeClaims(IssuedClaims(userId, now)).value;
      r.value == SigningInput(h, c) + "." + codec.encodeSignature(codec.mac(SigningAlg, svc.key, SigningInput(h, c)))
  {
    match codec.encodeHeader(Header(SigningAlg, "JWT"))
    case Failure(e) => Failure(e)
    case Success(h) =>
      match codec.encodeClaims(IssuedClaims(userId, now))
      case Failure(e) => Failure(e)
      case Success(c) =>
        var input := SigningInput(h, c);
        Success(input + "." + codec.encodeSignature(codec.mac(SigningAlg, svc.key, input)))
  }

  /** What ParseWithClaims returns: no token at all (the wrong number of
      segments), or a token whose validity check passed or failed. */
  datatype Parsed = NoToken(err: TokenError) | Parsed(claims: Claims, check: Outcome<TokenError>)

  /** The checks of ParseWithClaims, in its order: segment count, header,
      claims, algorithm, signature segment, MAC, then the time claims: `exp`
      (valid only while `now` is strictly before it) and `nbf` (valid only
      once `now` has reached it), both run and their failures joined. `iat`
      is checked only on request, which this service does not make. */
  function ParseWithClaims(key: string, codec: JwtCodec, now: int, token: string): (p: Parsed)
    ensures p.NoToken? <==> |Text.Split(token, '.')| != 3
    ensures p.NoToken? ==> p.err == Malformed(SegmentCountDetail)
    ensures p.Parsed? && p.check.Pass? ==>
      var parts := Text.Split(token, '.');
      && codec.decodeClaims(parts[1]) == Success(p.claims)
      && codec.decodeHeader(parts[0]).Success?
      && codec.decodeHeader(parts[0]).value.alg in HmacAlgs
      && codec.decodeSignature(parts[2]) == Success(codec.mac(codec.decodeHeader(parts[0]).value.alg, key, SigningInput(parts[0], parts[1])))
      && (p.claims.expiresAt.Some? ==> now < p.claims.expiresAt.value)
      && (p.claims.notBefore.Some? ==> now >= p.claims.notBefore.value)
    ensures p.Parsed? && p.check.Fail? && p.check.error.InvalidClaims? ==>
      && p.check.error.expired == HasExpired(p.claims, now)
      && p.check.error.premature == NotYetValid(p.claims, now)
  {
    var parts := Text.Split(token, '.');
    if |parts| != 3 then NoToken(Malformed(SegmentCountDetail))
    else
      match codec.decodeHeader(parts[0])
      case Failure(e) => Parsed(Claims("", None, None, None), Fail(Malformed(e)))
      case Success(header) =>
        match codec.decodeClaims(parts[1])
        case Failure(e) => Parsed(Claims("", None, None, None), Fail(Malformed(e)))
        case Success(claims) =>
          if header.alg !in HmacAlgs then Parsed(claims, Fail(Unverifiable))
          else
            match codec.decodeSignature(parts[2])
            case Failure(e) => Parsed(claims, Fail(Malformed(e)))
            case Success(sig) =>
              if sig != codec.mac(header.alg, key, SigningInput(parts[0], parts[1])) then Parsed(claims, Fail(SignatureInvalid))
              else if HasExpired(claims, now) || NotYetValid(claims, now) then
                Parsed(claims, Fail(InvalidClaims(HasExpired(claims, now), NotYetValid(claims, now))))
              else Parsed(claims, Pass)
  }

  /** The three things ValidateJWT, as written, can do. */
  datatype Validation = Valid(claims: Claims) | Invalid(err: TokenError) | Panic

  /** ValidateJWT as written: it reads `token.Claims` before looking at the
      error, so a token with the wrong number of segments (for which the
      library hands back no token) dereferences nil. */
  function ValidateJWTAsWritten(svc: AuthService, codec: JwtCodec, now: int, token: string): (v: Validation)
    ensures v.Panic? <==> |Text.Split(token, '.')| != 3
    ensures v.Valid? <==> ParseWithClaims(svc.key, codec, now, token).Parsed? && ParseWithClaims(svc.key, codec, now, token).check.Pass?
  {
    match ParseWithClaims(svc.key, codec, now, token)
    case NoToken(_) => Panic
    case Parsed(claims, Pass) => Valid(claims)
    case Parsed(_, Fail(e)) => Invalid(e)
  }

  /** The one-segment token "abc" (what the guard hands on for the header
      "Bearer abc") makes the as-written validation panic, under any key,
      codec and clock. */
  lemma AsWrittenPanicsOnOneSegment(svc: AuthService, codec: JwtCodec, now: int)
    ensures ValidateJWTAsWritten(svc, codec, now, "abc") == Panic
  {
    Text.SplitWithoutSeparator("abc", '.');
  }

  /** ValidateJWT, corrected: the claims when the token is valid, otherwise
      no claims and the parse error (including the no-token case). */
  function ValidateJWT(svc: AuthService, codec: JwtCodec, now: int, token: string): (r: Result<Claims, TokenError>)
    ensures r.Success? <==> ValidateJWTAsWritten(svc, codec, now, token).Valid?
    ensures r.Success? ==> r == Success(ValidateJWTAsWritten(svc, codec, now, token).claims)
    ensures ValidateJWTAsWritten(svc, codec, now, token).Invalid? ==> r == Failure(ValidateJWTAsWritten(svc, codec, now, token).err)
    ensures |Text.Split(token, '.')| != 3 ==> r == Failure(Malformed(SegmentCountDetail))
  {
    match ParseWithClaims(svc.key, codec, now, token)
    case NoToken(e) => Failure(e)
    case Parsed(claims, Pass) => Success(claims)
    case Parsed(_, Fail(e)) => Failure(e)
  }

  /** Round trip: a token issued for `userId` at `issuedAt` validates, with
      the same key at any instant before its expiry, to exactly the claims it
      was issued with. */
  lemma IssuedTokenValidates(svc: AuthService, codec: JwtCodec, userId: string, issuedAt: int, now: int)
    requires Faithful(codec)
    requires GenerateJWT(svc, codec, userId, issuedAt).Success?
    requires now < issuedAt + TokenLifetime
    ensures ValidateJWT(svc, codec, now, GenerateJWT(svc, codec, userId, issuedAt).value) == Success(IssuedClaims(userId, issuedAt))
  {
    var h := codec.encodeHeader(Header(SigningAlg, "JWT")).value;
    var c := codec.encodeClaims(IssuedClaims(userId, issuedAt)).value;
    var sig := codec.encodeSignature(codec.mac(SigningAlg, svc.key, SigningInput(h, c)));
    var token := GenerateJWT(svc, codec, userId, issuedAt).value;
    assert token == h + "." + c + "." + sig;
    Text.SplitJoinThree(h, c, sig, '.');
  }

  /** The same token is refused once `now` reaches its expiry. */
  lemma IssuedTokenExpires(svc: AuthService, codec: JwtCodec, userId: string, issuedAt: int, now: int)
    requires Faithful(codec)
    requires GenerateJWT(svc, codec, userId, issuedAt).Success?
    requires now >= issuedAt + TokenLifetime
    ensures ValidateJWT(svc, codec, now, GenerateJWT(svc, codec, userId, issuedAt).value) == Failure(InvalidClaims(true, false))
    ensures InvalidClaims(true, false).Message() == "token has invalid claims: token is expired"
  {
    var h := codec.encodeHeader(Header(SigningAlg, "JWT")).value;
    var c := codec.encodeClaims(IssuedClaims(userId, issuedAt)).value;
    var sig := codec.encodeSignature(codec.mac(SigningAlg, svc.key, SigningInput(h, c)));
    assert GenerateJWT(svc, codec, userId, issuedAt).value == h + "." + c + "." + sig;
    Text.SplitJoinThree(h, c, sig, '.');
  }

  /** Whatever the codec, a three-segment token is accepted only if its
      signature segment decodes to the MAC, under the service key, of its
      own header and claims segments, and only before its expiry. */
  lemma AcceptedTokenIsAuthentic(svc: AuthService, codec: JwtCodec, now: int, token: string)
    requires ValidateJWT(svc, codec, now, token).Success?
    ensures |Text.Split(token, '.')| == 3
    ensures var parts := Text.Split(token, '.');
            && codec.decodeHeader(parts[0]).Success?
            && codec.decodeSignature(parts[2]) == Success(codec.mac(codec.decodeHeader(parts[0]).value.alg, svc.key, SigningInput(parts[0], parts[1])))
    ensures var c := ValidateJWT(svc, codec, now, token).value;
            !HasExpired(c, now) && !NotYetValid(c, now)
  {
  }

  /** A token signed under a different key, or whose signature segment was
      altered so that it no longer decodes to the MAC, is refused. */
  lemma TamperedTokenRejected(svc: AuthService, codec: JwtCodec, now: int, h: string, c: string, s: string)
    requires '.' !in h && '.' !in c && '.' !in s
    requires codec.decodeHeader(h).Success?
    requires codec.decodeSignature(s) != Success(codec.mac(codec.decodeHeader(h).value.alg, svc.key, SigningInput(h, c)))
    ensures ValidateJWT(svc, codec, now, h + "." + c + "." + s).Failure?
  {
    Text.SplitJoinThree(h, c, s, '.');
  }
}
