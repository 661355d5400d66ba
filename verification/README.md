# User-account service: authentication and authorization core

This project models the core of a small Go user-account service. Users
register with a password that must meet a policy. The password is hashed
with bcrypt and the user is stored in a users table with a soft-delete
flag. A login issues an HS256-signed JSON Web Token (RFC 7519), and GET,
PATCH and DELETE on `/v1/users/:id` require `Authorization: Bearer <token>`
and an id that matches the token's user. The model has one Dafny module per
Go component, built from immutable datatypes and pure functions:

- `Models` (internal/models/model.go): the first-failure-wins password
  policy, the `BeforeCreate` hook that wraps the policy error or replaces the
  plaintext with a digest, and `CheckPassword`.
- `Token` (internal/services/token.go): the empty-key fallback, token
  issuance, and validation in golang-jwt v5's order.
- `Middleware` (internal/middlewares/middlewares.go): the bearer guard.
- `Repository` (internal/infra/gorm/repositories.go): an in-memory users
  table. It is an append-only sequence of rows in primary-key order, with a
  soft-delete flag, a unique email column and the key sequence.
- `Service` (internal/services/user.go): the account workflows.
- `Rest` (internal/rest/user.go): the route table and each handler's
  decision. A handler is a pure function of its bind result, path id, bound
  `userid` and service outcome. It returns a status, a body and whether the
  service was called.
- `Server`: one request end to end: route, guard, handler, workflow, store.
- `Entities`, `Wrappers`, `Text`: the outward record, `Option`/`Result`/`Outcome`
  types, and the `strings` operations the code uses (`HasPrefix`,
  `TrimPrefix`, `Contains`, `Split`) plus decimal rendering of numeric ids.

The model leaves cryptography and encoding uninterpreted:

- bcrypt is a pair of functions carried in `Models.Bcrypt`: generate with a
  salt, and compare.
- JWT segment encoding and decoding and the HMAC are functions carried in
  `Token.JwtCodec`. Splitting on `.` is concrete.
- The clock is an explicit `now`, in seconds. The two `time.Now()` calls in
  token issuance read the same instant.
- Every database statement takes an `Io` input: it either ran (`Done`) or
  failed (`Fault(RecordNotFound | DbFailure(text))`).

Properties that need assumptions about the crypto state them as ghost
predicates and require only those:

- `Models.Accepts`: a digest accepts the plaintext it was made from.
- `Models.Discriminates`: a digest rejects every candidate whose bcrypt key
  bytes differ from its plaintext's. bcrypt reads the password plus a zero
  byte cyclically for 72 bytes (`Models.BcryptKey`). So two passwords that
  agree in their first 72 bytes are the same to it.
- `Models.KeyedBy`: the comparison sees a candidate only through those key
  bytes. It is needed only to show the collision itself.
- `Token.Faithful`: decoding inverts encoding, and encoded segments have no `.`.

Behaviours of the code worth knowing, which the model keeps:

- The email column is unique over all rows, soft-deleted ones included. gorm
  creates a plain unique index, so a deleted user's email cannot register
  again.
- The guard answers 401 with the token library's own error text, not a
  generic message.
- An empty signing key falls back to `"very-strong-key"`.
- A signing failure at login is swallowed into an empty token. So are an
  unknown email and a wrong password.
- Deleting or updating an id that is missing or already deleted is not an
  error. gorm reports no `ErrRecordNotFound` for `Updates` or `Delete`, so
  the delete handler's "record not found" branch is reached only by an
  injected fault.

## Model

| member | source | states |
|---|---|---|
| Entities.ToJson | internal/entities/user.go:5-11 | the JSON view has exactly the keys id, name, email and birthday, in that order; a nil id or birthday becomes null |
| Entities.PasswordNeverSerialised | internal/entities/user.go:9 | the password (plaintext or digest) never reaches JSON: changing it leaves the view unchanged, and no key is "password" |
| Models.MatchClass | internal/models/model.go:29-32 | a one-class regexp match: true exactly when some byte of the password is in the class |
| Models.ValidatePassword | internal/models/model.go:23-47 | passes exactly when the password has at least 8 bytes and some uppercase letter, lowercase letter, digit and special character; a password under 8 bytes fails on length |
| Models.FirstUnmetIsFirst | internal/models/model.go:23-47 | for any rule list, the first unmet rule is absent exactly when every rule holds, and otherwise sits at a position after which no earlier rule fails |
| Models.PolicyIsFirstUnmet | internal/models/model.go:23-47 | validatePassword reports exactly the first rule of the list length, uppercase, lowercase, digit, special that the password does not meet, and passes when there is none |
| Models.FirstFailureInOrder | internal/models/model.go:23-47 | passes exactly when every rule of the list holds; a failure names a broken rule that every earlier rule satisfies |
| Models.PolicyByRule | internal/models/model.go:23-47 | each failure message is given exactly when its rule is the first one broken: length, then uppercase, lowercase, digit and special |
| Models.ShortPasswordFailsOnLength | internal/models/model.go:24-26 | any password under 8 bytes fails on length with exactly "password must be at least 8 characters long", whatever it contains |
| Models.FirstFailureWins | internal/models/model.go:35-44 | "aaaaaaa1!" is reported as missing an uppercase letter |
| Models.SpecialClassExact | internal/models/model.go:32 | the special class is exactly the 26 listed characters; `=`, `:`, `;`, quotes, backtick and space are outside it |
| Models.AcceptedExample | internal/models/model.go:23-47 | "Abcdef1!" satisfies the whole policy |
| Models.PolicyErrorText | internal/models/model.go:52 | a policy error is wrapped as "invalid password:: " followed by the reason |
| Models.BeforeCreate | internal/models/model.go:49-60 | policy failure gives the wrapped reason and no row; a hashing failure gives bcrypt's error; on success only the password changes, to the digest of the original plaintext |
| Models.CheckPassword | internal/models/model.go:62-65 | true exactly when bcrypt's comparison of the stored digest with the candidate reports no error |
| Models.HashedPasswordChecks | internal/models/model.go:54-65 | the hooked row accepts the original plaintext and rejects every candidate whose bcrypt key bytes differ from it |
| Models.LongPasswordKeyIgnoresTail | internal/models/model.go:55 | a password of 72 or more bytes has the same bcrypt key bytes as itself with anything appended |
| Models.ShortPasswordsKeyApart | internal/models/model.go:55 | two different passwords under 72 bytes with no zero byte have different bcrypt key bytes, so a discriminating bcrypt tells them apart |
| Models.LongPasswordAcceptsExtension | internal/models/model.go:54-65 | a stored password of 72 or more bytes also accepts itself with anything appended |
| Token.NewAuthService | internal/services/token.go:13-20 | an empty key becomes "very-strong-key", any other key is kept verbatim; the key is never empty |
| Token.IssuedClaims | internal/services/token.go:28-34 | issued claims carry the user id, iat = now and exp = now + 3600, and no nbf |
| Token.GenerateJWT | internal/services/token.go:27-38 | a token is header.claims.signature: the HS256 MAC, under the service key, of the two encoded segments; an encoding failure is an error; a token is never empty |
| Token.ParseWithClaims | internal/services/token.go:41-43 | no token exactly when the segment count is not 3; a token passes only if header and claims decode, the alg is HMAC, the signature segment decodes to the MAC of the signing input under the key, now < exp when exp is present and now >= nbf when nbf is present; a claims failure records exactly which of the two checks failed |
| Token.ValidateJWTAsWritten | internal/services/token.go:40-50 | as written: it panics exactly when the segment count is not 3; otherwise claims only when the parsed token is valid |
| Token.AsWrittenPanicsOnOneSegment | internal/services/token.go:45 | the token "abc" makes the as-written validation panic, under any key, codec and clock |
| Token.ValidateJWT | internal/services/token.go:40-50 | corrected: claims when the token is valid, otherwise no claims and the parse error; a wrong segment count is a malformed-token error, not a panic |
| Token.IssuedTokenValidates | internal/services/token.go:27-47 | round trip: a token issued for an id validates, with the same key before expiry, to exactly the issued claims |
| Token.IssuedTokenExpires | internal/services/token.go:31-47 | the same token is refused as expired, and only expired, once now reaches exp, with the text "token has invalid claims: token is expired" |
| Token.AcceptedTokenIsAuthentic | internal/services/token.go:41-47 | any accepted token has three segments, its signature is the MAC of its own header and claims under the key, and now is before its exp and not before its nbf |
| Token.TamperedTokenRejected | internal/services/token.go:41-49 | a token whose signature segment does not decode to the MAC under the key is refused |
| Middleware.Authenticate | internal/middlewares/middlewares.go:12-30 | a header without the exact "Bearer " prefix gives 401 "missing or invalid Authorization header"; otherwise the validator sees the header minus one prefix; its error gives 401 with the error text; its claims bind userid; only success proceeds |
| Middleware.AuthMiddleware | internal/middlewares/middlewares.go:11-31 | the request proceeds exactly when the stripped token validates at now, bound to that token's user id; every abort is 401 |
| Middleware.NoValidationWithoutBearer | internal/middlewares/middlewares.go:13-18 | without the prefix, the outcome is the same for every validator, so validation is never consulted |
| Middleware.MissingOrLowercaseSchemeRefused | internal/middlewares/middlewares.go:14 | the empty header and a lower-case "bearer " scheme are both refused |
| Middleware.StripsPrefixOnce | internal/middlewares/middlewares.go:20 | "Bearer Bearer t" hands "Bearer t" to validation and depends on nothing else |
| Middleware.IssuedTokenPassesGuard | internal/middlewares/middlewares.go:20-29 | a freshly issued token presented before expiry proceeds with userid bound to the user it was issued for |
| Middleware.MalformedTokenRejected | internal/middlewares/middlewares.go:21-26 | with corrected validation, a token with the wrong segment count is refused with 401 and the malformed-token text |
| Repository.ToEntity | internal/infra/gorm/repositories.go:38-46 | a row read into the outward record keeps every column, with the numeric key rendered as the id text |
| Repository.FirstWhere | internal/infra/gorm/repositories.go:39 | `First`: the lowest-keyed row that matches the filter, or none when no row matches |
| Repository.FindWhere | internal/infra/gorm/repositories.go:39-46 | ErrRecordNotFound and an empty result both read as absent, never as an error; any other failure is an error; a found record is a matching row |
| Repository.FindUserByEmail | internal/infra/gorm/repositories.go:37-47 | finds a record exactly when a non-deleted row has the email; a found record has that email and an id |
| Repository.FindUserByID | internal/infra/gorm/repositories.go:49-59 | finds a record exactly when a non-deleted row has that id text; a found record carries that id |
| Repository.NewRow | internal/infra/gorm/repositories.go:23-28 | Create copies only name, email, password and birthday; the id is left for the store to assign |
| Repository.Create | internal/infra/gorm/repositories.go:22-35 | the hook runs first; success means exactly that the hook passed, the insert ran and no row had the email; success appends one row with the next key and the digest; a failure writes no row; a duplicate email fails; table consistency is kept |
| Repository.EmptyStoreConsistent | internal/models/model.go:16-18 | the freshly migrated table meets the table's guarantees and finds no user under any email |
| Repository.InsertKeepsValid | internal/models/model.go:16-18 | appending a row with the next key and an unused email keeps keys increasing and emails unique |
| Repository.ValidatePassword | internal/infra/gorm/repositories.go:61-68 | it is CheckPassword on the record's stored digest |
| Repository.Update | internal/infra/gorm/repositories.go:70-82 | only name and birthday of the live row with the id change; email, password, key and delete flag never change; after a successful write the answer is exactly FindUserByID on the updated table, absent exactly when no live row has the id |
| Repository.UpdateRows | internal/infra/gorm/repositories.go:71-74 | the live row with the id gets the new name and birthday; every other row, and the row count, stay as they were |
| Repository.SameKeysKeepConsistent | internal/models/model.go:16-18 | a change that keeps every row's key and email keeps keys increasing and emails unique |
| Repository.UpdatedRecordCarriesFields | internal/infra/gorm/repositories.go:70-81 | the record read back after an update is absent exactly when no live row had the id, and otherwise carries that id with the new name and birthday |
| Repository.Delete | internal/infra/gorm/repositories.go:84-90 | the live row with the id is marked deleted, not erased; nothing else changes; a missing id is not an error; a fault returns its text |
| Repository.DeleteHidesRecord | internal/infra/gorm/repositories.go:84-90 | after Delete(id), FindUserByID(id) finds nothing |
| Repository.CreatedFoundByEmail | internal/infra/gorm/repositories.go:22-47 | a Create that passes the hook with an unused email succeeds, and the new record is then found by its email, with the assigned id, the digest and every other field as given |
| Repository.CreatedFoundById | internal/infra/gorm/repositories.go:22-59 | in a consistent table, the new record is also found by its assigned id: no older row has that id |
| Service.NewUser | internal/services/user.go:24-30 | a create error is returned with no user; on success the answer is the record re-read by email |
| Service.RegisterReturnsCreated | internal/services/user.go:24-30 | registering an unused email with a password the policy accepts, when hashing succeeds, answers with the stored record: assigned id, given fields and the digest |
| Service.GetUser | internal/services/user.go:32-34 | a pass-through to FindUserByID |
| Service.LogInUser | internal/services/user.go:36-54 | a lookup error gives an empty token with the error; an unknown email, a wrong password or a signing failure gives an empty token and no error; a correct password gives the token issued for the user's id |
| Service.UpdateUser | internal/services/user.go:56-63 | an error comes back with no user; otherwise the store's answer is returned unchanged |
| Service.DeleteUser | internal/services/user.go:65-67 | a pass-through to Delete |
| Service.RegisterThenLogIn | internal/services/user.go:36-50 | for a bcrypt whose digests accept their own plaintext, after registration, logging in with the same password answers with the token issued for the new id, or an empty token if signing fails |
| Service.LogInTokenValidates | internal/services/user.go:45-50 | that login token is non-empty and validates, before expiry, to the new user's id |
| Service.WrongPasswordLikeUnknownEmail | internal/services/user.go:42-53 | a wrong password (one whose bcrypt key bytes differ from the right one's) and an unregistered email both give an empty token with no error |
| Service.DeleteThenGet | internal/services/user.go:32-34 | once deleted, a user cannot be fetched |
| Rest.Reject | internal/rest/user.go:63 | an early reply never calls the service |
| Rest.CreateArgument | internal/rest/user.go:67-72 | create forwards name, email, password and birthday with no id |
| Rest.LogInArgument | internal/rest/user.go:160-163 | login forwards only email and password |
| Rest.UpdateArgument | internal/rest/user.go:220-224 | update forwards only the path id, the name and the birthday |
| Rest.FetchedUserReply | internal/rest/user.go:116-132 | an error gives 500 "service unavailable", a nil user gives 404 "not found", a user gives 200 with that user |
| Rest.CreateUser | internal/rest/user.go:53-90 | a bind error gives 400 with its text; an error starting with "invalid password" gives 400 with that text; any other error gives 500 "service unavailable"; success gives 201 with the user |
| Rest.GetUser | internal/rest/user.go:101-133 | a path id different from the bound userid gives 403 "forbidden" and the service is not called; otherwise the fetched-user mapping |
| Rest.LogInUser | internal/rest/user.go:146-184 | a bind error gives 400; a service error gives 500; an empty token gives 401 "unauthorized"; otherwise 200 with the token |
| Rest.UpdateUser | internal/rest/user.go:197-243 | a bind error gives 400 before the ownership check; then 403 for a non-owner; then the fetched-user mapping |
| Rest.DeleteUser | internal/rest/user.go:255-286 | a non-owner gets 403; an error containing "record not found" gives 404; any other error gives 500; success gives 204 |
| Rest.ServiceErrorsNotLeaked | internal/rest/user.go:116-121 | get, login, update and delete never echo a service error's text; create echoes only policy errors |
| Rest.UpdateBindsBeforeOwnership | internal/rest/user.go:203-218 | after a bind failure, the update reply is 400 whoever the caller is |
| Rest.IdSegment | internal/rest/user.go:37-39 | `:id` is one non-empty path segment after /v1/users/ |
| Rest.Route | internal/rest/user.go:28-41 | POST on /v1/users/ creates and POST on /v1/users/login logs in; GET, PATCH and DELETE on /v1/users/:id; nothing else routes |
| Rest.ProtectionTable | internal/rest/user.go:34-40 | a routed request is behind the guard exactly when its method is GET, PATCH or DELETE; create and login are open |
| Server.Dispatch | internal/rest/user.go:101-114 | when a handler does not call the service, the store is unchanged |
| Server.Serve | internal/rest/user.go:28-41 | an unrouted request is the framework's 404 page; a guarded route whose guard aborts gives 401 and leaves the store unchanged |
| Server.OwnershipEnforced | internal/rest/user.go:105-112 | a valid token for a different user gets 403 "forbidden" on every resource route, and the store is unchanged |
| Server.OpenRoutesIgnoreAuthorization | internal/rest/user.go:31-32 | create and login behave the same whatever the Authorization header says |
| Server.UserPathRoutes | internal/rest/user.go:37 | a rendered numeric id is a valid `:id` segment |
| Server.RegisterResponds | internal/rest/user.go:67-89 | a payload with an unused email and a password the policy accepts, when hashing succeeds, answers 201 with the stored record; its JSON carries the assigned id and no password |
| Server.LogInRequestDispatches | internal/rest/user.go:32 | POST /v1/users/login reaches the login handler with the payload's email and password |
| Server.LogInResponds | internal/rest/user.go:160-183 | after registration, the right password gives 200 with the issued token |
| Server.LogInFailuresIndistinguishable | internal/rest/user.go:173-178 | a wrong password (its bcrypt key bytes differ from the right one's) gives 401 "unauthorized", and an unregistered email gives the same response |
| Server.OwnerFetchesThenDeletes | internal/rest/user.go:101-133 | with its own unexpired token, a user gets 200 while its record is live, 204 on delete, and 404 on a later fetch with the same token |

## Left out

- bcrypt, HMAC-SHA256, base64url and JSON: uninterpreted functions in
  `Models.Bcrypt` and `Token.JwtCodec`, because they are library code outside
  this model. Their assumed behaviour is stated as the ghost predicates
  `Models.Accepts`, `Models.Discriminates`, `Models.KeyedBy` and
  `Token.Faithful`. bcrypt's random salt is an input. Strings are sequences
  of characters standing for bytes, so a multi-byte character counts as one
  position where bcrypt and the length rule would count its bytes.
- Models.BeforeCreate: newer golang.org/x/crypto releases refuse passwords
  over 72 bytes in GenerateFromPassword; older ones accept them and use only
  the first 72 key bytes. The repository pins no version, so either is a
  `generate` the model admits. Both versions make
  `Models.LongPasswordAcceptsExtension` possible for passwords of exactly 72
  bytes.
- `time.Now()`: an explicit `now` in whole seconds. NumericDate's truncation
  to seconds is therefore implicit.
- Token.ParseWithClaims: every algorithm other than HS256, HS384 and HS512
  is reported as `Unverifiable`. The library would instead report some of
  them (RS256 with a byte key, for example) as an invalid signature, with a
  different text. A header without `alg` is treated as a header decode
  failure. The library's error texts are written as the library words
  them; they are not in this repository's files.
- Token.ParseWithClaims: `iat` is not checked, because the library checks it
  only when asked to and this service does not ask. The `typ` header is
  carried but not checked. `aud`, `iss` and `sub` are not modelled; the
  library checks them only against expected values, and none are
  configured.
- Repository.FindUserByID: ids are compared as text with the rendered
  numeric key. Postgres casts the parameter instead: "05" would find row 5,
  and "abc" would be a database error. The path id must equal the token's
  `user` claim before the store is reached. So a non-canonical id arrives
  only in a token signed under the service key, which an outsider can make
  only when the key is known, as the `"very-strong-key"` fallback is.
- Repository.Create: gorm opens its transaction (BEGIN) before it runs the
  BeforeCreate hook, and skips the hook when BEGIN fails. The model runs the
  hook first and has one `Io` for the whole statement. So a BEGIN failure
  before a password the policy rejects reports the database error in gorm,
  but the policy error in the model.
- Repository.Create: the `size:100` limit on the name column is not
  modelled. Neither are gorm's `created_at` and `updated_at` timestamps;
  only `deleted_at` is modelled, as a flag.
- Middleware.AuthMiddleware: it uses the corrected `Token.ValidateJWT`. The
  code as written panics on a token without three segments (see Findings),
  and gin's Recovery then answers an empty 500. The model answers 401 with
  the malformed-token text instead.
- Server.Serve: it uses the corrected guard above. So for a bearer token
  without three segments it answers 401 where the deployed code answers an
  empty 500.
- gin: routing beyond the route table is left out (trailing-slash
  redirects, 405 handling). So are context storage, JSON writing, and the
  framework's Recovery middleware turning a panic into an empty 500.
  Binding (`ShouldBindJSON` with the `binding` tags `required`, `email`,
  `min`) is an external validator: each request carries its bind result as
  an input.
- The response envelopes' JSON shape is kept only as the `Rest.Body`
  datatype. The body of a 204 reply is not distinguished from an empty
  envelope.
- cmd/api/main.go and internal/config/config.go: environment loading, the
  database connection, migration, log levels and server start. These are
  wiring with no decision logic.
- Logging (`log.Warn`, `fmt.Println`): no effect on any outcome.
- Concurrency across requests: every request is one sequential step.

## Findings

| source | as written | input that shows it | evidently intended | confidence | as-written member | corrected member |
|---|---|---|---|---|---|---|
| internal/services/token.go:41-45 | `token.Claims` is read before `err` is checked; golang-jwt v5 returns a nil token when the token does not have three segments, so the field read dereferences nil | header `Authorization: Bearer abc` on any guarded route | the request is refused with 401 and the malformed-token error, like every other invalid token | medium; not executed; relies on golang-jwt v5 returning a nil token for a wrong segment count | Token.AsWrittenPanicsOnOneSegment | Middleware.MalformedTokenRejected |
