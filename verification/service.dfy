/** The account workflows (internal/services/user.go) over the store and
    the token service. */
module Service {
  import opened Wrappers
  import opened Entities
  import opened Repository
  import opened Token
  import Models

  /** NewUser: creates the record, then answers with the record re-read by
      email; a create error is returned with no user. The store is the one
      Create leaves behind in both cases. */
  function NewUser(st: Store, b: Models.Bcrypt, salt: Models.Salt, u: User, createIo: Io, readIo: Io): (r: (Store, Result<Option<User>, string>))
    ensures r.0 == Create(st, u, b, salt, createIo).0
    ensures Create(st, u, b, salt, createIo).1.Fail? ==> r.1 == Failure(Create(st, u, b, salt, createIo).1.error)
    ensures Create(st, u, b, salt, createIo).1.Pass? ==> r.1 == FindUserByEmail(r.0, u.email, readIo)
  {
    match Create(st, u, b, salt, createIo)
    case (st', Fail(e)) => (st', Failure(e))
    case (st', Pass) => (st', FindUserByEmail(st', u.email, readIo))
  }

  /** Registering an unused email with a password the policy accepts, when
      hashing succeeds, answers with the stored record: the assigned id, the
      given name, email and birthday, and the digest of the given password. */
  lemma RegisterReturnsCreated(st: Store, b: Models.Bcrypt, salt: Models.Salt, u: User)
    requires Models.ValidatePassword(u.password).Pass? && b.generate(u.password, salt).Success?
    requires forall i :: 0 <= i < |st.rows| ==> st.rows[i].email != u.email
    ensures NewUser(st, b, salt, u, Done, Done).1
            == Success(Some(User(Some(AssignedId(st)), u.name, u.email, b.generate(u.password, salt).value, u.birthday)))
  {
    CreatedFoundByEmail(st, u, b, salt);
  }

  /** GetUser: a pass-through to FindUserByID. */
  function GetUser(st: Store, id: string, io: Io): (r: Result<Option<User>, string>)
    ensures r == FindUserByID(st, id, io)
    ensures io.Done? ==> r.Success? && (r.value.Some? <==> exists i :: 0 <= i < |st.rows| && !st.rows[i].deleted && IdText(st.rows[i]) == id)
  {
    FindUserByID(st, id, io)
  }

  /** LogInUser: a lookup error is returned with an empty token; an unknown
      email, a wrong password and a signing failure all give an empty token
      with no error; a correct password gives a token issued for the user's
      id at `now`. */
  function LogInUser(st: Store, svc: AuthService, codec: JwtCodec, b: Models.Bcrypt, u: User, now: int, io: Io): (r: Result<string, string>)
    ensures FindUserByEmail(st, u.email, io).Failure? ==> r == Failure(FindUserByEmail(st, u.email, io).error)
    ensures FindUserByEmail(st, u.email, io) == Success(None) ==> r == Success("")
    ensures FindUserByEmail(st, u.email, io).Success? ==> r.Success?
    ensures var f := FindUserByEmail(st, u.email, io);
            f.Success? && f.value.Some? && !ValidatePassword(f.value.value, u.password, b) ==> r == Success("")
    ensures var f := FindUserByEmail(st, u.email, io);
            f.Success? && f.value.Some? && ValidatePassword(f.value.value, u.password, b) ==>
              && f.value.value.id.Some?
              && (GenerateJWT(svc, codec, f.value.value.id.value, now).Failure? ==> r == Success(""))
              && (GenerateJWT(svc, codec, f.value.value.id.value, now).Success? ==> r == GenerateJWT(svc, codec, f.value.value.id.value, now))
  {
    match FindUserByEmail(st, u.email, io)
    case Failure(e) => Failure(e)
    case Success(None) => Success("")
    case Success(Some(found)) =>
      if ValidatePassword(found, u.password, b) then
        match GenerateJWT(svc, codec, found.id.value, now)
        case Failure(_) => Success("")
        case Success(token) => Success(token)
      else Success("")
  }

  /** UpdateUser: an error comes back with no user; otherwise the store's
      answer, unchanged. */
  function UpdateUser(st: Store, u: User, writeIo: Io, readIo: Io): (r: (Store, Result<Option<User>, string>))
    requires u.id.Some?
    ensures r.0 == Update(st, u, writeIo, readIo).0
    ensures r.1.Failure? <==> Update(st, u, writeIo, readIo).1.Failure?
    ensures r.1.Failure? ==> r.1.error == Update(st, u, writeIo, readIo).1.error
    ensures r.1.Success? ==> r.1.value == Update(st, u, writeIo, readIo).1.value
  {
    match Update(st, u, writeIo, readIo)
    case (st', Failure(e)) => (st', Failure(e))
    case (st', Success(found)) => (st', Success(found))
  }

  /** DeleteUser: a pass-through to Delete. */
  function DeleteUser(st: Store, id: string, io: Io): (r: (Store, Outcome<string>))
    ensures r == Delete(st, id, io)
    ensures io.Done? ==> r.1 == Pass
  {
    Delete(st, id, io)
  }

  /** Register, then log in with the same email and password: under a sound
      bcrypt (one whose digests accept their own plaintext) the login answers
      with the token issued for the new user's id. */
  lemma RegisterThenLogIn(st: Store, svc: AuthService, codec: JwtCodec, b: Models.Bcrypt, salt: Models.Salt,
                          u: User, now: int)
    requires Models.Accepts(b)
    requires Models.ValidatePassword(u.password).Pass? && b.generate(u.password, salt).Success?
    requires forall i :: 0 <= i < |st.rows| ==> st.rows[i].email != u.email
    ensures LogInUser(NewUser(st, b, salt, u, Done, Done).0, svc, codec, b, User(None, "", u.email, u.password, None), now, Done)
            == (match GenerateJWT(svc, codec, AssignedId(st), now)
                case Success(token) => Success(token)
                case Failure(_) => Success(""))
  {
    var st' := NewUser(st, b, salt, u, Done, Done).0;
    CreatedFoundByEmail(st, u, b, salt);
    var found := User(Some(AssignedId(st)), u.name, u.email, b.generate(u.password, salt).value, u.birthday);
    assert FindUserByEmail(st', u.email, Done) == Success(Some(found));
    assert Models.BeforeCreate(NewRow(u), b, salt).Success?;
    assert ValidatePassword(found, u.password, b);
  }

  /** The token that login hands out validates, until it expires, to the new
      user's id (under a faithful codec). */
  lemma LogInTokenValidates(st: Store, svc: AuthService, codec: JwtCodec, b: Models.Bcrypt, salt: Models.Salt,
                            u: User, now: int, later: int)
    requires Models.Accepts(b) && Faithful(codec)
    requires Models.ValidatePassword(u.password).Pass? && b.generate(u.password, salt).Success?
    requires forall i :: 0 <= i < |st.rows| ==> st.rows[i].email != u.email
    requires GenerateJWT(svc, codec, AssignedId(st), now).Success?
    requires later < now + TokenLifetime
    ensures var r := LogInUser(NewUser(st, b, salt, u, Done, Done).0, svc, codec, b, User(None, "", u.email, u.password, None), now, Done);
            && r.Success? && r.value != ""
            && ValidateJWT(svc, codec, later, r.value) == Success(IssuedClaims(AssignedId(st), now))
  {
    RegisterThenLogIn(st, svc, codec, b, salt, u, now);
    IssuedTokenValidates(svc, codec, AssignedId(st), now, later);
  }

  /** Logging in with a wrong password answers exactly as logging in with an
      email nobody registered: an empty token and no error. */
  lemma WrongPasswordLikeUnknownEmail(st: Store, svc: AuthService, codec: JwtCodec, b: Models.Bcrypt, salt: Models.Salt,
                                      u: User, wrong: string, stranger: string, now: int)
    requires Models.Discriminates(b)
    requires Models.ValidatePassword(u.password).Pass? && b.generate(u.password, salt).Success?
    requires forall i :: 0 <= i < |st.rows| ==> st.rows[i].email != u.email
    requires Models.BcryptKey(wrong) != Models.BcryptKey(u.password)
    requires forall i :: 0 <= i < |st.rows| ==> st.rows[i].email != stranger
    requires stranger != u.email
    ensures var st' := NewUser(st, b, salt, u, Done, Done).0;
            && LogInUser(st', svc, codec, b, User(None, "", u.email, wrong, None), now, Done) == Success("")
            && LogInUser(st', svc, codec, b, User(None, "", stranger, wrong, None), now, Done) == Success("")
  {
    var st' := NewUser(st, b, salt, u, Done, Done).0;
    CreatedFoundByEmail(st, u, b, salt);
    assert Models.BeforeCreate(NewRow(u), b, salt).Success?;
    assert st'.rows == st.rows + [st'.rows[|st.rows|]];
    assert forall i :: 0 <= i < |st'.rows| ==> st'.rows[i].email != stranger by {
      forall i | 0 <= i < |st'.rows| ensures st'.rows[i].email != stranger {
        if i < |st.rows| { assert st'.rows[i] == st.rows[i]; }
      }
    }
  }

  /** Once deleted, a user can no longer be fetched. */
  lemma DeleteThenGet(st: Store, id: string)
    ensures DeleteUser(st, id, Done).1 == Pass
    ensures GetUser(DeleteUser(st, id, Done).0, id, Done) == Success(None)
  {
    DeleteHidesRecord(st, id);
  }
}
