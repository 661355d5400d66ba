/** The user store (internal/infra/gorm/repositories.go) as an in-memory
    users table: an append-only sequence of rows in primary-key order with a
    soft-delete flag, a unique email column and the primary-key sequence.
    Every database statement takes an `Io` input saying whether it reached
    the database or failed with an error. */
module Repository {
  import opened Wrappers
  import opened Text
  import opened Entities
  import Models

  datatype Store = Store(rows: seq<Models.UserModel>, nextId: nat)

  /** A freshly migrated table: no rows, the key sequence at 1. */
  const EmptyStore: Store := Store([], 1)

  /** The table's own guarantees: keys are positive, below the sequence's
      next value and increasing along the rows; the email column is unique
      over every row, soft-deleted ones included (a plain unique index). */
  ghost predicate Consistent(st: Store)
  {
    && st.nextId >= 1
    && (forall i :: 0 <= i < |st.rows| ==> 1 <= st.rows[i].id < st.nextId)
    && (forall i, j :: 0 <= i < j < |st.rows| ==> st.rows[i].id < st.rows[j].id)
    && (forall i, j :: 0 <= i < j < |st.rows| ==> st.rows[i].email != st.rows[j].email)
  }

  /** The freshly migrated table meets the table's guarantees and holds
      no user under any email. */
  lemma EmptyStoreConsistent()
    ensures Consistent(EmptyStore)
    ensures forall email :: FindUserByEmail(EmptyStore, email, Done) == Success(None)
  {
  }

  /** A statement's error: gorm's ErrRecordNotFound or any other failure. */
  datatype DbError = RecordNotFound | DbFailure(message: string) {
    function Message(): string
    {
      match this
      case RecordNotFound => "record not found"
      case DbFailure(m) => m
    }
  }

  datatype Io = Done | Fault(err: DbError)

  const UniqueViolation: string := "ERROR: duplicate key value violates unique constraint \"uni_users_email\" (SQLSTATE 23505)"

  /** The id text of a row: its numeric key read into a string. */
  function IdText(m: Models.UserModel): string
  {
    NatToString(m.id)
  }

  /** A row read into the outward record (the stored digest included). */
  function ToEntity(m: Models.UserModel): (u: User)
    ensures u.id == Some(IdText(m))
    ensures u.name == m.name && u.email == m.email && u.password == m.password && u.birthday == m.birthday
  {
    User(Some(IdText(m)), m.name, m.email, m.password, m.birthday)
  }

  /** The WHERE clauses the repository uses. */
  datatype Filter = LiveEmail(email: string) | LiveId(id: string) | AnyEmail(email: string) {
    predicate Matches(m: Models.UserModel)
    {
      match this
      case LiveEmail(e) => !m.deleted && m.email == e
      case LiveId(id) => !m.deleted && IdText(m) == id
      case AnyEmail(e) => m.email == e
    }
  }

  /** The first row, in key order, the filter matches (gorm's First). */
  function FirstWhere(rows: seq<Models.UserModel>, f: Filter): (r: Option<nat>)
    ensures r.Some? ==> r.value < |rows| && f.Matches(rows[r.value])
    ensures r.Some? ==> forall j :: 0 <= j < r.value ==> !f.Matches(rows[j])
    ensures r.None? <==> forall j :: 0 <= j < |rows| ==> !f.Matches(rows[j])
  {
    if |rows| == 0 then None
    else if f.Matches(rows[0]) then Some(0)
    else
      match FirstWhere(rows[1..], f)
      case None => None
      case Some(k) => Some(k + 1)
  }

  /** A lookup by filter: a failed statement is an error, except that
      ErrRecordNotFound (and an empty result) reads as "absent", not as an error. */
  function FindWhere(st: Store, f: Filter, io: Io): (r: Result<Option<User>, string>)
    ensures io == Fault(RecordNotFound) ==> r == Success(None)
    ensures io.Fault? && io.err.DbFailure? ==> r == Failure(io.err.message)
    ensures io.Done? ==> r.Success?
    ensures io.Done? ==> (r.value.Some? <==> exists i :: 0 <= i < |st.rows| && f.Matches(st.rows[i]))
    ensures io.Done? && r.value.Some? ==>
              exists i :: 0 <= i < |st.rows| && f.Matches(st.rows[i]) && r.value.value == ToEntity(st.rows[i])
  {
    match io
    case Fault(RecordNotFound) => Success(None)
    case Fault(DbFailure(m)) => Failure(m)
    case Done =>
      match FirstWhere(st.rows, f)
      case None => Success(None)
      case Some(i) => Success(Some(ToEntity(st.rows[i])))
  }

  /** FindUserByEmail: only non-deleted rows are seen. */
  function FindUserByEmail(st: Store, email: string, io: Io): (r: Result<Option<User>, string>)
    ensures io.Done? ==> r.Success?
    ensures io.Done? ==> (r.value.Some? <==> exists i :: 0 <= i < |st.rows| && !st.rows[i].deleted && st.rows[i].email == email)
    ensures io.Done? && r.value.Some? ==> r.value.value.email == email
    ensures r.Success? && r.value.Some? ==> r.value.value.id.Some?
    ensures io == Fault(RecordNotFound) ==> r == Success(None)
    ensures io.Fault? && io.err.DbFailure? ==> r == Failure(io.err.message)
  {
    assert forall m :: LiveEmail(email).Matches(m) <==> !m.deleted && m.email == email;
    FindWhere(st, LiveEmail(email), io)
  }

  /** FindUserByID: only non-deleted rows are seen; ids are compared as the
      rendered key text. */
  function FindUserByID(st: Store, id: string, io: Io): (r: Result<Option<User>, string>)
    ensures io.Done? ==> r.Success?
    ensures io.Done? ==> (r.value.Some? <==> exists i :: 0 <= i < |st.rows| && !st.rows[i].deleted && IdText(st.rows[i]) == id)
    ensures io.Done? && r.value.Some? ==> r.value.value.id == Some(id)
    ensures io == Fault(RecordNotFound) ==> r == Success(None)
    ensures io.Fault? && io.err.DbFailure? ==> r == Failure(io.err.message)
  {
    assert forall m :: LiveId(id).Matches(m) <==> !m.deleted && IdText(m) == id;
    FindWhere(st, LiveId(id), io)
  }

  /** The row Create inserts for `u`: only name, email, password and birthday
      are copied; the id is the zero value until the insert assigns it. */
  function NewRow(u: User): (m: Models.UserModel)
    ensures m.id == 0 && !m.deleted
    ensures m.name == u.name && m.email == u.email && m.password == u.password && m.birthday == u.birthday
  {
    Models.UserModel(0, u.name, u.email, u.password, u.birthday, false)
  }

  /** Create: the BeforeCreate hook runs first (policy, then hashing); then
      the insert, which takes the next key and fails on a duplicate email
      (the key is consumed anyway). Any id the caller set is ignored. */
  function Create(st: Store, u: User, b: Models.Bcrypt, salt: Models.Salt, io: Io): (r: (Store, Outcome<string>))
    ensures Consistent(st) ==> Consistent(r.0)
    ensures r.1.Fail? ==> r.0.rows == st.rows
    ensures Models.ValidatePassword(u.password).Fail? ==>
              r == (st, Fail(Models.PolicyErrorText(Models.ValidatePassword(u.password).error)))
    ensures r.1.Pass? <==> && Models.BeforeCreate(NewRow(u), b, salt).Success?
                           && io.Done?
                           && forall i :: 0 <= i < |st.rows| ==> st.rows[i].email != u.email
    ensures (&& Models.BeforeCreate(NewRow(u), b, salt).Success?
             && io.Done?
             && exists i :: 0 <= i < |st.rows| && st.rows[i].email == u.email) ==> r.1 == Fail(UniqueViolation)
    ensures r.1.Pass? ==>
              && r.0.nextId == st.nextId + 1
              && r.0.rows == st.rows + [Models.UserModel(st.nextId, u.name, u.email, b.generate(u.password, salt).value, u.birthday, false)]
  {
    match Models.BeforeCreate(NewRow(u), b, salt)
    case Failure(e) => (st, Fail(e))
    case Success(hashed) =>
      match io
      case Fault(e) => (st, Fail(e.Message()))
      case Done =>
        if FirstWhere(st.rows, AnyEmail(u.email)).Some? then
          (st.(nextId := st.nextId + 1), Fail(UniqueViolation))
        else
          var row := hashed.(id := st.nextId);
          InsertKeepsValid(st, row);
          (Store(st.rows + [row], st.nextId + 1), Pass)
  }

  /** Appending a row with the sequence's next key and an unused email keeps
      the table valid. */
  lemma InsertKeepsValid(st: Store, row: Models.UserModel)
    requires row.id == st.nextId
    requires forall i :: 0 <= i < |st.rows| ==> !AnyEmail(row.email).Matches(st.rows[i])
    ensures Consistent(st) ==> Consistent(Store(st.rows + [row], st.nextId + 1))
  {
    var rows := st.rows + [row];
    assert forall i :: 0 <= i < |st.rows| ==> rows[i] == st.rows[i];
  }

  /** ValidatePassword: CheckPassword of the record's stored digest. */
  function ValidatePassword(u: User, password: string, b: Models.Bcrypt): (ok: bool)
    ensures ok <==> b.compare(u.password, password) == Pass
  {
    Models.CheckPassword(Models.UserModel(0, "", u.email, u.password, None, false), password, b)
  }

  /** Update: sets name and birthday (a nil birthday clears it) on the live
      row with the id, then answers with FindUserByID. The caller must supply
      an id, which the code dereferences. */
  function Update(st: Store, u: User, writeIo: Io, readIo: Io): (r: (Store, Result<Option<User>, string>))
    requires u.id.Some?
    ensures Consistent(st) ==> Consistent(r.0)
    ensures |r.0.rows| == |st.rows| && r.0.nextId == st.nextId
    ensures forall i :: 0 <= i < |st.rows| ==>
              && r.0.rows[i].id == st.rows[i].id
              && r.0.rows[i].email == st.rows[i].email
              && r.0.rows[i].password == st.rows[i].password
              && r.0.rows[i].deleted == st.rows[i].deleted
    ensures forall i :: 0 <= i < |st.rows| ==>
              if writeIo.Done? && !st.rows[i].deleted && IdText(st.rows[i]) == u.id.value
              then r.0.rows[i].name == u.name && r.0.rows[i].birthday == u.birthday
              else r.0.rows[i] == st.rows[i]
    ensures writeIo == Fault(RecordNotFound) ==> r.1 == Success(None)
    ensures writeIo.Fault? && writeIo.err.DbFailure? ==> r.1 == Failure(writeIo.err.message)
    ensures writeIo.Done? ==> r.1 == FindUserByID(r.0, u.id.value, readIo)
    ensures writeIo.Done? && readIo.Done? ==> r.1.Success?
    ensures writeIo.Done? && readIo.Done? ==>
              (r.1.value.None? <==> forall i :: 0 <= i < |st.rows| ==> st.rows[i].deleted || IdText(st.rows[i]) != u.id.value)
    ensures writeIo.Done? && readIo.Done? && r.1.value.Some? ==>
              && r.1.value.value.id == u.id
              && r.1.value.value.name == u.name
              && r.1.value.value.birthday == u.birthday
  {
    match writeIo
    case Fault(RecordNotFound) => (st, Success(None))
    case Fault(DbFailure(m)) => (st, Failure(m))
    case Done =>
      var id := u.id.value;
      var st' := st.(rows := UpdateRows(st.rows, id, u.name, u.birthday));
      SameKeysKeepConsistent(st, st');
      var found := FindUserByID(st', id, readIo);
      UpdatedRecordCarriesFields(st, st', u, readIo);
      (st', found)
  }

  /** The rows after setting name and birthday on the live row with the id. */
  function UpdateRows(rows: seq<Models.UserModel>, id: string, name: string, birthday: Option<Date>): (out: seq<Models.UserModel>)
    ensures |out| == |rows|
    ensures forall i :: 0 <= i < |rows| ==>
              out[i] == if LiveId(id).Matches(rows[i]) then rows[i].(name := name, birthday := birthday) else rows[i]
  {
    seq(|rows|, i requires 0 <= i < |rows| =>
          if LiveId(id).Matches(rows[i]) then rows[i].(name := name, birthday := birthday) else rows[i])
  }

  /** A change that keeps every row's key and email keeps the table consistent. */
  lemma SameKeysKeepConsistent(st: Store, st': Store)
    requires |st'.rows| == |st.rows| && st'.nextId == st.nextId
    requires forall i :: 0 <= i < |st.rows| ==> st'.rows[i].id == st.rows[i].id && st'.rows[i].email == st.rows[i].email
    ensures Consistent(st) ==> Consistent(st')
  {
  }

  /** The record Update reads back is the updated live row. */
  lemma UpdatedRecordCarriesFields(st: Store, st': Store, u: User, readIo: Io)
    requires u.id.Some?
    requires st'.rows == UpdateRows(st.rows, u.id.value, u.name, u.birthday)
    ensures readIo.Done? ==>
              (FindUserByID(st', u.id.value, readIo).value.None? <==>
                 forall i :: 0 <= i < |st.rows| ==> st.rows[i].deleted || IdText(st.rows[i]) != u.id.value)
    ensures readIo.Done? && FindUserByID(st', u.id.value, readIo).value.Some? ==>
              && FindUserByID(st', u.id.value, readIo).value.value.id == u.id
              && FindUserByID(st', u.id.value, readIo).value.value.name == u.name
              && FindUserByID(st', u.id.value, readIo).value.value.birthday == u.birthday
  {
    var id := u.id.value;
    assert forall i :: 0 <= i < |st'.rows| ==> (LiveId(id).Matches(st'.rows[i]) <==> LiveId(id).Matches(st.rows[i]));
    var found := FindWhere(st', LiveId(id), readIo);
    assert readIo.Done? && found.value.Some? ==>
             exists i :: 0 <= i < |st'.rows| && LiveId(id).Matches(st'.rows[i]) && found.value.value == ToEntity(st'.rows[i]);
  }

  /** Delete: soft-deletes the live row with the id. The row stays in the
      table with every other field unchanged; a missing id is not an error. */
  function Delete(st: Store, id: string, io: Io): (r: (Store, Outcome<string>))
    ensures Consistent(st) ==> Consistent(r.0)
    ensures |r.0.rows| == |st.rows| && r.0.nextId == st.nextId
    ensures forall i :: 0 <= i < |st.rows| ==>
              if io.Done? && IdText(st.rows[i]) == id then r.0.rows[i] == st.rows[i].(deleted := true)
              else r.0.rows[i] == st.rows[i]
    ensures io.Fault? ==> r == (st, Fail(io.err.Message()))
    ensures io.Done? ==> r.1 == Pass
  {
    match io
    case Fault(e) => (st, Fail(e.Message()))
    case Done =>
      var rows := seq(|st.rows|, i requires 0 <= i < |st.rows| =>
                        if LiveId(id).Matches(st.rows[i]) then st.rows[i].(deleted := true) else st.rows[i]);
      SameKeysKeepConsistent(st, st.(rows := rows));
      (st.(rows := rows), Pass)
  }

  /** After a successful Delete, the id is invisible to FindUserByID. */
  lemma DeleteHidesRecord(st: Store, id: string)
    ensures Delete(st, id, Done).1 == Pass
    ensures FindUserByID(Delete(st, id, Done).0, id, Done) == Success(None)
  {
    var st' := Delete(st, id, Done).0;
    forall i | 0 <= i < |st'.rows| ensures st'.rows[i].deleted || IdText(st'.rows[i]) != id {
      assert IdText(st'.rows[i]) == IdText(st.rows[i]);
    }
  }

  /** The key a successful Create assigns, as id text. */
  function AssignedId(st: Store): string
  {
    NatToString(st.nextId)
  }

  /** The record a successful Create stores for `u`, as FindUser reads it:
      the assigned id, the digest in place of the plaintext, every other
      field as given. */
  function CreatedRecord(st: Store, u: User, b: Models.Bcrypt, salt: Models.Salt): User
    requires b.generate(u.password, salt).Success?
  {
    User(Some(AssignedId(st)), u.name, u.email, b.generate(u.password, salt).value, u.birthday)
  }

  /** A successful Create makes the new record visible by its email. */
  lemma CreatedFoundByEmail(st: Store, u: User, b: Models.Bcrypt, salt: Models.Salt)
    requires Models.ValidatePassword(u.password).Pass? && b.generate(u.password, salt).Success?
    requires forall i :: 0 <= i < |st.rows| ==> st.rows[i].email != u.email
    ensures Create(st, u, b, salt, Done).1 == Pass
    ensures FindUserByEmail(Create(st, u, b, salt, Done).0, u.email, Done) == Success(Some(CreatedRecord(st, u, b, salt)))
  {
    var st' := Create(st, u, b, salt, Done).0;
    var row := Models.UserModel(st.nextId, u.name, u.email, b.generate(u.password, salt).value, u.birthday, false);
    assert st'.rows == st.rows + [row];
    var n := |st.rows|;
    assert st'.rows[n] == row;
    assert FirstWhere(st'.rows, LiveEmail(u.email)) == Some(n) by {
      assert LiveEmail(u.email).Matches(st'.rows[n]);
    }
  }

  /** In a consistent table, a successful Create makes the new record visible
      by its assigned id: no older row carries that id. */
  lemma CreatedFoundById(st: Store, u: User, b: Models.Bcrypt, salt: Models.Salt)
    requires Consistent(st)
    requires Models.ValidatePassword(u.password).Pass? && b.generate(u.password, salt).Success?
    requires forall i :: 0 <= i < |st.rows| ==> st.rows[i].email != u.email
    ensures FindUserByID(Create(st, u, b, salt, Done).0, AssignedId(st), Done) == Success(Some(CreatedRecord(st, u, b, salt)))
  {
    var st' := Create(st, u, b, salt, Done).0;
    var row := Models.UserModel(st.nextId, u.name, u.email, b.generate(u.password, salt).value, u.birthday, false);
    assert st'.rows == st.rows + [row];
    var n := |st.rows|;
    assert st'.rows[n] == row;
    assert FirstWhere(st'.rows, LiveId(AssignedId(st))) == Some(n) by {
      var r := FirstWhere(st'.rows, LiveId(AssignedId(st)));
      assert LiveId(AssignedId(st)).Matches(st'.rows[n]);
      if r.Some? && r.value < n {
        var k := r.value;
        assert st'.rows[k] == st.rows[k];
        NatToStringInjective(st.rows[k].id, st.nextId);
      }
    }
  }
}
