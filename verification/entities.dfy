/** The outward user record (internal/entities/user.go) and its JSON view. */
module Entities {
  import opened Wrappers

  /** A birthday instant; the model never looks inside it. */
  datatype Date = Date(unixSeconds: int)

  /** The record the service layer passes around: `id` is nil until the
      store assigns it, `password` holds plaintext on the way in and the
      stored digest on the way out, `birthday` is optional. */
  datatype User = User(id: Option<string>, name: string, email: string, password: string, birthday: Option<Date>)

  /** JSON values the record serialises to. */
  datatype Json = JNull | JString(text: string) | JDate(date: Date)

  /** The keys the JSON encoding writes, in field order; the password field
      is tagged `json:"-"` and so has none. */
  const JsonKeys: seq<string> := ["id", "name", "email", "birthday"]

  /** encoding/json applied to a User: nil pointers become null. */
  function ToJson(u: User): (fields: seq<(string, Json)>)
    ensures |fields| == |JsonKeys|
    ensures forall i :: 0 <= i < |fields| ==> fields[i].0 == JsonKeys[i]
    ensures fields[0].1 == (if u.id.Some? then JString(u.id.value) else JNull)
    ensures fields[1].1 == JString(u.name) && fields[2].1 == JString(u.email)
    ensures fields[3].1 == (if u.birthday.Some? then JDate(u.birthday.value) else JNull)
  {
    [ ("id", match u.id case Some(s) => JString(s) case None => JNull),
      ("name", JString(u.name)),
      ("email", JString(u.email)),
      ("birthday", match u.birthday case Some(d) => JDate(d) case None => JNull) ]
  }

  /** The password (plaintext or digest) never reaches the JSON view: two
      records differing only in it serialise identically, and no key names it. */
  lemma PasswordNeverSerialised(u: User, other: string)
    ensures ToJson(u) == ToJson(u.(password := other))
    ensures forall i :: 0 <= i < |ToJson(u)| ==> ToJson(u)[i].0 != "password"
  {
  }
}
