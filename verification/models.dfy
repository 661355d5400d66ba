/** The persisted user model (internal/models/model.go): the password
    policy, the create hook that hashes the password, and the password check. */
module Models {
  import opened Wrappers
  import opened Entities

  /** A row of the users table. `id` is the store's primary key (0 until
      inserted) and `deleted` stands for a non-null `deleted_at`. */
  datatype UserModel = UserModel(id: nat, name: string, email: string, password: string, birthday: Option<Date>, deleted: bool)

  const MinPasswordLength: nat := 8

  /** The characters of the special class `[!@#~$%^&*()+|_.,<>?/\\[\]{}-]`. */
  const SpecialCharacters: string := "!@#~$%^&*()+|_.,<>?/\\[]{}-"

  /** Membership of the special class, one comparison per listed character
      (SpecialClassExact ties it to SpecialCharacters). */
  predicate IsSpecial(c: char)
  {
    || c == '!' || c == '@' || c == '#' || c == '~' || c == '$' || c == '%' || c == '^'
    || c == '&' || c == '*' || c == '(' || c == ')' || c == '+' || c == '|' || c == '_'
    || c == '.' || c == ',' || c == '<' || c == '>' || c == '?' || c == '/' || c == '\\'
    || c == '[' || c == ']' || c == '{' || c == '}' || c == '-'
  }

  /** The four character classes the policy asks for. All are ASCII, so a
      byte of a multi-byte UTF-8 sequence is never a member. */
  datatype CharClass = Uppercase | Lowercase | Digit | Special {
    predicate Has(c: char)
    {
      match this
      case Uppercase => 'A' <= c <= 'Z'
      case Lowercase => 'a' <= c <= 'z'
      case Digit => '0' <= c <= '9'
      case Special => IsSpecial(c)
    }
  }

  /** One rule of the password policy. */
  datatype Rule = MinLength | Include(cls: CharClass) {
    function Message(): string
    {
      match this
      case MinLength => "password must be at least 8 characters long"
      case Include(Uppercase) => "password must include at least one uppercase letter"
      case Include(Lowercase) => "password must include at least one lowercase letter"
      case Include(Digit) => "password must include at least one digit"
      case Include(Special) => "password must include at least one special character"
    }
  }

  /** The rules in the order they are checked. */
  const PolicyOrder: seq<Rule> := [MinLength, Include(Uppercase), Include(Lowercase), Include(Digit), Include(Special)]

  /** Some character of `s` is in the class: what `regexp.MatchString` of a
      one-class pattern answers. */
  ghost predicate Mentions(s: string, cls: CharClass)
  {
    exists i :: 0 <= i < |s| && cls.Has(s[i])
  }

  /** Whether `p` meets `rule`; the length is Go's `len`, a byte count. */
  ghost predicate Satisfies(p: string, rule: Rule)
  {
    match rule
    case MinLength => |p| >= MinPasswordLength
    case Include(cls) => Mentions(p, cls)
  }

  /** Scans `s` from index `from` for a member of the class. */
  function MatchFrom(s: string, cls: CharClass, from: nat): (found: bool)
    requires from <= |s|
    ensures found <==> exists i :: from <= i < |s| && cls.Has(s[i])
    decreases |s| - from
  {
    if from == |s| then false
    else cls.Has(s[from]) || MatchFrom(s, cls, from + 1)
  }

  /** Scans `s` for a member of the class. */
  function MatchClass(s: string, cls: CharClass): (found: bool)
    ensures found <==> Mentions(s, cls)
  {
    MatchFrom(s, cls, 0)
  }

  /** The first rule of `rules` that `p` does not meet, if any. */
  ghost function FirstUnmet(p: string, rules: seq<Rule>): Option<Rule>
    decreases |rules|
  {
    if |rules| == 0 then None
    else if !Satisfies(p, rules[0]) then Some(rules[0])
    else FirstUnmet(p, rules[1..])
  }

  /** validatePassword: the rules are checked in PolicyOrder and the first
      that fails is reported; Pass when all hold. It reads only the password. */
  function ValidatePassword(p: string): (r: Outcome<Rule>)
    ensures r.Pass? <==>
              && |p| >= MinPasswordLength && Mentions(p, Uppercase) && Mentions(p, Lowercase) && Mentions(p, Digit)
              && Mentions(p, Special)
    ensures r == Fail(MinLength) <==> |p| < MinPasswordLength
  {
    if |p| < MinPasswordLength then Fail(MinLength)
    else if !MatchClass(p, Uppercase) then Fail(Include(Uppercase))
    else if !MatchClass(p, Lowercase) then Fail(Include(Lowercase))
    else if !MatchClass(p, Digit) then Fail(Include(Digit))
    else if !MatchClass(p, Special) then Fail(Include(Special))
    else Pass
  }

  /** FirstUnmet read as a statement about positions: None exactly when every
      rule is met, and otherwise a rule at some position that is broken while
      every earlier rule is met. */
  lemma {:induction false} FirstUnmetIsFirst(p: string, rules: seq<Rule>)
    ensures FirstUnmet(p, rules) == None <==> forall k :: 0 <= k < |rules| ==> Satisfies(p, rules[k])
    ensures FirstUnmet(p, rules).Some? ==>
              exists k :: && 0 <= k < |rules| && rules[k] == FirstUnmet(p, rules).value
                          && !Satisfies(p, rules[k])
                          && forall j :: 0 <= j < k ==> Satisfies(p, rules[j])
    decreases |rules|
  {
    if |rules| > 0 && Satisfies(p, rules[0]) {
      var tail := rules[1..];
      FirstUnmetIsFirst(p, tail);
      assert forall k :: 1 <= k < |rules| ==> rules[k] == tail[k - 1];
      if FirstUnmet(p, tail).Some? {
        var k :| && 0 <= k < |tail| && tail[k] == FirstUnmet(p, tail).value
                 && !Satisfies(p, tail[k]) && forall j :: 0 <= j < k ==> Satisfies(p, tail[j]);
        assert forall j :: 1 <= j < k + 1 ==> Satisfies(p, rules[j]) by {
          forall j | 1 <= j < k + 1 ensures Satisfies(p, rules[j]) {
            assert rules[j] == tail[j - 1];
          }
        }
        assert rules[k + 1] == tail[k];
      } else {
        assert forall k :: 0 <= k < |rules| ==> Satisfies(p, rules[k]) by {
          forall k | 0 <= k < |rules| ensures Satisfies(p, rules[k]) {
            if k > 0 { assert rules[k] == tail[k - 1]; }
          }
        }
      }
    }
  }

  /** validatePassword agrees with the rule list read generically: it
      passes when no rule of PolicyOrder is unmet and otherwise reports the
      first unmet one. */
  lemma PolicyIsFirstUnmet(p: string)
    ensures FirstUnmet(p, PolicyOrder).None? ==> ValidatePassword(p) == Pass
    ensures FirstUnmet(p, PolicyOrder).Some? ==> ValidatePassword(p) == Fail(FirstUnmet(p, PolicyOrder).value)
  {
    assert PolicyOrder[1..][1..][1..][1..][1..] == [];
  }

  /** The policy read against its rule list: a password passes exactly when
      it meets every rule of PolicyOrder, and a failure names a broken rule
      that comes after every rule it meets. */
  lemma FirstFailureInOrder(p: string)
    ensures ValidatePassword(p).Pass? <==> forall k :: 0 <= k < |PolicyOrder| ==> Satisfies(p, PolicyOrder[k])
    ensures ValidatePassword(p).Fail? ==>
              exists k :: && 0 <= k < |PolicyOrder| && PolicyOrder[k] == ValidatePassword(p).error
                          && !Satisfies(p, PolicyOrder[k])
                          && forall j :: 0 <= j < k ==> Satisfies(p, PolicyOrder[j])
  {
    PolicyIsFirstUnmet(p);
    FirstUnmetIsFirst(p, PolicyOrder);
  }

  /** The policy spelled out rule by rule, in checking order. */
  lemma PolicyByRule(p: string)
    ensures ValidatePassword(p) == Fail(MinLength) <==> |p| < MinPasswordLength
    ensures ValidatePassword(p) == Fail(Include(Uppercase)) <==> |p| >= MinPasswordLength && !Mentions(p, Uppercase)
    ensures ValidatePassword(p) == Fail(Include(Lowercase)) <==>
              |p| >= MinPasswordLength && Mentions(p, Uppercase) && !Mentions(p, Lowercase)
    ensures ValidatePassword(p) == Fail(Include(Digit)) <==>
              |p| >= MinPasswordLength && Mentions(p, Uppercase) && Mentions(p, Lowercase) && !Mentions(p, Digit)
    ensures ValidatePassword(p) == Fail(Include(Special)) <==>
              && |p| >= MinPasswordLength && Mentions(p, Uppercase) && Mentions(p, Lowercase) && Mentions(p, Digit)
              && !Mentions(p, Special)
  {
  }

  /** A password shorter than eight bytes fails on length, with exactly that
      message, whatever characters it contains. */
  lemma ShortPasswordFailsOnLength(p: string)
    requires |p| < MinPasswordLength
    ensures ValidatePassword(p) == Fail(MinLength)
    ensures ValidatePassword(p).error.Message() == "password must be at least 8 characters long"
  {
  }

  /** First failure wins: "aaaaaaa1!" lacks an uppercase letter and is
      reported for that alone. */
  lemma FirstFailureWins()
    ensures ValidatePassword("aaaaaaa1!") == Fail(Include(Uppercase))
  {
    var p := "aaaaaaa1!";
    assert !Mentions(p, Uppercase);
  }

  /** The special class is exactly the 26 listed characters: characters such
      as '=', ':', ';', quotes, backtick and space are not in it. */
  lemma SpecialClassExact(c: char)
    ensures Special.Has(c) <==> c in SpecialCharacters
    ensures c in "=:;'\"` " ==> !Special.Has(c)
    ensures |SpecialCharacters| == 26
  {
  }

  /** "Abcdef1!" meets the whole policy. */
  lemma AcceptedExample()
    ensures ValidatePassword("Abcdef1!") == Pass
  {
    var p := "Abcdef1!";
    assert Uppercase.Has(p[0]) && Lowercase.Has(p[1]) && Digit.Has(p[6]) && Special.Has(p[7]);
  }

  type Salt = nat

  /** bcrypt as two uninterpreted functions: `generate(plaintext, salt)`
      (GenerateFromPassword at the default cost, the salt standing for its
      random input) may fail, and `compare(digest, candidate)`
      (CompareHashAndPassword) passes or fails with an error. */
  datatype Bcrypt = Bcrypt(generate: (string, Salt) -> Result<string, string>, compare: (string, string) -> Outcome<string>)

  /** bcrypt's key schedule reads the password followed by one zero byte,
      cyclically, for 72 bytes (18 Blowfish subkey words); the digest depends
      on the password only through these bytes. */
  const KeyScheduleLength := 72

  function BcryptKey(p: string): (k: seq<char>)
    ensures |k| == KeyScheduleLength
  {
    Cycle(p + ['\0'], KeyScheduleLength)
  }

  /** The first `n` elements of `key` repeated without end. */
  function Cycle(key: seq<char>, n: nat): (r: seq<char>)
    requires |key| > 0
    ensures |r| == n
    decreases n
  {
    if n <= |key| then key[..n] else key + Cycle(key, n - |key|)
  }

  /** What the model assumes of bcrypt when it needs to: a digest it produced
      accepts the plaintext it was made from. */
  ghost predicate Accepts(b: Bcrypt)
  {
    forall p, s :: b.generate(p, s).Success? ==> b.compare(b.generate(p, s).value, p) == Pass
  }

  /** A digest rejects every candidate whose key-schedule bytes differ from
      those of the plaintext it was made from. */
  ghost predicate Discriminates(b: Bcrypt)
  {
    forall p, q, s :: b.generate(p, s).Success? && BcryptKey(p) != BcryptKey(q) ==> b.compare(b.generate(p, s).value, q).Fail?
  }

  /** The comparison sees a candidate only through its key-schedule bytes. */
  ghost predicate KeyedBy(b: Bcrypt)
  {
    forall d, p, q :: BcryptKey(p) == BcryptKey(q) ==> b.compare(d, p) == b.compare(d, q)
  }

  /** Below the length of password plus zero byte, the key-schedule bytes
      are that string itself. */
  lemma KeyPrefix(p: string, i: nat)
    requires i < KeyScheduleLength && i <= |p|
    ensures BcryptKey(p)[i] == (p + ['\0'])[i]
  {
  }

  /** A password of 72 or more bytes has the same key-schedule bytes as
      itself with anything appended. */
  lemma {:induction false} LongPasswordKeyIgnoresTail(p: string, tail: string)
    requires |p| >= KeyScheduleLength
    ensures BcryptKey(p + tail) == BcryptKey(p)
  {
    forall i | 0 <= i < KeyScheduleLength
      ensures BcryptKey(p + tail)[i] == BcryptKey(p)[i]
    {
      KeyPrefix(p + tail, i);
      KeyPrefix(p, i);
    }
  }

  /** Two different passwords shorter than 72 bytes and free of zero bytes
      have different key-schedule bytes. */
  lemma {:induction false} ShortPasswordsKeyApart(p: string, q: string)
    requires |p| < KeyScheduleLength && |q| < KeyScheduleLength
    requires forall i :: 0 <= i < |p| ==> p[i] != '\0'
    requires forall i :: 0 <= i < |q| ==> q[i] != '\0'
    requires p != q
    ensures BcryptKey(p) != BcryptKey(q)
  {
    if |p| == |q| {
      var i :| 0 <= i < |p| && p[i] != q[i];
      KeyPrefix(p, i);
      KeyPrefix(q, i);
    } else if |p| < |q| {
      KeyPrefix(p, |p|);
      KeyPrefix(q, |p|);
    } else {
      KeyPrefix(p, |q|);
      KeyPrefix(q, |q|);
    }
  }

  /** The error text BeforeCreate gives a policy failure: fmt.Errorf("%s: %s",
      "invalid password:", reason), hence the double colon. */
  function PolicyErrorText(rule: Rule): (text: string)
    ensures text == "invalid password:: " + rule.Message()
  {
    "invalid password:" + ": " + rule.Message()
  }

  /** BeforeCreate: a password the policy rejects aborts the insert with the
      wrapped reason and leaves the row untouched; a hashing failure aborts
      with bcrypt's error; otherwise the plaintext is replaced by its digest
      and nothing else changes. */
  function BeforeCreate(u: UserModel, b: Bcrypt, salt: Salt): (r: Result<UserModel, string>)
    ensures ValidatePassword(u.password).Fail? ==> r == Failure(PolicyErrorText(ValidatePassword(u.password).error))
    ensures ValidatePassword(u.password).Pass? && b.generate(u.password, salt).Failure? ==>
              r == Failure(b.generate(u.password, salt).error)
    ensures r.Success? <==> ValidatePassword(u.password).Pass? && b.generate(u.password, salt).Success?
    ensures r.Success? ==> r.value == u.(password := b.generate(u.password, salt).value)
  {
    match ValidatePassword(u.password)
    case Fail(rule) => Failure(PolicyErrorText(rule))
    case Pass =>
      match b.generate(u.password, salt)
      case Failure(e) => Failure(e)
      case Success(digest) => Success(u.(password := digest))
  }

  /** CheckPassword: true exactly when bcrypt's comparison reports no error. */
  function CheckPassword(u: UserModel, candidate: string, b: Bcrypt): (ok: bool)
    ensures ok <==> b.compare(u.password, candidate) == Pass
  {
    b.compare(u.password, candidate).Pass?
  }

  /** The row BeforeCreate produces accepts the original plaintext and
      rejects every candidate bcrypt's key schedule tells apart from it. */
  lemma HashedPasswordChecks(u: UserModel, b: Bcrypt, salt: Salt, candidate: string)
    requires Accepts(b) && Discriminates(b)
    requires BeforeCreate(u, b, salt).Success?
    ensures candidate == u.password ==> CheckPassword(BeforeCreate(u, b, salt).value, candidate, b)
    ensures BcryptKey(candidate) != BcryptKey(u.password) ==> !CheckPassword(BeforeCreate(u, b, salt).value, candidate, b)
  {
  }

  /** The other side of the key schedule: a stored password of 72 or more
      bytes also accepts itself with anything appended. */
  lemma LongPasswordAcceptsExtension(u: UserModel, b: Bcrypt, salt: Salt, tail: string)
    requires Accepts(b) && KeyedBy(b)
    requires BeforeCreate(u, b, salt).Success?
    requires |u.password| >= KeyScheduleLength
    ensures CheckPassword(BeforeCreate(u, b, salt).value, u.password + tail, b)
  {
    LongPasswordKeyIgnoresTail(u.password, tail);
  }
}
