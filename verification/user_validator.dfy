/** The register/login body rules of validators/user.validator.js: a Joi object
    schema that admits unknown keys and, with Joi's default of stopping at the
    first failure, reports the first failing key in declaration order. */
module UserValidator {
  import opened Wrappers

  /** A JSON value in a request body; only strings matter to the rules. */
  datatype Json = JString(s: string) | JOther

  type Body = map<string, Json>

  const MinUsername := 3
  const MaxUsername := 30
  const MinPassword := 6

  /** `Joi.string().min(lo)[.max(hi)]` on a key, required or optional: an
      absent key passes only when optional; a present one must be a non-empty
      string whose length lies within the bounds. */
  predicate StringRule(body: Body, key: string, required: bool, lo: nat, hi: Option<nat>) {
    if key !in body then !required
    else match body[key]
      case JOther => false
      case JString(s) => s != "" && lo <= |s| && (hi.None? || |s| <= hi.value)
  }

  predicate UsernameOk(body: Body) { StringRule(body, "username", true, MinUsername, Some(MaxUsername)) }
  predicate PasswordOk(body: Body) { StringRule(body, "password", true, MinPassword, None) }
  predicate NewPasswordOk(body: Body) { StringRule(body, "newPassword", false, MinPassword, None) }

  /** The body the schema accepts. */
  predicate ValidBody(body: Body) {
    UsernameOk(body) && PasswordOk(body) && NewPasswordOk(body)
  }

  /** `userSchema.validate(body).error`: `None` when the body passes, otherwise
      the key of the first rule, in declaration order, that fails. */
  function Validate(body: Body): (r: Option<string>)
    ensures r.None? <==> ValidBody(body)
    ensures r == Some("username") <==> !UsernameOk(body)
    ensures r == Some("password") <==> UsernameOk(body) && !PasswordOk(body)
    ensures r == Some("newPassword") <==> UsernameOk(body) && PasswordOk(body) && !NewPasswordOk(body)
  {
    if !UsernameOk(body) then Some("username")
    else if !PasswordOk(body) then Some("password")
    else if !NewPasswordOk(body) then Some("newPassword")
    else None
  }

  /** Keys outside the schema never change the outcome (`unknown(true)`). */
  lemma ExtraKeysIgnored(body: Body, key: string, v: Json)
    requires key !in {"username", "password", "newPassword"}
    ensures Validate(body[key := v]) == Validate(body)
  {
    assert UsernameOk(body[key := v]) == UsernameOk(body);
    assert PasswordOk(body[key := v]) == PasswordOk(body);
    assert NewPasswordOk(body[key := v]) == NewPasswordOk(body);
  }

  /** A valid body stays valid with `newPassword` removed: the key is optional. */
  lemma NewPasswordOptional(body: Body)
    requires ValidBody(body)
    ensures ValidBody(body - {"newPassword"})
  {
    assert UsernameOk(body - {"newPassword"}) == UsernameOk(body);
    assert PasswordOk(body - {"newPassword"}) == PasswordOk(body);
  }

  /** The length bounds are inclusive: 3 and 30 characters are accepted as a
      username, 2 and 31 are not; 6 characters are accepted as a password, 5
      are not. */
  lemma LengthBounds(name: string, password: string)
    requires |password| >= MinPassword
    ensures |name| == 3 || |name| == 30 ==>
      Validate(map["username" := JString(name), "password" := JString(password)]).None?
    ensures |name| == 2 || |name| == 31 ==>
      Validate(map["username" := JString(name), "password" := JString(password)]) == Some("username")
    ensures 3 <= |name| <= 30 ==>
      (Validate(map["username" := JString(name), "password" := JString(password[..5])]) == Some("password"))
  {
  }

  /** The request examples: a complete body passes; a body without a username
      or without a password, or with a four-character password, is refused on
      that key. */
  lemma RequestExamples()
    ensures Validate(map["username" := JString("testuser"), "password" := JString("password")]).None?
    ensures Validate(map["password" := JString("password")]) == Some("username")
    ensures Validate(map["username" := JString("testuser")]) == Some("password")
    ensures Validate(map["username" := JString("testuser"), "password" := JString("pass")]) == Some("password")
  {
  }
}
