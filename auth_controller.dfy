/**
 * Sign-up and sign-in, and the `validate.Struct` rules of the user record that
 * sign-up and the admin update both apply.  Password hashing is the parameter
 * `hash`; whether a string is an e-mail address (the validator's `email` rule)
 * is the parameter `isEmail`.
 */
module AuthController {

  import opened Store
  import opened Models
  import opened Replies
  import opened Db

  /** A user as the sign-up and profile responses show it: never the password. */
  datatype Profile = Profile(id: nat, name: string, email: string)

  /** One failed validation rule: the field and the tag it failed on. */
  datatype FieldError = FieldError(field: string, tag: string)

  /** `required,min=2,max=100`: the first tag the name fails, if any. */
  function NameTag(name: string): Option<string> {
    if name == "" then Some("required")
    else if |name| < 2 then Some("min")
    else if |name| > 100 then Some("max")
    else None
  }

  /** `email,required`, checked in that order. */
  function EmailTag(isEmail: string -> bool, email: string): Option<string> {
    if !isEmail(email) then Some("email")
    else if email == "" then Some("required")
    else None
  }

  /** `required,min=6`. */
  function PasswordTag(password: string): Option<string> {
    if password == "" then Some("required")
    else if |password| < 6 then Some("min")
    else None
  }

  function Failure(field: string, tag: Option<string>): seq<FieldError> {
    if tag.Some? then [FieldError(field, tag.value)] else []
  }

  /** The user record passes every rule of its `validate` tags. */
  predicate ValidUser(isEmail: string -> bool, u: User) {
    && 2 <= |u.name| <= 100
    && isEmail(u.email) && u.email != ""
    && 6 <= |u.password|
  }

  /** The validator's error list, in field order; the record has no role rule. */
  function FieldErrors(isEmail: string -> bool, u: User): (r: seq<FieldError>)
    ensures r == [] <==> ValidUser(isEmail, u)
    ensures |r| <= 3
    ensures forall i :: 0 <= i < |r| ==> r[i].field in ["Name", "Email", "Password"]
  {
    Failure("Name", NameTag(u.name)) + Failure("Email", EmailTag(isEmail, u.email))
      + Failure("Password", PasswordTag(u.password))
  }

  function ErrorText(e: FieldError): string {
    "Key: 'User." + e.field + "' Error:Field validation for '" + e.field + "' failed on the '" + e.tag + "' tag"
  }

  /** The texts of the errors, one per line. */
  function JoinLines(errors: seq<FieldError>): (r: string)
    ensures errors != [] ==> ErrorText(errors[0]) <= r
    ensures errors == [] <==> r == []
  {
    if errors == [] then ""
    else if |errors| == 1 then ErrorText(errors[0])
    else ErrorText(errors[0]) + "\n" + JoinLines(errors[1..])
  }

  /** `ValidationErrors.Error()`: the reply text of a rejected record, never empty. */
  function ValidationMessage(isEmail: string -> bool, u: User): (r: string)
    requires !ValidUser(isEmail, u)
    ensures r != ""
  {
    JoinLines(FieldErrors(isEmail, u))
  }

  /**
   * `Signup`: validation, then the e-mail must be unused, then the record is
   * stored with its password hashed.  The response leaves the password out.
   */
  method Signup(db: Database, hash: string -> string, isEmail: string -> bool, u: User) returns (r: Result<Profile>)
    requires db.Valid()
    modifies db
    ensures db.Valid()
    ensures db.Snapshot() == old(db.Snapshot()).(users := db.users)
    ensures !ValidUser(isEmail, u) ==> r == Err(BadRequest, ValidationMessage(isEmail, u))
    ensures ValidUser(isEmail, u) && EmailTaken(old(db.users), u.email) ==>
      r == Err(Conflict, "User with given email already exists!")
    ensures r.Ok? <==> ValidUser(isEmail, u) && !EmailTaken(old(db.users), u.email)
    ensures r.Ok? ==>
      && r.value == Profile(old(db.users.nextId), u.name, u.email)
      && old(db.users.nextId) !in old(db.users.rows)
      && db.users.rows == old(db.users.rows)[old(db.users.nextId) := u.(password := hash(u.password))]
    ensures r.Err? ==> db.users == old(db.users)
  {
    if !ValidUser(isEmail, u) {
      return Err(BadRequest, ValidationMessage(isEmail, u));
    }
    if EmailTaken(db.users, u.email) {
      return Err(Conflict, "User with given email already exists!");
    }
    var user := u.(password := hash(u.password));
    var created := db.users.Insert(user);
    db.users := created.1;
    r := Ok(Profile(created.0, user.name, user.email));
  }

  /** The account a sign-in names: `Where("email = ?").First`. */
  function AccountFor(users: Table<User>, email: string): (r: Option<nat>)
    requires users.Valid()
    ensures r.Some? ==> r.value in users.rows && users.rows[r.value].email == email
    ensures r.None? <==> !EmailTaken(users, email)
  {
    users.FirstWhere((u: User) => u.email == email)
  }

  /**
   * `Signin`: both fields must be present, the account must exist and the
   * password must match; an unknown e-mail and a wrong password are answered
   * alike.  On success the result is the id the token is issued for; issuing
   * fails when no signing key is configured.
   */
  function Signin(hash: string -> string, secretKey: string, users: Table<User>, email: string, password: string)
    : (r: Result<nat>)
    requires users.Valid()
    ensures email == "" || password == "" ==> r == Err(BadRequest, "Please provide all fields!")
    ensures email != "" && password != "" && AccountFor(users, email).None? ==>
      r == Err(Unauthorized, "Invalid credendals!")
    ensures email != "" && password != "" && AccountFor(users, email).Some?
            && !ComparePassword(hash, users.rows[AccountFor(users, email).value].password, password) ==>
      r == Err(Unauthorized, "Invalid credendals!")
    ensures r.Ok? <==>
      && email != "" && password != "" && secretKey != ""
      && AccountFor(users, email).Some?
      && ComparePassword(hash, users.rows[AccountFor(users, email).value].password, password)
    ensures r.Ok? ==> r.value == AccountFor(users, email).value
    ensures r.Err? && r.code == InternalServerError ==> r.message == "Something went wrong!"
  {
    if email == "" || password == "" then Err(BadRequest, "Please provide all fields!")
    else
      var account := AccountFor(users, email);
      if account.None? then Err(Unauthorized, "Invalid credendals!")
      else if !ComparePassword(hash, users.rows[account.value].password, password) then Err(Unauthorized, "Invalid credendals!")
      else if secretKey == "" then Err(InternalServerError, "Something went wrong!")
      else Ok(account.value)
  }

  /** With unique e-mails, the account a sign-in reaches is the account holding that e-mail. */
  lemma AccountForOwner(users: Table<User>, id: nat)
    requires users.Valid() && UniqueEmails(users.rows)
    requires id in users.rows
    ensures AccountFor(users, users.rows[id].email) == Some(id)
  {
    var found := AccountFor(users, users.rows[id].email);
    assert found.Some?;
    assert users.rows[found.value].email == users.rows[id].email;
  }

  /** A sign-up followed by a sign-in with the same e-mail and password signs into the new account. */
  lemma SigninAfterSignup(hash: string -> string, secretKey: string, users: Table<User>, u: User)
    requires users.Valid() && UniqueEmails(users.rows) && !EmailTaken(users, u.email)
    requires u.email != "" && u.password != "" && secretKey != ""
    ensures var after := users.Insert(u.(password := hash(u.password))).1;
      UniqueEmails(after.rows) && Signin(hash, secretKey, after, u.email, u.password) == Ok(users.nextId)
  {
    var after := users.Insert(u.(password := hash(u.password))).1;
    assert UniqueEmails(after.rows);
    AccountForOwner(after, users.nextId);
  }

  /** With unique e-mails, a sign-in succeeds exactly for the holder of the e-mail and its password. */
  lemma SigninSucceedsIff(hash: string -> string, secretKey: string, users: Table<User>, email: string, password: string)
    requires users.Valid() && UniqueEmails(users.rows)
    requires email != "" && password != "" && secretKey != ""
    ensures forall id :: id in users.rows && users.rows[id].email == email ==>
      (Signin(hash, secretKey, users, email, password) == Ok(id) <==> hash(password) == users.rows[id].password)
    ensures !EmailTaken(users, email) ==> Signin(hash, secretKey, users, email, password).Err?
  {
    forall id | id in users.rows && users.rows[id].email == email
      ensures Signin(hash, secretKey, users, email, password) == Ok(id) <==> hash(password) == users.rows[id].password
    {
      AccountForOwner(users, id);
    }
  }
}
