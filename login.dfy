/** The login page's action (`routes/login.tsx`): it checks the submitted form, validates the
    username and password, and then either logs an existing user in or registers a new one,
    in both cases starting a session that redirects to the requested page. */
module Login {
  import opened Wrappers
  import opened Form
  import opened Text

  /** A row of the `user` table. */
  datatype User = User(id: nat, username: string, passwordHash: string)

  /** bcrypt, which this model leaves uninterpreted: `hash` is the salted hash `register`
      stores, `compare(password, hash)` the check `login` makes. */
  datatype Crypto = Crypto(hash: string -> string, compare: (string, string) -> bool)

  datatype FieldErrors = FieldErrors(username: Option<string>, password: Option<string>)

  /** The submitted values the page shows again after an error. */
  datatype Fields = Fields(loginType: string, username: string, password: string)

  /** The action's response: a 400 reply with its data, or `createUserSession`'s redirect with
      a session cookie holding the user's id. */
  datatype Outcome =
    | BadRequest(formError: Option<string>, fieldErrors: Option<FieldErrors>, fields: Option<Fields>)
    | Session(userId: nat, redirectTo: string)

  const UsernameError := "Usernames must be at least 3 characters long"
  const PasswordError := "Passwords must be at least 6 characters long"
  const FormNotSubmitted := "Form not submitted correctly."
  const WrongCredentials := "Username/Password combination is incorrect"
  const UnknownLoginType := "Login type invalid"

  function UserExists(username: string): string {
    "User with username " + username + " already exists"
  }

  /** `validateUsername`: an error unless the value is a string of at least 3 characters, as
      `length` counts them (UTF-16 code units). */
  function ValidateUsername(v: Option<Entry>): (r: Option<string>)
    ensures r.Some? <==> !(v.Some? && v.value.Text? && Utf16Length(v.value.text) >= 3)
    ensures r.Some? ==> r.value == UsernameError
  {
    match v
    case Some(Text(s)) => if Utf16Length(s) < 3 then Some(UsernameError) else None
    case _ => Some(UsernameError)
  }

  /** `validatePassword`: an error unless the value is a string of at least 6 characters, as
      `length` counts them (UTF-16 code units). */
  function ValidatePassword(v: Option<Entry>): (r: Option<string>)
    ensures r.Some? <==> !(v.Some? && v.value.Text? && Utf16Length(v.value.text) >= 6)
    ensures r.Some? ==> r.value == PasswordError
  {
    match v
    case Some(Text(s)) => if Utf16Length(s) < 6 then Some(PasswordError) else None
    case _ => Some(PasswordError)
  }

  /** A character beyond U+FFFF counts twice: an emoji and a letter are a long enough
      username, three emoji a long enough password, while two letters are too short. */
  lemma SurrogatePairsCountTwice()
    ensures ValidateUsername(Some(Text("\U{1F600}a"))) == None
    ensures ValidatePassword(Some(Text("\U{1F600}\U{1F600}\U{1F600}"))) == None
    ensures ValidateUsername(Some(Text("ab"))) == Some(UsernameError)
  {
    var e := '\U{1F600}';
    assert "\U{1F600}a"[..1] == [e];
    assert [e][..0] == [];
    assert Utf16Length([e]) == 2;
    var three := "\U{1F600}\U{1F600}\U{1F600}";
    assert three[..2] == [e, e] && [e, e][..1] == [e];
  }

  /** The `redirectTo` field, `'/'` when it is missing or empty. */
  function RedirectTo(form: Submission): (r: Option<Entry>)
    ensures r.Some? && (r.value.Upload? || r.value.text != "")
    ensures !Truthy(Get(form, "redirectTo")) ==> r == Some(Text("/"))
    ensures Truthy(Get(form, "redirectTo")) ==> r == Get(form, "redirectTo")
  {
    if Truthy(Get(form, "redirectTo")) then Get(form, "redirectTo") else Some(Text("/"))
  }

  predicate IsText(v: Option<Entry>) {
    v.Some? && v.value.Text?
  }

  /** The four fields the action reads are all strings. */
  predicate WellFormed(form: Submission) {
    && IsText(Get(form, "loginType")) && IsText(Get(form, "username"))
    && IsText(Get(form, "password")) && IsText(RedirectTo(form))
  }

  /** The first user with a given name (`findFirst` and `findUnique` on `username`). */
  function FindUser(users: seq<User>, username: string): (r: Option<User>)
    ensures r.Some? ==> r.value in users && r.value.username == username
    ensures r.None? <==> forall u :: u in users ==> u.username != username
  {
    if users == [] then None
    else if users[0].username == username then Some(users[0])
    else FindUser(users[1..], username)
  }

  /** `login` of `session.server.ts`: the user with that name, if the password matches its
      hash. */
  function LoginUser(users: seq<User>, crypto: Crypto, username: string, password: string): (r: Option<User>)
    ensures r.Some? <==> FindUser(users, username).Some? && crypto.compare(password, FindUser(users, username).value.passwordHash)
    ensures r.Some? ==> r == FindUser(users, username)
  {
    match FindUser(users, username)
    case None => None
    case Some(u) => if crypto.compare(password, u.passwordHash) then Some(u) else None
  }

  /** User ids are the row positions counted from 1, and no two users share a name. */
  ghost predicate UsersValid(users: seq<User>) {
    && (forall i :: 0 <= i < |users| ==> users[i].id == i + 1)
    && (forall i, j :: 0 <= i < j < |users| ==> users[i].username != users[j].username)
  }

  /** What the action answers and what the user table is afterwards. */
  function ActionSpec(users: seq<User>, form: Submission, crypto: Crypto): (Outcome, seq<User>) {
    if !WellFormed(form) then (BadRequest(Some(FormNotSubmitted), None, None), users)
    else
      var loginType, username, password := Get(form, "loginType").value.text,
        Get(form, "username").value.text, Get(form, "password").value.text;
      var redirectTo := RedirectTo(form).value.text;
      var fields := Fields(loginType, username, password);
      var errors := FieldErrors(ValidateUsername(Get(form, "username")), ValidatePassword(Get(form, "password")));
      if errors.username.Some? || errors.password.Some? then (BadRequest(None, Some(errors), Some(fields)), users)
      else if loginType == "login" then
        match LoginUser(users, crypto, username, password)
        case None => (BadRequest(Some(WrongCredentials), None, Some(fields)), users)
        case Some(u) => (Session(u.id, redirectTo), users)
      else if loginType == "register" then
        if FindUser(users, username).Some? then (BadRequest(Some(UserExists(username)), None, Some(fields)), users)
        else
          var u := User(|users| + 1, username, crypto.hash(password));
          (Session(u.id, redirectTo), users + [u])
      else (BadRequest(Some(UnknownLoginType), None, Some(fields)), users)
  }

  /** The `user` table. */
  class UserTable {
    var rows: seq<User>

    ghost predicate Valid()
      reads this
    {
      UsersValid(rows)
    }

    constructor (rows: seq<User>)
      ensures this.rows == rows
    {
      this.rows := rows;
    }

    /** `db.user.create`: the new row gets the next id. */
    method Create(username: string, passwordHash: string) returns (u: User)
      modifies this
      ensures u == User(|old(rows)| + 1, username, passwordHash)
      ensures rows == old(rows) + [u]
    {
      u := User(|rows| + 1, username, passwordHash);
      rows := rows + [u];
    }
  }

  /** The action, step by step as the route runs it. */
  method Action(db: UserTable, form: Submission, crypto: Crypto) returns (outcome: Outcome)
    modifies db
    ensures (outcome, db.rows) == ActionSpec(old(db.rows), form, crypto)
    ensures old(db.Valid()) ==> db.Valid()
  {
    ghost var before := db.rows;
    var loginType := Get(form, "loginType");
    var username := Get(form, "username");
    var password := Get(form, "password");
    var redirectTo := RedirectTo(form);
    if !(IsText(loginType) && IsText(username) && IsText(password) && IsText(redirectTo)) {
      return BadRequest(Some(FormNotSubmitted), None, None);
    }
    var fields := Fields(loginType.value.text, username.value.text, password.value.text);
    var errors := FieldErrors(ValidateUsername(username), ValidatePassword(password));
    if errors.username.Some? || errors.password.Some? {
      return BadRequest(None, Some(errors), Some(fields));
    }
    match loginType.value.text {
      case "login" =>
        var user := LoginUser(db.rows, crypto, fields.username, fields.password);
        if user.None? {
          return BadRequest(Some(WrongCredentials), None, Some(fields));
        }
        outcome := Session(user.value.id, redirectTo.value.text);
      case "register" =>
        var userExists := FindUser(db.rows, fields.username);
        if userExists.Some? {
          return BadRequest(Some(UserExists(fields.username)), None, Some(fields));
        }
        var user := db.Create(fields.username, crypto.hash(fields.password));
        outcome := Session(user.id, redirectTo.value.text);
      case _ =>
        outcome := BadRequest(Some(UnknownLoginType), None, Some(fields));
    }
    if UsersValid(before) {
      ActionKeepsValid(before, form, crypto);
    }
  }

  // ---------------------------------------------------------------------------------------
  // What the action promises.

  /** A form whose four fields are not all strings is refused before anything else happens. */
  lemma MalformedFormRefused(users: seq<User>, form: Submission, crypto: Crypto)
    requires !WellFormed(form)
    ensures ActionSpec(users, form, crypto) == (BadRequest(Some(FormNotSubmitted), None, None), users)
  {
  }

  /** A missing or empty `redirectTo` sends a new session to "/". */
  lemma DefaultRedirect(users: seq<User>, form: Submission, crypto: Crypto)
    requires !Truthy(Get(form, "redirectTo"))
    ensures ActionSpec(users, form, crypto).0.Session? ==> ActionSpec(users, form, crypto).0.redirectTo == "/"
  {
  }

  /** With a username shorter than 3 or a password shorter than 6 code units the reply lists
      exactly those errors along with the fields, and nobody is logged in or registered. */
  lemma InvalidFieldsRefused(users: seq<User>, form: Submission, crypto: Crypto)
    requires WellFormed(form)
    requires Utf16Length(Get(form, "username").value.text) < 3 || Utf16Length(Get(form, "password").value.text) < 6
    ensures var (outcome, after) := ActionSpec(users, form, crypto);
      && after == users && outcome.BadRequest? && outcome.formError.None?
      && outcome.fieldErrors.Some? && outcome.fields.Some?
      && (outcome.fieldErrors.value.username == Some(UsernameError) <==> Utf16Length(Get(form, "username").value.text) < 3)
      && (outcome.fieldErrors.value.password == Some(PasswordError) <==> Utf16Length(Get(form, "password").value.text) < 6)
      && outcome.fields.value.username == Get(form, "username").value.text
  {
  }

  /** The form passes every check. */
  predicate Accepted(form: Submission) {
    && WellFormed(form)
    && Utf16Length(Get(form, "username").value.text) >= 3 && Utf16Length(Get(form, "password").value.text) >= 6
  }

  /** Logging in changes no user; it starts a session for the named user exactly when that user
      exists and the password matches, and otherwise reports the combination as incorrect. */
  lemma LoginOutcome(users: seq<User>, form: Submission, crypto: Crypto)
    requires Accepted(form) && Get(form, "loginType").value.text == "login"
    ensures var (outcome, after) := ActionSpec(users, form, crypto);
      var u := FindUser(users, Get(form, "username").value.text);
      && after == users
      && (outcome.Session? <==> u.Some? && crypto.compare(Get(form, "password").value.text, u.value.passwordHash))
      && (outcome.Session? ==> outcome == Session(u.value.id, RedirectTo(form).value.text))
      && (outcome.BadRequest? ==> outcome.formError == Some(WrongCredentials))
  {
  }

  /** Registering a name that is taken is refused and creates no user. */
  lemma RegisterTakenName(users: seq<User>, form: Submission, crypto: Crypto)
    requires Accepted(form) && Get(form, "loginType").value.text == "register"
    requires FindUser(users, Get(form, "username").value.text).Some?
    ensures var (outcome, after) := ActionSpec(users, form, crypto);
      && after == users
      && outcome.BadRequest? && outcome.formError == Some(UserExists(Get(form, "username").value.text))
  {
  }

  /** Registering a free name adds exactly one user, with that name, the hash of the password
      and the next id, and starts a session for it. */
  lemma RegisterNewName(users: seq<User>, form: Submission, crypto: Crypto)
    requires Accepted(form) && Get(form, "loginType").value.text == "register"
    requires FindUser(users, Get(form, "username").value.text).None?
    ensures var (outcome, after) := ActionSpec(users, form, crypto);
      var u := User(|users| + 1, Get(form, "username").value.text, crypto.hash(Get(form, "password").value.text));
      && after == users + [u]
      && outcome == Session(u.id, RedirectTo(form).value.text)
  {
  }

  /** Any other login type is refused. */
  lemma UnknownTypeRefused(users: seq<User>, form: Submission, crypto: Crypto)
    requires Accepted(form)
    requires Get(form, "loginType").value.text != "login" && Get(form, "loginType").value.text != "register"
    ensures ActionSpec(users, form, crypto).1 == users
    ensures ActionSpec(users, form, crypto).0.BadRequest?
    ensures ActionSpec(users, form, crypto).0.formError == Some(UnknownLoginType)
  {
  }

  /** Only a registration adds a user, and then a single one. */
  lemma {:induction false} ActionKeepsValid(users: seq<User>, form: Submission, crypto: Crypto)
    requires UsersValid(users)
    ensures UsersValid(ActionSpec(users, form, crypto).1)
  {
    var after := ActionSpec(users, form, crypto).1;
    if after != users {
      var u := after[|users|];
      assert after == users + [u];
      assert FindUser(users, u.username).None?;
      forall i | 0 <= i < |users| ensures users[i].username != u.username {
        assert users[i] in users;
      }
    }
  }
}
