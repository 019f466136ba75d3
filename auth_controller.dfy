/** The authentication controller: the controller's own first-failure password check, and
    registration, login, the current-user lookup and the password change over a user store. */
module AuthController {
  import opened Base
  import opened Text
  import opened UserModel

  const TooShortMessage: string := MinLengthMessage
  const NameMessage: string := PasswordWord + " cannot contain your name"
  const NoSpecialMessage: string := PasswordWord + " must contain at least one special character"
  const NoNumberMessage: string := PasswordWord + " must contain at least one number"
  /** What `bcrypt.compare` rejects with when the password or the hash is missing. */
  const CompareError: string := "data and hash arguments required"
  const UpdateFailedMessage: string := "Error updating password"

  // ----- validatePassword -----

  /** The checks of `validatePassword`, in the order it makes them. */
  datatype Step = LengthStep | NameStep | SpecialStep | NumberStep

  const Steps: seq<Step> := [LengthStep, NameStep, SpecialStep, NumberStep]

  /** Whether `password` passes one check; the name check is skipped for an empty name and
      otherwise compares the whole lower-cased name. */
  predicate Passes(s: Step, password: string, name: string) {
    match s
    case LengthStep => Utf16Length(password) >= 8
    case NameStep => name == "" || !Contains(Lower(password), Lower(name))
    case SpecialStep => HasCharIn(password, SpecialChars)
    case NumberStep => HasCharBetween(password, '0', '9')
  }

  function StepMessage(s: Step): string {
    match s
    case LengthStep => TooShortMessage
    case NameStep => NameMessage
    case SpecialStep => NoSpecialMessage
    case NumberStep => NoNumberMessage
  }

  /** The first of `steps` that `password` does not pass. */
  function FirstFailure(steps: seq<Step>, password: string, name: string): (r: Option<nat>)
    ensures r.None? <==> forall k | 0 <= k < |steps| :: Passes(steps[k], password, name)
    ensures r.Some? ==> r.value < |steps| && !Passes(steps[r.value], password, name)
    ensures r.Some? ==> forall k | 0 <= k < r.value :: Passes(steps[k], password, name)
  {
    if steps == [] then None
    else if !Passes(steps[0], password, name) then Some(0)
    else match FirstFailure(steps[1..], password, name)
      case None => None
      case Some(k) => Some(k + 1)
  }

  /** `validatePassword(password, name)`: the message it throws, or `None` when it returns. */
  function ValidatePassword(password: string, name: string): Option<string> {
    if Utf16Length(password) < 8 then Some(TooShortMessage)
    else if name != "" && Contains(Lower(password), Lower(name)) then Some(NameMessage)
    else if !HasCharIn(password, SpecialChars) then Some(NoSpecialMessage)
    else if !HasCharBetween(password, '0', '9') then Some(NoNumberMessage)
    else None
  }

  /** `validatePassword` throws the message of the first failing check and only that. */
  lemma ValidatePasswordReportsFirstFailure(password: string, name: string)
    ensures ValidatePassword(password, name).None?
        <==> forall s | s in Steps :: Passes(s, password, name)
    ensures FirstFailure(Steps, password, name).Some? ==>
      ValidatePassword(password, name)
        == Some(StepMessage(Steps[FirstFailure(Steps, password, name).value]))
  {
    var f := FirstFailure(Steps, password, name);
    assert Steps[0] == LengthStep && Steps[1] == NameStep;
    assert Steps[2] == SpecialStep && Steps[3] == NumberStep;
    if f.None? {
      assert Passes(Steps[0], password, name) && Passes(Steps[1], password, name);
      assert Passes(Steps[2], password, name) && Passes(Steps[3], password, name);
    } else if f.value == 0 {
      assert !Passes(LengthStep, password, name);
    } else if f.value == 1 {
      assert Passes(LengthStep, password, name) && !Passes(NameStep, password, name);
    } else if f.value == 2 {
      assert Passes(LengthStep, password, name) && Passes(NameStep, password, name);
      assert !Passes(SpecialStep, password, name);
    } else {
      assert Passes(LengthStep, password, name) && Passes(NameStep, password, name);
      assert Passes(SpecialStep, password, name) && !Passes(NumberStep, password, name);
    }
  }

  /** Every message `validatePassword` throws starts with "Password". */
  lemma ValidatePasswordMessagesMentionPassword(password: string, name: string)
    ensures ValidatePassword(password, name).Some? ==>
      PasswordWord <= ValidatePassword(password, name).value
  {
  }

  /** Without a name, a password the schema's validator accepts also passes `validatePassword`:
      the schema's rules include the controller's length, special-character and number checks. */
  lemma SchemaAcceptanceImpliesControllerAcceptance(password: string, ctx: NameContext)
    requires forall r | r in Rules :: Holds(r, password, ctx)
    ensures ValidatePassword(password, "").None?
  {
    assert Holds(LengthRule, password, ctx) && Holds(SpecialRule, password, ctx);
    assert Holds(NumberRule, password, ctx);
  }

  /** The controller's check is weaker than the schema's: "abcdefg1!" passes it. */
  lemma ControllerAcceptsLowercaseOnly()
    ensures ValidatePassword("abcdefg1!", "").None?
  {
    var p := "abcdefg1!";
    assert p[8] in SpecialChars;
    assert '0' <= p[7] <= '9';
  }

  /** ... but "abcdefg1!" has no uppercase letter, so the schema's validator rejects it
      whatever the document's name. */
  lemma SchemaRejectsLowercaseOnly(ctx: NameContext)
    ensures !Holds(UppercaseRule, "abcdefg1!", ctx)
    ensures !forall r | r in Rules :: Holds(r, "abcdefg1!", ctx)
  {
    assert UppercaseRule in Rules;
  }

  // ----- The hashing and token oracles -----

  /** bcrypt's `hash`/`compare` and jsonwebtoken's `sign`, left uninterpreted. */
  datatype Crypto = Crypto(hash: string -> string, compare: (string, string) -> bool,
                           sign: (string, UserId) -> string)

  /** The one property of bcrypt the model relies on: a password matches its own hash. */
  ghost predicate Sound(c: Crypto) {
    forall p :: c.compare(p, c.hash(p))
  }

  // ----- The user store -----

  /** The JSON reply of a handler: status, message, and the token and user of a session. */
  datatype AuthReply = AuthReply(status: nat, message: string, token: Option<string>,
                                 user: Option<PublicUser>)

  function Reply(status: nat, message: string): AuthReply {
    AuthReply(status, message, None, None)
  }

  /** The store after a handler and the reply it sends. */
  datatype Transition = Transition(users: seq<User>, reply: AuthReply)

  /** Ids are positions, every stored user has the required name and email, and emails are
      unique (the `unique` index of the email path). */
  predicate StoreInvariant(users: seq<User>) {
    (forall i | 0 <= i < |users| :: users[i].id == i && users[i].name != "" && users[i].email != "")
    && (forall i, j | 0 <= i < j < |users| :: users[i].email != users[j].email)
  }

  /** The fields of a registration request: the multipart body and the uploaded file name. */
  datatype RegisterBody = RegisterBody(name: Option<string>, email: string,
                                       password: Option<string>, file: Option<string>)

  /** The name `validatePassword` sees: its default parameter replaces a missing name by ''. */
  function NameArgument(name: Option<string>): string {
    if name.Some? then name.value else ""
  }

  /** The document `register` builds: a `null` profile picture when no file was uploaded. */
  function RegisterDocument(users: seq<User>, body: RegisterBody, c: Crypto): User
    requires body.password.Some?
  {
    var pic := if body.file.Some? then Given(body.file.value) else Null;
    NewUser(|users|, NameArgument(body.name), body.email, c.hash(body.password.value), pic)
  }

  /** `register`. A missing password makes `password.length` throw, which the catch turns into
      500 like every other failure after the email check. Once saved, the user stays stored
      even when signing the token fails because the secret is missing or empty. */
  function RegisterOutcome(users: seq<User>, body: RegisterBody, c: Crypto, secret: Option<string>)
    : (t: Transition)
    ensures t.users == users || (|t.users| == |users| + 1 && t.users[..|users|] == users)
  {
    if FindByEmail(users, NormalizeEmail(body.email)).Some? then
      Transition(users, Reply(400, "Email already in use"))
    else if body.password.None? || ValidatePassword(body.password.value, NameArgument(body.name)).Some? then
      Transition(users, Reply(500, "Server error"))
    else
      var doc := RegisterDocument(users, body, c);
      if !SaveAccepts(doc, true) then Transition(users, Reply(500, "Server error"))
      else if !Truthy(secret) then Transition(users + [doc], Reply(500, "Server error"))
      else Transition(users + [doc], AuthReply(201, "User registered successfully",
                                               Some(c.sign(secret.value, doc.id)), Some(Public(doc))))
  }

  /** `login`: a pure lookup and comparison; the email is normalised by the schema's setters.
      A missing or empty secret makes the handler throw, which its catch answers with 500. */
  function Login(users: seq<User>, email: Option<string>, password: Option<string>, c: Crypto,
                 secret: Option<string>): (reply: AuthReply)
    ensures reply.status in {200, 400, 401, 500}
  {
    if !Truthy(email) || !Truthy(password) then Reply(400, "Email and password are required")
    else match FindByEmail(users, NormalizeEmail(email.value))
      case None => Reply(401, "Invalid email or password")
      case Some(i) =>
        if !c.compare(password.value, users[i].password) then Reply(401, "Invalid email or password")
        else if !Truthy(secret) then Reply(500, "Server error during login")
        else AuthReply(200, "Login successful", Some(c.sign(secret.value, users[i].id)),
                       Some(Public(users[i])))
  }

  /** `getCurrentUser`: the stored user without the password, or 404. */
  function GetCurrentUser(users: seq<User>, userId: UserId): (reply: AuthReply)
    ensures reply.status == 200 <==> userId < |users|
    ensures reply.status == 200 ==> reply.user == Some(Public(users[userId]))
  {
    if userId < |users| then AuthReply(200, "", None, Some(Public(users[userId])))
    else Reply(404, "User not found")
  }

  /** The catch of `changePassword`: a message mentioning "Password" is passed on, any other
      becomes the generic one. */
  function CaughtMessage(m: string): string {
    if Contains(m, PasswordWord) then m else UpdateFailedMessage
  }

  /** A message that starts with "Password", possibly after a prefix, passes the catch. */
  lemma CatchPassesPasswordMessages(prefix: string, m: string)
    requires PasswordWord <= m
    ensures CaughtMessage(prefix + m) == prefix + m
  {
    ContainsAfterPrefix(prefix, m, PasswordWord);
  }

  /** An error whose message has no capital P, such as the missing-argument error of
      `bcrypt.compare`, becomes the generic message. */
  lemma CatchHidesForeignErrors(m: string)
    requires 'P' !in m
    ensures CaughtMessage(m) == UpdateFailedMessage
  {
    NotContainsAbsentChar(m, PasswordWord);
  }

  /** The missing-argument error of `bcrypt.compare` becomes the generic message. */
  lemma CompareErrorIsHidden()
    ensures CaughtMessage(CompareError) == UpdateFailedMessage
  {
    CatchHidesForeignErrors(CompareError);
  }

  /** The steps of `changePassword` on the user `findById` loads. `hashSelected` says whether
      that query selects the hash, which the password path hides by default. Without it, or
      without a current password, `bcrypt.compare` rejects with its missing-argument error. A
      missing new password makes `validatePassword` throw. The catch turns every thrown
      message into the reply, and the save validates the new hash. */
  function ChangePasswordHandler(users: seq<User>, userId: UserId, hashSelected: bool,
                                 current: Option<string>, newPassword: Option<string>, c: Crypto)
    : (t: Transition)
    ensures |t.users| == |users|
  {
    if userId >= |users| then Transition(users, Reply(404, "User not found"))
    else
      var u := users[userId];
      var loaded := if hashSelected then Some(u.password) else None;
      if current.None? || loaded.None? then Transition(users, Reply(400, CaughtMessage(CompareError)))
      else if !c.compare(current.value, loaded.value) then
        Transition(users, Reply(400, "Current password is incorrect"))
      else if newPassword.None? then Transition(users, Reply(400, UpdateFailedMessage))
      else if ValidatePassword(newPassword.value, u.name).Some? then
        Transition(users, Reply(400, CaughtMessage(ValidatePassword(newPassword.value, u.name).value)))
      else
        var updated := u.(password := c.hash(newPassword.value));
        match PasswordPathError(updated.password, NameContext(true, updated.name))
        case Some(m) => Transition(users, Reply(400, CaughtMessage("User validation failed: password: " + m)))
        case None => Transition(users[userId := updated], Reply(200, "Password updated successfully"))
  }

  /** `changePassword` corrected: the user is loaded with `select('+password')`, as `login`
      does. */
  function ChangePasswordOutcome(users: seq<User>, userId: UserId, current: Option<string>,
                                 newPassword: Option<string>, c: Crypto): (t: Transition)
    ensures |t.users| == |users|
  {
    ChangePasswordHandler(users, userId, true, current, newPassword, c)
  }

  /** `changePassword` as written: a plain `findById`, which leaves the hash unselected. */
  function ChangePasswordAsWritten(users: seq<User>, userId: UserId, current: Option<string>,
                                   newPassword: Option<string>, c: Crypto): Transition {
    ChangePasswordHandler(users, userId, false, current, newPassword, c)
  }

  class UserStore {
    var users: seq<User>

    ghost predicate Valid()
      reads this
    {
      StoreInvariant(users)
    }

    constructor ()
      ensures Valid() && users == []
    {
      users := [];
    }

    method Register(body: RegisterBody, c: Crypto, secret: Option<string>) returns (reply: AuthReply)
      requires Valid()
      modifies this
      ensures Transition(users, reply) == RegisterOutcome(old(users), body, c, secret)
      ensures Valid()
    {
      RegisterPreservesInvariant(users, body, c, secret);
      var existing := FindByEmail(users, NormalizeEmail(body.email));
      if existing.Some? {
        return Reply(400, "Email already in use");
      }
      if body.password.None? {
        return Reply(500, "Server error");
      }
      var password := body.password.value;
      var invalid := ValidatePassword(password, NameArgument(body.name));
      if invalid.Some? {
        return Reply(500, "Server error");
      }
      var hashed := c.hash(password);
      var pic := if body.file.Some? then Given(body.file.value) else Null;
      var doc := NewUser(|users|, NameArgument(body.name), body.email, hashed, pic);
      assert doc == RegisterDocument(old(users), body, c);
      var pathError := ValidatePasswordPath(doc.password, NameContext(true, doc.name));
      if doc.name == "" || doc.email == "" || pathError.Some? {
        return Reply(500, "Server error");
      }
      assert SaveAccepts(doc, true);
      users := users + [doc];
      if !Truthy(secret) {
        return Reply(500, "Server error");
      }
      reply := AuthReply(201, "User registered successfully", Some(c.sign(secret.value, doc.id)),
                         Some(Public(doc)));
    }

    method ChangePassword(userId: UserId, current: Option<string>, newPassword: Option<string>,
                          c: Crypto) returns (reply: AuthReply)
      requires Valid()
      modifies this
      ensures Transition(users, reply) == ChangePasswordOutcome(old(users), userId, current, newPassword, c)
      ensures Valid()
    {
      ChangePasswordKeepsInvariant(users, userId, current, newPassword, c);
      if userId >= |users| {
        return Reply(404, "User not found");
      }
      var user := users[userId];
      if current.None? {
        CompareErrorIsHidden();
        return Reply(400, CaughtMessage(CompareError));
      }
      var isMatch := c.compare(current.value, user.password);
      if !isMatch {
        return Reply(400, "Current password is incorrect");
      }
      if newPassword.None? {
        // Reading the length of the missing password throws a TypeError, whose message does not
        // mention "Password".
        return Reply(400, UpdateFailedMessage);
      }
      var invalid := ValidatePassword(newPassword.value, user.name);
      if invalid.Some? {
        return Reply(400, CaughtMessage(invalid.value));
      }
      user := user.(password := c.hash(newPassword.value));
      var pathError := ValidatePasswordPath(user.password, NameContext(true, user.name));
      if pathError.Some? {
        return Reply(400, CaughtMessage("User validation failed: password: " + pathError.value));
      }
      users := users[userId := user];
      reply := Reply(200, "Password updated successfully");
    }
  }

  // ----- Properties of registration -----

  /** An email already in use, in any spelling the setters normalise, is refused with 400 before
      the password is looked at, and nothing is stored. */
  lemma RegisterRefusesUsedEmail(users: seq<User>, body: RegisterBody, c: Crypto, secret: Option<string>)
    requires exists i | 0 <= i < |users| :: users[i].email == NormalizeEmail(body.email)
    ensures RegisterOutcome(users, body, c, secret) == Transition(users, Reply(400, "Email already in use"))
  {
    var i :| 0 <= i < |users| && users[i].email == NormalizeEmail(body.email);
    assert users[i].email == NormalizeEmail(body.email);
  }

  /** A password `validatePassword` rejects is reported as a server error, and nothing is stored. */
  lemma RegisterRejectsInvalidPassword(users: seq<User>, body: RegisterBody, c: Crypto,
                                       secret: Option<string>)
    requires FindByEmail(users, NormalizeEmail(body.email)).None?
    requires body.password.None? || ValidatePassword(body.password.value, NameArgument(body.name)).Some?
    ensures RegisterOutcome(users, body, c, secret) == Transition(users, Reply(500, "Server error"))
  {
  }

  /** The document registration builds stores the hash, never the cleartext, under the next id,
      with the normalised email and the trimmed name. */
  lemma RegisterDocumentFields(users: seq<User>, body: RegisterBody, c: Crypto)
    requires body.password.Some?
    ensures var doc := RegisterDocument(users, body, c);
            doc.id == |users| && doc.password == c.hash(body.password.value)
            && doc.email == NormalizeEmail(body.email) && doc.name == Trim(NameArgument(body.name))
  {
    TrimLowerCommute(body.email);
  }

  /** Registration stores a user only when the email is new, `validatePassword` accepts the
      password and the save validates, and then it appends exactly the built document. */
  lemma RegisterAppends(users: seq<User>, body: RegisterBody, c: Crypto, secret: Option<string>)
    requires RegisterOutcome(users, body, c, secret).users != users
    ensures FindByEmail(users, NormalizeEmail(body.email)).None?
    ensures body.password.Some? && ValidatePassword(body.password.value, NameArgument(body.name)).None?
    ensures SaveAccepts(RegisterDocument(users, body, c), true)
    ensures RegisterOutcome(users, body, c, secret).users == users + [RegisterDocument(users, body, c)]
  {
  }

  /** Whenever registration stores a user, the stored password is the hash of the supplied one. */
  lemma RegisterStoresHash(users: seq<User>, body: RegisterBody, c: Crypto, secret: Option<string>)
    requires RegisterOutcome(users, body, c, secret).users != users
    ensures body.password.Some?
    ensures var t := RegisterOutcome(users, body, c, secret);
            |t.users| == |users| + 1 && t.users[..|users|] == users
            && t.users[|users|].password == c.hash(body.password.value)
            && t.users[|users|].email == NormalizeEmail(body.email)
            && t.users[|users|].id == |users|
  {
    RegisterAppends(users, body, c, secret);
    RegisterDocumentFields(users, body, c);
  }

  /** A successful registration answers with a token for the new id and the new user without
      its password. */
  lemma RegisterSuccessReply(users: seq<User>, body: RegisterBody, c: Crypto, secret: Option<string>)
    requires RegisterOutcome(users, body, c, secret).reply.status == 201
    ensures var t := RegisterOutcome(users, body, c, secret);
            Truthy(secret) && |t.users| == |users| + 1
            && t.reply.token == Some(c.sign(secret.value, |users|))
            && t.reply.user == Some(Public(t.users[|users|]))
  {
    var t := RegisterOutcome(users, body, c, secret);
    if FindByEmail(users, NormalizeEmail(body.email)).None? && body.password.Some?
       && ValidatePassword(body.password.value, NameArgument(body.name)).None?
    {
      var doc := RegisterDocument(users, body, c);
      RegisterDocumentFields(users, body, c);
      if SaveAccepts(doc, true) && Truthy(secret) {
        assert t == Transition(users + [doc], AuthReply(201, "User registered successfully",
                                                        Some(c.sign(secret.value, doc.id)), Some(Public(doc))));
        assert (users + [doc])[|users|] == doc;
      }
    }
  }

  /** Registration keeps ids as positions, required fields present and emails unique. */
  lemma RegisterPreservesInvariant(users: seq<User>, body: RegisterBody, c: Crypto, secret: Option<string>)
    requires StoreInvariant(users)
    ensures StoreInvariant(RegisterOutcome(users, body, c, secret).users)
  {
    if RegisterOutcome(users, body, c, secret).users != users {
      RegisterAppends(users, body, c, secret);
      RegisterDocumentFields(users, body, c);
      AppendPreservesInvariant(users, RegisterDocument(users, body, c));
    }
  }

  /** Appending a valid document with a fresh normalised email under the next id keeps the
      store invariant. */
  lemma AppendPreservesInvariant(users: seq<User>, doc: User)
    requires StoreInvariant(users)
    requires doc.id == |users| && doc.name != "" && doc.email != ""
    requires FindByEmail(users, doc.email).None?
    ensures StoreInvariant(users + [doc])
  {
    var after := users + [doc];
    forall i | 0 <= i < |after|
      ensures after[i].id == i && after[i].name != "" && after[i].email != ""
    {
      if i < |users| { assert after[i] == users[i]; }
    }
    forall i, j | 0 <= i < j < |after| ensures after[i].email != after[j].email {
      assert after[i] == users[i];
      if j < |users| { assert after[j] == users[j]; }
    }
  }

  /** A user registered with a sound hash can log in with the same email and password. */
  lemma RegisterThenLogin(users: seq<User>, body: RegisterBody, c: Crypto, secret: Option<string>)
    requires StoreInvariant(users) && Sound(c)
    requires RegisterOutcome(users, body, c, secret).reply.status == 201
    ensures Login(RegisterOutcome(users, body, c, secret).users, Some(body.email), body.password, c, secret).status == 200
  {
    RegisterSucceeded(users, body, c, secret);
    RegisterDocumentFields(users, body, c);
    var doc := RegisterDocument(users, body, c);
    NormalizedEmailNonEmpty(body.email);
    FindAppended(users, doc, NormalizeEmail(body.email));
    var p := body.password.value;
    assert c.compare(p, c.hash(p));
    LoginOfStoredUser(users + [doc], |users|, body.email, p, c, secret);
  }

  /** What a 201 from registration implies about its inputs. */
  lemma RegisterSucceeded(users: seq<User>, body: RegisterBody, c: Crypto, secret: Option<string>)
    requires RegisterOutcome(users, body, c, secret).reply.status == 201
    ensures Truthy(secret) && body.password.Some? && Utf16Length(body.password.value) >= 8
    ensures FindByEmail(users, NormalizeEmail(body.email)).None?
    ensures SaveAccepts(RegisterDocument(users, body, c), true)
    ensures RegisterOutcome(users, body, c, secret).users == users + [RegisterDocument(users, body, c)]
  {
    RegisterSuccessReply(users, body, c, secret);
    RegisterAppends(users, body, c, secret);
  }

  /** Looking up the email of a document appended after users without that email finds it. */
  lemma FindAppended(users: seq<User>, doc: User, email: string)
    requires FindByEmail(users, email).None? && doc.email == email
    ensures FindByEmail(users + [doc], email) == Some(|users|)
  {
    var after := users + [doc];
    forall j | 0 <= j < |users| ensures after[j].email != email {
      assert after[j] == users[j];
    }
    assert after[|users|].email == email;
    var f := FindByEmail(after, email);
    assert f.Some?;
    assert f.value == |users|;
  }

  // ----- Properties of login -----

  /** A missing or empty email or password is refused with 400 before any lookup. */
  lemma LoginRequiresCredentials(users: seq<User>, email: Option<string>, password: Option<string>,
                                 c: Crypto, secret: Option<string>)
    ensures Login(users, email, password, c, secret).status == 400 <==> !Truthy(email) || !Truthy(password)
  {
  }

  /** An unknown email and a wrong password produce the same reply, so a caller cannot tell
      which one it got wrong. */
  lemma LoginHidesWhichCredentialFailed(users: seq<User>, email: string, password: string,
                                        c: Crypto, secret: Option<string>)
    requires email != "" && password != ""
    requires forall i | 0 <= i < |users| :: users[i].email == NormalizeEmail(email) ==>
               !c.compare(password, users[i].password)
    ensures Login(users, Some(email), Some(password), c, secret) == Reply(401, "Invalid email or password")
  {
    var f := FindByEmail(users, NormalizeEmail(email));
    if f.Some? {
      assert users[f.value].email == NormalizeEmail(email);
    }
  }

  /** The right password for the stored user the normalised email finds logs in, with a token
      for that user's id and the user without its password. */
  lemma LoginOfStoredUser(users: seq<User>, i: nat, email: string, password: string, c: Crypto,
                          secret: Option<string>)
    requires FindByEmail(users, NormalizeEmail(email)) == Some(i)
    requires email != "" && password != "" && Truthy(secret)
    requires c.compare(password, users[i].password)
    ensures Login(users, Some(email), Some(password), c, secret)
         == AuthReply(200, "Login successful", Some(c.sign(secret.value, users[i].id)), Some(Public(users[i])))
  {
  }

  /** A successful login names a stored user with the normalised email whose hash matches the
      password, and returns that user without its password together with a token for its id. */
  lemma LoginSuccess(users: seq<User>, email: Option<string>, password: Option<string>,
                     c: Crypto, secret: Option<string>)
    requires Login(users, email, password, c, secret).status == 200
    ensures email.Some? && password.Some? && Truthy(secret)
    ensures exists i | 0 <= i < |users| ::
      users[i].email == NormalizeEmail(email.value) && c.compare(password.value, users[i].password)
      && Login(users, email, password, c, secret)
         == AuthReply(200, "Login successful", Some(c.sign(secret.value, users[i].id)), Some(Public(users[i])))
  {
    var i := FindByEmail(users, NormalizeEmail(email.value)).value;
    assert users[i].email == NormalizeEmail(email.value);
  }

  // ----- Properties of the password change -----

  /** A wrong current password is refused with 400 and the stored hash stays as it was. */
  lemma ChangePasswordWrongCurrent(users: seq<User>, userId: UserId, current: string,
                                   newPassword: Option<string>, c: Crypto)
    requires userId < |users| && !c.compare(current, users[userId].password)
    ensures ChangePasswordOutcome(users, userId, Some(current), newPassword, c)
         == Transition(users, Reply(400, "Current password is incorrect"))
  {
  }

  /** A new password `validatePassword` rejects is refused with 400 and that check's own
      message, and nothing changes. */
  lemma ChangePasswordInvalidNew(users: seq<User>, userId: UserId, current: string,
                                 newPassword: string, c: Crypto)
    requires userId < |users| && c.compare(current, users[userId].password)
    requires ValidatePassword(newPassword, users[userId].name).Some?
    ensures ChangePasswordOutcome(users, userId, Some(current), Some(newPassword), c)
         == Transition(users, Reply(400, ValidatePassword(newPassword, users[userId].name).value))
  {
    ValidatePasswordMessagesMentionPassword(newPassword, users[userId].name);
    CatchPassesPasswordMessages([], ValidatePassword(newPassword, users[userId].name).value);
    assert [] + ValidatePassword(newPassword, users[userId].name).value
        == ValidatePassword(newPassword, users[userId].name).value;
  }

  /** A new hash the schema rejects is refused with 400 and Mongoose's validation message. */
  lemma ChangePasswordSchemaRejects(users: seq<User>, userId: UserId, current: string,
                                    newPassword: string, c: Crypto)
    requires userId < |users| && c.compare(current, users[userId].password)
    requires ValidatePassword(newPassword, users[userId].name).None?
    requires PasswordPathError(c.hash(newPassword), NameContext(true, users[userId].name)).Some?
    ensures ChangePasswordOutcome(users, userId, Some(current), Some(newPassword), c)
         == Transition(users, Reply(400, "User validation failed: password: "
              + PasswordPathError(c.hash(newPassword), NameContext(true, users[userId].name)).value))
  {
    var m := PasswordPathError(c.hash(newPassword), NameContext(true, users[userId].name)).value;
    PasswordPathErrorMentionsPassword(c.hash(newPassword), NameContext(true, users[userId].name));
    CatchPassesPasswordMessages("User validation failed: password: ", m);
  }

  /** A successful change replaces exactly that user's stored hash by the hash of the new
      password; every other field and every other user is unchanged. */
  lemma ChangePasswordSuccess(users: seq<User>, userId: UserId, current: Option<string>,
                              newPassword: Option<string>, c: Crypto)
    requires ChangePasswordOutcome(users, userId, current, newPassword, c).reply.status == 200
    ensures userId < |users| && current.Some? && newPassword.Some?
    ensures c.compare(current.value, users[userId].password)
    ensures ValidatePassword(newPassword.value, users[userId].name).None?
    ensures ChangePasswordOutcome(users, userId, current, newPassword, c).users
         == users[userId := users[userId].(password := c.hash(newPassword.value))]
  {
  }

  /** Every refused change leaves the store unchanged. */
  lemma ChangePasswordFailureChangesNothing(users: seq<User>, userId: UserId, current: Option<string>,
                                            newPassword: Option<string>, c: Crypto)
    requires ChangePasswordOutcome(users, userId, current, newPassword, c).reply.status != 200
    ensures ChangePasswordOutcome(users, userId, current, newPassword, c).users == users
  {
  }

  /** Replacing a stored user's hash keeps the store invariant. */
  lemma ReplaceHashPreservesInvariant(users: seq<User>, i: nat, hash: string)
    requires StoreInvariant(users) && i < |users|
    ensures StoreInvariant(users[i := users[i].(password := hash)])
  {
  }

  /** Every password change, refused or not, keeps the store invariant. */
  lemma ChangePasswordKeepsInvariant(users: seq<User>, userId: UserId, current: Option<string>,
                                     newPassword: Option<string>, c: Crypto)
    requires StoreInvariant(users)
    ensures StoreInvariant(ChangePasswordOutcome(users, userId, current, newPassword, c).users)
  {
    if ChangePasswordOutcome(users, userId, current, newPassword, c).reply.status == 200 {
      ChangePasswordSuccess(users, userId, current, newPassword, c);
      ReplaceHashPreservesInvariant(users, userId, c.hash(newPassword.value));
    } else {
      ChangePasswordFailureChangesNothing(users, userId, current, newPassword, c);
    }
  }

  /** In a store satisfying the invariant, the stored email of user `i` finds user `i`. */
  lemma FindStoredEmail(users: seq<User>, i: nat)
    requires StoreInvariant(users) && i < |users|
    ensures FindByEmail(users, users[i].email) == Some(i)
  {
    var f := FindByEmail(users, users[i].email);
    assert f.Some?;
    EmailIdentifiesUser(users, f.value, i);
  }

  /** In a store satisfying the invariant, two positions with the same email are one. */
  lemma EmailIdentifiesUser(users: seq<User>, a: nat, b: nat)
    requires StoreInvariant(users) && a < |users| && b < |users|
    requires users[a].email == users[b].email
    ensures a == b
  {
  }

  /** The password change keeps the store invariant, and with a sound hash the new password
      logs in afterwards under any spelling of the stored email. */
  lemma ChangePasswordThenLogin(users: seq<User>, userId: UserId, current: Option<string>,
                                newPassword: Option<string>, c: Crypto, secret: Option<string>,
                                email: string)
    requires StoreInvariant(users) && Sound(c)
    requires Truthy(secret) && userId < |users| && NormalizeEmail(email) == users[userId].email
    requires ChangePasswordOutcome(users, userId, current, newPassword, c).reply.status == 200
    ensures StoreInvariant(ChangePasswordOutcome(users, userId, current, newPassword, c).users)
    ensures Login(ChangePasswordOutcome(users, userId, current, newPassword, c).users,
                  Some(email), newPassword, c, secret).status == 200
  {
    ChangePasswordSuccess(users, userId, current, newPassword, c);
    var p := newPassword.value;
    var after := users[userId := users[userId].(password := c.hash(p))];
    ReplaceHashPreservesInvariant(users, userId, c.hash(p));
    FindStoredEmail(after, userId);
    assert Utf16Length(p) >= 8 by { assert ValidatePassword(p, users[userId].name).None?; }
    assert c.compare(p, c.hash(p));
    NormalizedEmailNonEmpty(email);
    LoginOfStoredUser(after, userId, email, p, c, secret);
  }

  /** `changePassword` as written never succeeds: an existing user always gets 400 "Error
      updating password" and the store never changes. */
  lemma ChangePasswordAsWrittenNeverSucceeds(users: seq<User>, userId: UserId, current: Option<string>,
                                             newPassword: Option<string>, c: Crypto)
    ensures ChangePasswordAsWritten(users, userId, current, newPassword, c).users == users
    ensures userId < |users| ==>
      ChangePasswordAsWritten(users, userId, current, newPassword, c).reply
        == Reply(400, UpdateFailedMessage)
    ensures ChangePasswordAsWritten(users, userId, current, newPassword, c).reply.status != 200
  {
    CompareErrorIsHidden();
  }
}
