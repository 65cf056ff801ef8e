/**
  The two POST handlers of public/js_scripts/login_signup_validaiton.js as
  functions from (store, request) to (response, store). A response names the
  page the handler renders and the data it passes to it.
 */
module Handlers {
  import opened Wrappers
  import opened JsString
  import opened Hashing
  import opened UserStore
  import opened Validation

  /** The form fields of `POST /signup`, before normalisation. */
  datatype SignupRequest = SignupRequest(username: BodyValue, email: BodyValue, password: BodyValue, repeatPassword: BodyValue)

  /** The form fields of `POST /login`, before normalisation. */
  datatype LoginRequest = LoginRequest(email: BodyValue, password: BodyValue)

  datatype SignupResponse =
      /** `res.render("signup", ...)` with the errors and every field echoed back. */
    | SignupPage(errors: seq<string>, username: string, email: string, password: string, repeatPassword: string)
      /** `res.render("UserPage", {username})` after the new user was stored. */
    | SignupUserPage(username: string)
      /** The insert statement threw (a UNIQUE column already holds the value); the handler does not catch it. */
    | InsertFailed

  datatype LoginResponse =
      /** `res.render("login", {errors, email})`. */
    | LoginPage(errors: seq<string>, email: string)
      /** `res.render("UserPage", {username})` with the found user's name. */
    | LoginUserPage(username: string)

  /** The normalised signup fields, in form order. */
  function SignupFields(req: SignupRequest): (string, string, string, string)
  {
    (AsString(req.username), AsString(req.email), AsString(req.password), AsString(req.repeatPassword))
  }

  /** `POST /signup`: validate; on errors re-render the form, otherwise hash the password and insert the user. */
  function Signup(st: Store, req: SignupRequest, h: Hasher, salt: string): (SignupResponse, Store)
  {
    var (username, email, password, repeatPassword) := SignupFields(req);
    var errs := SignupErrors(username, email, password, repeatPassword);
    if errs != [] then
      (SignupPage(Texts(errs), username, email, password, repeatPassword), st)
    else
      match Insert(st, username, email, h.hash(password, salt))
      case None => (InsertFailed, st)
      case Some(st') => (SignupUserPage(username), st')
  }

  /** `POST /login`: one lookup by email, then validate against the record found. The store is only read. */
  function Login(st: Store, req: LoginRequest, h: Hasher): LoginResponse
  {
    var email, password := AsString(req.email), AsString(req.password);
    var user := FindByEmail(st, email);
    var errs := LoginErrors(email, password, user, h);
    if errs != [] then LoginPage(Texts(errs), email)
    else LoginUserPage(user.value.username)
  }

  // ---------------------------------------------------------------- signup

  /**
    A signup that breaks any rule re-renders the form with the errors and all
    four fields echoed (passwords included), and leaves the store alone.
   */
  lemma SignupRejected(st: Store, req: SignupRequest, h: Hasher, salt: string)
    ensures var (username, email, password, repeatPassword) := SignupFields(req);
      var (resp, st') := Signup(st, req, h, salt);
      && (resp.SignupPage? <==> !SignupAcceptable(username, email, password, repeatPassword))
      && (resp.SignupPage? ==>
            && st' == st
            && resp.errors != []
            && resp.errors == Texts(SignupErrors(username, email, password, repeatPassword))
            && resp.username == username && resp.email == email
            && resp.password == password && resp.repeatPassword == repeatPassword)
  {
    var (username, email, password, repeatPassword) := SignupFields(req);
    SignupAcceptsExactly(username, email, password, repeatPassword);
  }

  /**
    The store changes only when every rule holds and neither the username nor
    the email is already stored; then exactly one record is appended, holding
    the username, the email and the hash of the password.
   */
  lemma SignupStoreEffect(st: Store, req: SignupRequest, h: Hasher, salt: string)
    ensures var (username, email, password, repeatPassword) := SignupFields(req);
      var (resp, st') := Signup(st, req, h, salt);
      var ok := SignupAcceptable(username, email, password, repeatPassword);
      && (ok && !Taken(st, username, email) ==>
            && resp == SignupUserPage(username)
            && st'.users == st.users + [UserRecord(st.nextId, username, email, h.hash(password, salt))]
            && st'.nextId == st.nextId + 1)
      && (ok && Taken(st, username, email) ==> resp == InsertFailed && st' == st)
      && (!(ok && !Taken(st, username, email)) ==> st' == st)
  {
    var (username, email, password, repeatPassword) := SignupFields(req);
    SignupAcceptsExactly(username, email, password, repeatPassword);
  }

  /** A signup keeps the table's constraints. */
  lemma SignupPreservesValid(st: Store, req: SignupRequest, h: Hasher, salt: string)
    requires Valid(st)
    ensures Valid(Signup(st, req, h, salt).1)
  {
    var (username, email, password, repeatPassword) := SignupFields(req);
    if SignupErrors(username, email, password, repeatPassword) == [] {
      var ins := Insert(st, username, email, h.hash(password, salt));
      if ins.Some? {
        InsertPreservesValid(st, username, email, h.hash(password, salt));
      }
    }
  }

  /** A field that is not a string is reported as missing. */
  lemma NonTextSignupFieldsAreMissing(st: Store, req: SignupRequest, h: Hasher, salt: string)
    requires req.username.NonString? || req.email.NonString? || req.password.NonString? || req.repeatPassword.NonString?
    ensures var resp := Signup(st, req, h, salt).0;
      && resp.SignupPage?
      && (req.username.NonString? ==> Text(UsernameRequired) in resp.errors)
      && (req.email.NonString? ==> Text(EmailRequired) in resp.errors)
      && (req.password.NonString? ==> Text(PasswordWeak) in resp.errors)
      && (req.repeatPassword.NonString? ==> Text(RepeatMismatch) in resp.errors)
  {
    var (username, email, password, repeatPassword) := SignupFields(req);
    var errs := SignupErrors(username, email, password, repeatPassword);
    SignupErrorsContent(username, email, password, repeatPassword);
    if req.username.NonString? {
      InTexts(errs, UsernameRequired);
    }
    if req.email.NonString? {
      InTexts(errs, EmailRequired);
    }
    if req.password.NonString? {
      assert Length(password) == 0;
      InTexts(errs, PasswordWeak);
    }
    if req.repeatPassword.NonString? {
      InTexts(errs, RepeatMismatch);
    }
  }

  /**
    Once a signup has stored a user, a later signup with the same username or
    the same email cannot store another one: it ends in the form or in the
    failed insert, and the store stays as it was.
   */
  lemma NoDuplicateRegistration(st: Store, first: SignupRequest, second: SignupRequest, h: Hasher, salt1: string, salt2: string)
    requires Signup(st, first, h, salt1).0.SignupUserPage?
    requires AsString(second.username) == AsString(first.username) || AsString(second.email) == AsString(first.email)
    ensures var st1 := Signup(st, first, h, salt1).1;
      && !Signup(st1, second, h, salt2).0.SignupUserPage?
      && Signup(st1, second, h, salt2).1 == st1
  {
    var (username, email, password, _) := SignupFields(first);
    var st1 := Signup(st, first, h, salt1).1;
    var last := |st1.users| - 1;
    assert st1.users[last] == UserRecord(st.nextId, username, email, h.hash(password, salt1));
    assert Taken(st1, AsString(second.username), AsString(second.email));
  }

  // ---------------------------------------------------------------- login

  /**
    Login succeeds exactly when the email and password are given, a record
    holds that email and the password verifies against its stored hash; it
    then shows that record's username. Otherwise the form comes back with the
    errors and the email.
   */
  lemma LoginOutcome(st: Store, req: LoginRequest, h: Hasher)
    ensures var email, password := AsString(req.email), AsString(req.password);
      var user := FindByEmail(st, email);
      var resp := Login(st, req, h);
      && (resp.LoginUserPage? <==> email != [] && password != [] && user.Some? && h.verify(password, user.value.password))
      && (resp.LoginUserPage? ==> resp.username == user.value.username)
      && (resp.LoginPage? ==> resp.email == email && resp.errors == Texts(LoginErrors(email, password, user, h)) && resp.errors != [])
  {
    var email, password := AsString(req.email), AsString(req.password);
    LoginAcceptsExactly(email, password, FindByEmail(st, email), h);
  }

  /** An email no record holds, with a password given, draws exactly the "does not exist" message. */
  lemma LoginUnknownEmail(st: Store, req: LoginRequest, h: Hasher)
    requires req.email.Str? && req.email.text != [] && req.password.Str? && req.password.text != []
    requires forall i :: 0 <= i < |st.users| ==> st.users[i].email != req.email.text
    ensures Login(st, req, h) == LoginPage([Text(EmailUnknown)], req.email.text)
  {
    UnknownEmailSingleError(req.email.text, req.password.text, h);
  }

  /** A field that is not a string is reported as missing. */
  lemma NonTextLoginFieldsAreMissing(st: Store, req: LoginRequest, h: Hasher)
    requires req.email.NonString? || req.password.NonString?
    ensures var resp := Login(st, req, h);
      && resp.LoginPage?
      && (req.email.NonString? ==> |resp.errors| >= 1 && resp.errors[0] == Text(EmailRequired))
      && (req.password.NonString? ==> resp.errors[|resp.errors| - 1] == Text(PasswordRequired))
  {
  }

  /** A registered user, stored with the hash of their password, can log in with it. */
  lemma RegisteredUserLogsIn(st: Store, i: nat, password: string, salt: string, h: Hasher)
    requires Valid(st) && Sound(h)
    requires i < |st.users| && st.users[i].email != [] && password != []
    requires st.users[i].password == h.hash(password, salt)
    ensures Login(st, LoginRequest(Str(st.users[i].email), Str(password)), h) == LoginUserPage(st.users[i].username)
  {
    FindByEmailUnique(st, st.users[i].email, i);
  }

  /** Right after a successful signup, logging in with the same email and password shows the new username. */
  lemma SignupThenLogin(st: Store, req: SignupRequest, h: Hasher, salt: string)
    requires Sound(h)
    requires Signup(st, req, h, salt).0.SignupUserPage?
    ensures Login(Signup(st, req, h, salt).1, LoginRequest(req.email, req.password), h) == LoginUserPage(AsString(req.username))
  {
    var (username, email, password, repeatPassword) := SignupFields(req);
    FindAfterInsert(st, username, email, h.hash(password, salt), email);
  }
}
