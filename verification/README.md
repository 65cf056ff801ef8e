# Signup and login validation, modelled in Dafny

This project models the request-handling core of a small Express/SQLite
authentication application: the `POST /signup` and `POST /login` handlers in
`public/js_scripts/login_signup_validaiton.js`. Both handlers are lifted into
pure functions over an in-memory user table.

- **Signup** reads four form fields: username, email, password and
  repeat_password. It collects an ordered list of error messages. If the list
  is non-empty, it re-renders the signup form with the errors and all four
  fields echoed back. Otherwise it hashes the password with bcrypt, inserts one
  row into `users` and renders the user page.
- **Login** reads an email and a password and looks up one user by email. It
  collects at most two error messages. On success it renders the user page
  with the found user's username.

## Modules

- `JsString` (js_string.dfy): JavaScript strings. `CodeUnits` gives a string's
  UTF-16 code units and `Length` is JavaScript's `.length`. A character outside
  the Basic Multilingual Plane counts twice, as it does in the handlers.
  `FromCodeUnits` decodes the code units back, so nothing is lost. `BodyValue`
  and `AsString` model the `typeof x === "string" ? x : ""` normalisation of
  the request-body fields.
- `Patterns` (patterns.dfy): the two regular expressions. Each is written out
  over code units, the way JavaScript matches a pattern with no flags. Then it
  is characterised over characters. `/^[a-zA-Z0-9]+$/` accepts exactly the
  non-empty ASCII-alphanumeric strings.
  `/^(?=.*[A-Z])(?=.*[0-9])(?=.*[^A-Za-z0-9]).{5,}$/` accepts exactly the
  strings that meet all of these:
  - at least five code units;
  - an ASCII upper-case letter, an ASCII digit and a non-alphanumeric character;
  - no line terminator (`\n`, `\r`, U+2028, U+2029), because `.` does not match
    one without the `s` flag.
- `Hashing` (hashing.dfy): bcrypt as an abstract `Hasher`, a pair of functions
  `hash(plain, salt)` and `verify(plain, stored)`. The only property ever
  assumed is `Sound`: `verify(p, hash(p, s))` holds for every password and
  salt. It appears as a `requires` on the lemmas that need it.
- `UserStore` (user_store.dfy): the `users` table as a sequence of rows plus
  the AUTOINCREMENT counter. It has two operations. `Insert` fails when the
  UNIQUE username or email column already holds the value. `FindByEmail`
  returns the first row with that email. `Valid` states the table's
  constraints.
- `Validation` (validation.dfy): the field rules. `Message` has one constructor
  per message the handlers push. `Text` gives each message's exact text, and
  `TextInjective` proves that different messages have different texts.
  `SignupErrors` and `LoginErrors` build the error lists in the handlers' push
  order. Each list is related to a plain statement of the rules.
- `Handlers` (handlers.dfy): `Signup` and `Login`, the whole handlers. They take
  the store, the raw request, the hasher and, for signup, the salt. `Signup`
  returns the response and the new store. `Login` returns only a response, so
  it cannot change the store.

The model follows the handlers as written:
- Login messages are "Email do not exist" and "Incorrect password".
- Signup echoes both password fields back to the form.
- A duplicate username or email is not turned into an "already taken" message.
  The insert statement throws, the handler does not catch it, and the model's
  `InsertFailed` response leaves the store as it was.

The password message says "more than 5 characters". The rule behind it
accepts exactly five: `Validation.FiveCharacterPasswordAccepted` proves that
`Abc1!` passes.

## Model

| member | source | states |
|---|---|---|
| JsString.CodeUnits | public/js_scripts/login_signup_validaiton.js:22 | A string's UTF-16 code units, the view that `.length` and both `match` calls read: one unit per Basic Multilingual Plane character and two for any other, so between the number of characters and twice that; `JsString.CodeUnitsRoundTrip` proves nothing is lost |
| JsString.CodeUnitsRoundTrip | public/js_scripts/login_signup_validaiton.js:22 | The UTF-16 code-unit view that `.length` and the regular expressions work on loses no information: decoding it gives the string back |
| JsString.Length | public/js_scripts/login_signup_validaiton.js:22 | JavaScript's `.length` counts UTF-16 code units: it lies between the number of characters and twice that, is 0 exactly for the empty string, and equals the number of characters when all are in the Basic Multilingual Plane; its meaning for the username rule is stated by `Validation.UsernameRule` and `Validation.UsernameLengthInCodeUnits` |
| JsString.CodeUnitsInjective | public/js_scripts/login_signup_validaiton.js:35 | Two strings have the same code units exactly when they are the same string, so JavaScript's `!=` on code units and the model's comparison of characters agree |
| JsString.AsString | public/js_scripts/login_signup_validaiton.js:9-12 | The `typeof … === "string" ? … : ""` normalisation: the result is empty exactly when the field is not a string or is the empty string; `Handlers.NonTextSignupFieldsAreMissing` and `Handlers.NonTextLoginFieldsAreMissing` state its effect on the messages |
| Patterns.UsernamePatternMeaning | public/js_scripts/login_signup_validaiton.js:24 | `/^[a-zA-Z0-9]+$/`, matched on code units, accepts a string exactly when it is non-empty and every character is an ASCII letter or digit |
| Patterns.UsernamePatternMatches | public/js_scripts/login_signup_validaiton.js:24 | `/^[a-zA-Z0-9]+$/` read over code units; `Patterns.UsernamePatternMeaning` proves what it accepts |
| Patterns.PasswordPatternMeaning | public/js_scripts/login_signup_validaiton.js:32 | The password pattern, with its three `(?=.*…)` lookaheads matched on code units, accepts exactly the strings of at least 5 code units that have an upper-case letter, a digit and a non-alphanumeric character and no line terminator |
| Patterns.PasswordPatternMatches | public/js_scripts/login_signup_validaiton.js:32 | The password pattern's three lookaheads and `.{5,}$` read over code units; `Patterns.PasswordPatternMeaning` proves what it accepts |
| Validation.Text | public/js_scripts/login_signup_validaiton.js:21-100 | The exact text of each message the handlers push; `Validation.TextInjective` proves the nine texts distinct |
| Validation.TextInjective | public/js_scripts/login_signup_validaiton.js:21-100 | The nine message texts are pairwise different, so a list of texts determines the list of messages |
| Validation.UsernameError | public/js_scripts/login_signup_validaiton.js:20-26 | The username's `if / else if` chain; `Validation.UsernameRule` states which message it gives for which username |
| Validation.PasswordRejected | public/js_scripts/login_signup_validaiton.js:32 | The three-way password test; `Validation.PasswordRule` proves it is the negation of the plain strength rule |
| Validation.SignupErrors | public/js_scripts/login_signup_validaiton.js:20-37 | The signup error list in push order; `Validation.SignupErrorsContent`, `Validation.SignupErrorsOrder` and `Validation.SignupAcceptsExactly` state its content, order and emptiness |
| Validation.UsernameRule | public/js_scripts/login_signup_validaiton.js:20-26 | The username yields at most one message: "required" exactly when it is empty; the length message exactly when it is non-empty with a JavaScript length outside 4..10; the character message exactly when the length fits but a character is not ASCII alphanumeric; none exactly when it has 4..10 ASCII letters or digits |
| Validation.PasswordRule | public/js_scripts/login_signup_validaiton.js:32-34 | The password message is pushed exactly when the password is not strong: at least 5 code units, with upper-case, digit and special character, and no line terminator |
| Validation.SignupErrorsContent | public/js_scripts/login_signup_validaiton.js:20-37 | Each signup message is in the list exactly when its field breaks its rule; the mismatch message appears exactly when repeat_password is empty or differs from password |
| Validation.SignupErrorsOrder | public/js_scripts/login_signup_validaiton.js:20-37 | The signup list has at most 4 messages, at most one per field, in the order username, email, password, repeat_password |
| Validation.SignupAcceptsExactly | public/js_scripts/login_signup_validaiton.js:20-39 | Signup reports no error exactly when the username has 4..10 ASCII letters or digits, the email is non-empty, the password is strong, and repeat_password is non-empty and equal to the password |
| Validation.ShortPasswordRejected | public/js_scripts/login_signup_validaiton.js:32-34 | A password of at most 4 code units always draws the password message, whatever the other fields hold |
| Validation.EmptyRepeatRejected | public/js_scripts/login_signup_validaiton.js:35-37 | An empty repeat_password always draws the mismatch message, even when the password is empty too |
| Validation.RepeatRule | public/js_scripts/login_signup_validaiton.js:35-37 | The mismatch message appears exactly when repeat_password is empty or its code units differ from the password's, as JavaScript's `!=` decides |
| Validation.LengthCheckedBeforeCharset | public/js_scripts/login_signup_validaiton.js:22-25 | The length check runs before the character check: the username `a_b` draws only the length message |
| Validation.UsernameLengthInCodeUnits | public/js_scripts/login_signup_validaiton.js:22-25 | A three-character name ending in U+1F600 has JavaScript length 4, so it passes the length check and draws the character message |
| Validation.FiveCharacterPasswordAccepted | public/js_scripts/login_signup_validaiton.js:32-33 | The five-character password `Abc1!` draws no password message, although the message text asks for "more than 5 characters" |
| Validation.LineTerminatorRejected | public/js_scripts/login_signup_validaiton.js:32 | A password that holds a line terminator anywhere is always rejected |
| Validation.WeakAndMismatchTogether | public/js_scripts/login_signup_validaiton.js:32-37 | The password message and the mismatch message can both appear in one call, in that order |
| Validation.LoginErrorsContent | public/js_scripts/login_signup_validaiton.js:88-101 | Login reports at most 2 messages, the email message first. "email is required" appears exactly when the email is empty. "Email do not exist" appears exactly when the email is given and no record was found. "Password is required" appears exactly when the password is empty. "Incorrect password" appears exactly when the password is given, a record was found and verify fails |
| Validation.UnknownEmailSingleError | public/js_scripts/login_signup_validaiton.js:88-101 | An unknown email with a non-empty password draws exactly one message, "Email do not exist" |
| Validation.LoginAcceptsExactly | public/js_scripts/login_signup_validaiton.js:88-103 | Login reports no error exactly when email and password are non-empty, a record was found and the password verifies against its stored hash |
| Validation.LoginErrors | public/js_scripts/login_signup_validaiton.js:88-101 | The login error list in push order; `Validation.LoginErrorsContent` and `Validation.LoginAcceptsExactly` state its content, order and emptiness |
| UserStore.FindFirst | public/js_scripts/login_signup_validaiton.js:78-85 | The lookup finds nothing exactly when no row has the email; otherwise it returns a row with that email, and no earlier row has it |
| UserStore.FindByEmail | public/js_scripts/login_signup_validaiton.js:78-85 | The lookup by email returns a stored row with that email, or nothing exactly when no row has it |
| UserStore.Insert | public/js_scripts/login_signup_validaiton.js:52-53 | The insert fails exactly when the username or email is already stored; otherwise it keeps every old row and appends one row with the next id and the given values |
| UserStore.EmptyIsValid | server.js:9-16 | The freshly created table meets its constraints |
| UserStore.InsertPreservesValid | server.js:11-15 | A successful insert keeps ids below the counter and distinct, usernames distinct and emails distinct |
| UserStore.FindAfterInsert | public/js_scripts/login_signup_validaiton.js:52-53 | After an insert, a lookup of its email finds the new row, and a lookup of any other email finds what it found before |
| UserStore.FindByEmailUnique | server.js:14 | In a valid table, the lookup of a stored email returns the one row holding it |
| Handlers.SignupRejected | public/js_scripts/login_signup_validaiton.js:39-47 | Signup re-renders the form exactly when some rule fails. It then returns the errors and echoes all four fields, passwords included, and leaves the store unchanged |
| Handlers.SignupStoreEffect | public/js_scripts/login_signup_validaiton.js:39-58 | The store changes only when every rule holds and the username and email are new. Then exactly one record is added, with the username, the email and the hash of the password rather than the plaintext, and the user page shows the username. A duplicate leaves the store unchanged |
| Handlers.SignupPreservesValid | public/js_scripts/login_signup_validaiton.js:48-53 | Every signup keeps the table's constraints |
| Handlers.NoDuplicateRegistration | public/js_scripts/login_signup_validaiton.js:52-53 | After a signup stores a user, a later signup with the same username or email stores nothing and does not reach the user page |
| Handlers.NonTextSignupFieldsAreMissing | public/js_scripts/login_signup_validaiton.js:9-12 | A signup field that is not a string is reported as missing, through the message of its own field |
| Handlers.LoginOutcome | public/js_scripts/login_signup_validaiton.js:85-114 | Login shows the user page exactly when email and password are given, a record has that email and the password verifies against it. The page then shows that record's username. Otherwise the form comes back with the errors and the email |
| Handlers.LoginUnknownEmail | public/js_scripts/login_signup_validaiton.js:85-107 | With an email no record holds and a password given, login re-renders the form with exactly "Email do not exist" and the email |
| Handlers.NonTextLoginFieldsAreMissing | public/js_scripts/login_signup_validaiton.js:68-69 | A login field that is not a string is reported as missing: "email is required" first, or "Password is required" last |
| Handlers.RegisteredUserLogsIn | public/js_scripts/login_signup_validaiton.js:85-113 | In a valid table, a user stored with the hash of a password logs in with that email and password and sees their own username |
| Handlers.SignupThenLogin | public/js_scripts/login_signup_validaiton.js:48-113 | Right after a successful signup, logging in with the same email and password shows the new username |
| Handlers.Signup | public/js_scripts/login_signup_validaiton.js:4-59 | The whole signup handler; `Handlers.SignupRejected`, `Handlers.SignupStoreEffect` and `Handlers.SignupPreservesValid` state its response and its effect on the store |
| Handlers.Login | public/js_scripts/login_signup_validaiton.js:63-115 | The whole login handler, which only reads the store; `Handlers.LoginOutcome` states its response |
| Hashing.Sound | public/js_scripts/login_signup_validaiton.js:99 | The one property assumed of `hashSync` (line 50) and `compareSync` (line 99): a password verifies against its own hash for every salt; `Handlers.RegisteredUserLogsIn` and `Handlers.SignupThenLogin` rely on nothing else about bcrypt |

## Left out

- bcrypt's salt generation, cost factor 10 and hashing internals: `Hasher` is
  abstract and the salt is an input. Only `verify(p, hash(p, s))` is assumed.
  Nothing is assumed about other passwords verifying, and bcrypt's 72-byte
  truncation is one reason why.
- SQL text, prepared statements and the better-sqlite3 driver: replaced by the
  in-memory `Store`. Emails are compared by exact string equality. SQLite's
  numeric affinity for the `STRING` column type, which can store numeric-looking
  text as numbers, is not modelled.
- UserStore.FindByEmail: returns the first matching row in insertion order.
  SQLite's `.get()` makes no order promise without ORDER BY. Under the UNIQUE
  email constraint there is at most one match (`UserStore.FindByEmailUnique`).
- The uncaught insert exception is the `InsertFailed` response. What Express then
  sends (its default error page) is not modelled.
- Signup inserts and hashes `req.body.username`, `req.body.email` and
  `req.body.password`, not the normalised copies. When validation passes, all
  fields are non-empty strings, so the two are equal. The model uses the
  normalised values.
- `console.log` of the fields, including plaintext passwords: side effects with
  no contract.
- Express routing, middleware, static files, the GET routes, `app.listen`, table
  creation and `reset_db` in server.js: plumbing. The table's constraints appear
  only as `UserStore.Valid` and the insert's failure case.
- Concurrency: each handler call is one atomic step on the store. Two signups
  racing for the same username become two calls in sequence, and the second one
  ends in `InsertFailed`.
- sqllite.py, public/js_scripts/homepage.js and public/js_scripts/userPage.js: an
  ad-hoc query script and browser-side page code.
