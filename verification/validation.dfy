/**
  The field rules of the signup and login handlers
  (public/js_scripts/login_signup_validaiton.js), lifted out of the request
  handlers: each takes the normalised field values and returns the error
  messages in the order the handler pushes them.
 */
module Validation {
  import opened Wrappers
  import opened JsString
  import opened Patterns
  import opened Hashing
  import opened UserStore

  /** The messages the handlers push, one constructor per message. */
  datatype Message =
    | UsernameRequired | UsernameLength | UsernameCharset
    | EmailRequired | PasswordWeak | RepeatMismatch
    | EmailUnknown | PasswordRequired | PasswordIncorrect

  /**
    The exact text the page shows for each message. The password message is
    one string, written in three pieces to keep each literal short.
   */
  function Text(m: Message): string
  {
    match m
    case UsernameRequired => "Username is required"
    case UsernameLength => "Username must have characters between 4-10"
    case UsernameCharset => "Username can only contain letters and numbers"
    case EmailRequired => "email is required"
    case PasswordWeak => "Password must be more than 5 characters long" + " and must contain uppercase(S), number(s)" + " and a special character"
    case RepeatMismatch => "Repeat password do not match or is missing"
    case EmailUnknown => "Email do not exist"
    case PasswordRequired => "Password is required"
    case PasswordIncorrect => "Incorrect password"
  }

  /** The texts of a list of messages. */
  function Texts(ms: seq<Message>): (r: seq<string>)
    ensures |r| == |ms|
    ensures forall i :: 0 <= i < |ms| ==> r[i] == Text(ms[i])
  {
    if ms == [] then [] else [Text(ms[0])] + Texts(ms[1..])
  }

  /** A message in a list shows its text in the rendered list. */
  lemma InTexts(ms: seq<Message>, m: Message)
    requires m in ms
    ensures Text(m) in Texts(ms)
  {
    var i :| 0 <= i < |ms| && ms[i] == m;
    assert Texts(ms)[i] == Text(m);
  }

  // ---------------------------------------------------------------- signup

  /** The username check: a three-way `if / else if` yielding at most one message. */
  function UsernameError(username: string): Option<Message>
  {
    if username == [] then Some(UsernameRequired)
    else if Length(username) <= 3 || Length(username) > 10 then Some(UsernameLength)
    else if !UsernamePatternMatches(CodeUnits(username)) then Some(UsernameCharset)
    else None
  }

  /** The password check: empty, at most four code units, or not matching the pattern. */
  predicate PasswordRejected(password: string)
  {
    password == [] || Length(password) <= 4 || !PasswordPatternMatches(CodeUnits(password))
  }

  /** The messages of one field, at most one of them. */
  function UsernamePart(username: string): seq<Message> { ToSeq(UsernameError(username)) }
  function EmailPart(email: string): seq<Message> { if email == [] then [EmailRequired] else [] }
  function PasswordPart(password: string): seq<Message> { if PasswordRejected(password) then [PasswordWeak] else [] }
  function RepeatPart(password: string, repeatPassword: string): seq<Message>
  {
    if repeatPassword == [] || password != repeatPassword then [RepeatMismatch] else []
  }

  /** The signup handler's error list: each field's messages, in the handler's push order. */
  function SignupErrors(username: string, email: string, password: string, repeatPassword: string): seq<Message>
  {
    UsernamePart(username) + EmailPart(email) + PasswordPart(password) + RepeatPart(password, repeatPassword)
  }

  /** Every character is an ASCII letter or digit. */
  predicate AllAsciiAlnum(s: string)
  {
    forall i :: 0 <= i < |s| ==> IsAsciiAlnum(s[i])
  }

  /** The password rule in plain terms. */
  predicate StrongPassword(p: string)
  {
    && Length(p) >= 5
    && AnyChar(Upper, p) && AnyChar(Digit, p) && AnyChar(NotAlnum, p)
    && !AnyChar(LineTerminator, p)
  }

  /** The four signup rules together, in plain terms. */
  predicate SignupAcceptable(username: string, email: string, password: string, repeatPassword: string)
  {
    && 4 <= |username| <= 10 && AllAsciiAlnum(username)
    && email != []
    && StrongPassword(password)
    && repeatPassword != [] && repeatPassword == password
  }

  /** Which field a signup message belongs to, numbered in form order. */
  function SignupField(m: Message): nat
  {
    match m
    case UsernameRequired | UsernameLength | UsernameCharset => 0
    case EmailRequired => 1
    case PasswordWeak => 2
    case RepeatMismatch => 3
    case _ => 4
  }

  /**
    The length of each message's text. `TextLength`, `Initial` and
    `SharesLength` repeat two facts about each literal in `Text` so that
    `TextInjective` can compare lengths and first characters instead of whole
    texts: comparing the long literals directly costs the solver far more.
    `TextShape` proves the repeated facts agree with `Text`.
   */
  function TextLength(m: Message): nat
  {
    match m
    case UsernameRequired => 20
    case UsernameLength => 42
    case UsernameCharset => 45
    case EmailRequired => 17
    case PasswordWeak => 109
    case RepeatMismatch => 42
    case EmailUnknown => 18
    case PasswordRequired => 20
    case PasswordIncorrect => 18
  }

  /** The first character of each message's text. */
  function Initial(m: Message): char
  {
    match m
    case UsernameRequired | UsernameLength | UsernameCharset => 'U'
    case EmailRequired => 'e'
    case PasswordWeak | PasswordRequired => 'P'
    case RepeatMismatch => 'R'
    case EmailUnknown => 'E'
    case PasswordIncorrect => 'I'
  }

  /** Messages of equal text length start with different characters. */
  predicate SharesLength(m: Message)
  {
    m in {UsernameRequired, PasswordRequired, UsernameLength, RepeatMismatch, EmailUnknown, PasswordIncorrect}
  }

  lemma TextShape(m: Message)
    ensures |Text(m)| == TextLength(m)
    ensures SharesLength(m) ==> |Text(m)| > 0 && Text(m)[0] == Initial(m)
  {
    if m.UsernameRequired? || m.UsernameLength? || m.UsernameCharset? || m.EmailRequired? || m.PasswordWeak? {
      SignupTextShape(m);
    } else {
      OtherTextShape(m);
    }
  }

  lemma SignupTextShape(m: Message)
    requires m.UsernameRequired? || m.UsernameLength? || m.UsernameCharset? || m.EmailRequired? || m.PasswordWeak?
    ensures |Text(m)| == TextLength(m)
    ensures SharesLength(m) ==> |Text(m)| > 0 && Text(m)[0] == Initial(m)
  {
    match m
    case UsernameRequired => ShapeOf(Text(m), "Username is required");
    case UsernameLength => ShapeOf(Text(m), "Username must have characters between 4-10");
    case UsernameCharset => ShapeOf(Text(m), "Username can only contain letters and numbers");
    case EmailRequired => ShapeOf(Text(m), "email is required");
    case PasswordWeak => ShapeOf(Text(m), "Password must be more than 5 characters long" + " and must contain uppercase(S), number(s)" + " and a special character");
  }

  lemma OtherTextShape(m: Message)
    requires m.RepeatMismatch? || m.EmailUnknown? || m.PasswordRequired? || m.PasswordIncorrect?
    ensures |Text(m)| == TextLength(m)
    ensures SharesLength(m) ==> |Text(m)| > 0 && Text(m)[0] == Initial(m)
  {
    match m
    case RepeatMismatch => ShapeOf(Text(m), "Repeat password do not match or is missing");
    case EmailUnknown => ShapeOf(Text(m), "Email do not exist");
    case PasswordRequired => ShapeOf(Text(m), "Password is required");
    case PasswordIncorrect => ShapeOf(Text(m), "Incorrect password");
  }

  lemma ShapeOf(t: string, literal: string)
    requires t == literal
    ensures |t| == |literal| && (|t| > 0 ==> t[0] == literal[0])
  {
  }

  /** Two strings whose lengths or first characters differ are different. */
  lemma DifferentShapes(s: string, t: string, m: Message, n: Message)
    requires |s| == TextLength(m) && |t| == TextLength(n)
    requires SharesLength(m) ==> |s| > 0 && s[0] == Initial(m)
    requires SharesLength(n) ==> |t| > 0 && t[0] == Initial(n)
    requires m != n
    ensures s != t
  {
    if TextLength(m) == TextLength(n) {
      assert SharesLength(m) && SharesLength(n) && Initial(m) != Initial(n);
    }
  }

  /** Different messages show different texts, so the list of texts determines the list of messages. */
  lemma TextInjective(m: Message, n: Message)
    ensures Text(m) == Text(n) <==> m == n
  {
    if m != n {
      TextShape(m);
      TextShape(n);
      DifferentShapes(Text(m), Text(n), m, n);
    }
  }

  /** A string of ASCII characters has one code unit per character. */
  lemma AsciiLength(s: string)
    requires AllAsciiAlnum(s)
    ensures Length(s) == |s|
  {
    assert forall i :: 0 <= i < |s| ==> InBmp(s[i]);
  }

  /**
    The username rule yields at most one message, with precedence
    "required" over the length message over the character message; the length
    is JavaScript's, in code units.
   */
  lemma UsernameRule(username: string)
    ensures UsernameError(username) == Some(UsernameRequired) <==> username == []
    ensures UsernameError(username) == Some(UsernameLength) <==>
              username != [] && (Length(username) <= 3 || Length(username) > 10)
    ensures UsernameError(username) == Some(UsernameCharset) <==>
              username != [] && 4 <= Length(username) <= 10 && !AllAsciiAlnum(username)
    ensures UsernameError(username).None? <==> 4 <= |username| <= 10 && AllAsciiAlnum(username)
  {
    UsernamePatternMeaning(username);
    if AllAsciiAlnum(username) {
      AsciiLength(username);
    }
  }

  /** The password message appears exactly when the plain password rule fails. */
  lemma PasswordRule(password: string)
    ensures PasswordRejected(password) <==> !StrongPassword(password)
  {
    PasswordPatternMeaning(password);
    if password == [] {
      assert Length(password) == 0;
    }
  }

  /** Each part holds at most its own field's message. */
  predicate PartsShaped(u: seq<Message>, e: seq<Message>, p: seq<Message>, r: seq<Message>)
  {
    && |u| <= 1 && (forall i :: 0 <= i < |u| ==> SignupField(u[i]) == 0)
    && (e == [] || e == [EmailRequired])
    && (p == [] || p == [PasswordWeak])
    && (r == [] || r == [RepeatMismatch])
  }

  /** Each field's part holds at most that field's message. */
  lemma SignupErrorsParts(username: string, email: string, password: string, repeatPassword: string)
    ensures PartsShaped(UsernamePart(username), EmailPart(email), PasswordPart(password), RepeatPart(password, repeatPassword))
  {
    var u := UsernamePart(username);
    if UsernameError(username).Some? {
      assert SignupField(u[0]) == 0;
    }
  }

  /** Which part a message of the joined list came from. */
  lemma PartsMembership(u: seq<Message>, e: seq<Message>, p: seq<Message>, r: seq<Message>)
    requires PartsShaped(u, e, p, r)
    ensures forall m :: SignupField(m) == 0 ==> (m in u + e + p + r <==> m in u)
    ensures EmailRequired in u + e + p + r <==> e != []
    ensures PasswordWeak in u + e + p + r <==> p != []
    ensures RepeatMismatch in u + e + p + r <==> r != []
  {
    assert forall m :: m in u + e + p + r <==> m in u || m in e || m in p || m in r;
    assert EmailRequired !in u && PasswordWeak !in u && RepeatMismatch !in u;
  }

  /** Which messages a signup reports, field by field. */
  lemma SignupErrorsContent(username: string, email: string, password: string, repeatPassword: string)
    ensures var errs := SignupErrors(username, email, password, repeatPassword);
      && (UsernameRequired in errs <==> username == [])
      && (UsernameLength in errs <==> username != [] && (Length(username) <= 3 || Length(username) > 10))
      && (UsernameCharset in errs <==> username != [] && 4 <= Length(username) <= 10 && !AllAsciiAlnum(username))
      && (EmailRequired in errs <==> email == [])
      && (PasswordWeak in errs <==> !StrongPassword(password))
      && (RepeatMismatch in errs <==> repeatPassword == [] || repeatPassword != password)
  {
    UsernameMessagesInErrors(username, email, password, repeatPassword);
    OtherMessagesInErrors(username, email, password, repeatPassword);
  }

  lemma UsernameMessagesInErrors(username: string, email: string, password: string, repeatPassword: string)
    ensures var errs := SignupErrors(username, email, password, repeatPassword);
      && (UsernameRequired in errs <==> username == [])
      && (UsernameLength in errs <==> username != [] && (Length(username) <= 3 || Length(username) > 10))
      && (UsernameCharset in errs <==> username != [] && 4 <= Length(username) <= 10 && !AllAsciiAlnum(username))
  {
    var u, e, p, r := UsernamePart(username), EmailPart(email), PasswordPart(password), RepeatPart(password, repeatPassword);
    SignupErrorsParts(username, email, password, repeatPassword);
    PartsMembership(u, e, p, r);
    UsernameRule(username);
  }

  lemma OtherMessagesInErrors(username: string, email: string, password: string, repeatPassword: string)
    ensures var errs := SignupErrors(username, email, password, repeatPassword);
      && (EmailRequired in errs <==> email == [])
      && (PasswordWeak in errs <==> !StrongPassword(password))
      && (RepeatMismatch in errs <==> repeatPassword == [] || repeatPassword != password)
  {
    var u, e, p, r := UsernamePart(username), EmailPart(email), PasswordPart(password), RepeatPart(password, repeatPassword);
    SignupErrorsParts(username, email, password, repeatPassword);
    PartsMembership(u, e, p, r);
    PasswordRule(password);
  }

  /**
    The mismatch message as JavaScript decides it: `!=` compares the two
    strings' code units.
   */
  lemma RepeatRule(username: string, email: string, password: string, repeatPassword: string)
    ensures RepeatMismatch in SignupErrors(username, email, password, repeatPassword)
      <==> repeatPassword == [] || CodeUnits(password) != CodeUnits(repeatPassword)
  {
    OtherMessagesInErrors(username, email, password, repeatPassword);
    CodeUnitsInjective(password, repeatPassword);
  }

  /** Messages in strictly increasing field order. */
  predicate InFieldOrder(ms: seq<Message>)
  {
    forall i, j :: 0 <= i < j < |ms| ==> SignupField(ms[i]) < SignupField(ms[j])
  }

  lemma {:induction false} FieldOrderAppend(a: seq<Message>, b: seq<Message>, k: nat)
    requires InFieldOrder(a) && InFieldOrder(b)
    requires forall i :: 0 <= i < |a| ==> SignupField(a[i]) < k
    requires forall i :: 0 <= i < |b| ==> k <= SignupField(b[i])
    ensures InFieldOrder(a + b)
  {
    forall i, j | 0 <= i < j < |a + b|
      ensures SignupField((a + b)[i]) < SignupField((a + b)[j])
    {
      if j < |a| {
        assert (a + b)[i] == a[i] && (a + b)[j] == a[j];
      } else if i < |a| {
        assert (a + b)[i] == a[i] && (a + b)[j] == b[j - |a|];
      } else {
        assert (a + b)[i] == b[i - |a|] && (a + b)[j] == b[j - |a|];
      }
    }
  }

  /** Parts of the right shape join into a list in field order. */
  lemma PartsOrder(u: seq<Message>, e: seq<Message>, p: seq<Message>, r: seq<Message>)
    requires PartsShaped(u, e, p, r)
    ensures |u + e + p + r| <= 4
    ensures forall i :: 0 <= i < |u + e + p + r| ==> SignupField((u + e + p + r)[i]) < 4
    ensures InFieldOrder(u + e + p + r)
  {
    FieldOrderAppend(u, e, 1);
    FieldOrderAppend(u + e, p, 2);
    FieldOrderAppend(u + e + p, r, 3);
  }

  /** At most four messages, one per field at most, in form order. */
  lemma SignupErrorsOrder(username: string, email: string, password: string, repeatPassword: string)
    ensures var errs := SignupErrors(username, email, password, repeatPassword);
      && |errs| <= 4
      && (forall i :: 0 <= i < |errs| ==> SignupField(errs[i]) < 4)
      && InFieldOrder(errs)
  {
    SignupErrorsParts(username, email, password, repeatPassword);
    PartsOrder(UsernamePart(username), EmailPart(email), PasswordPart(password), RepeatPart(password, repeatPassword));
  }

  /** Signup reports nothing exactly when all four rules hold. */
  lemma SignupAcceptsExactly(username: string, email: string, password: string, repeatPassword: string)
    ensures SignupErrors(username, email, password, repeatPassword) == [] <==>
            SignupAcceptable(username, email, password, repeatPassword)
  {
    UsernameRule(username);
    PasswordRule(password);
  }

  /** A password of at most four code units is always rejected, whatever the other fields hold. */
  lemma ShortPasswordRejected(username: string, email: string, password: string, repeatPassword: string)
    requires Length(password) <= 4
    ensures PasswordWeak in SignupErrors(username, email, password, repeatPassword)
  {
  }

  /** An empty repeated password is always reported, even when the password is empty too. */
  lemma EmptyRepeatRejected(username: string, email: string, password: string)
    ensures RepeatMismatch in SignupErrors(username, email, password, [])
  {
  }

  /** The length check runs before the character check: "a_b" draws the length message only. */
  lemma LengthCheckedBeforeCharset()
    ensures SignupErrors("a_b", "a@b.c", "Abc1!", "Abc1!") == [UsernameLength]
  {
    SignupErrorsParts("a_b", "a@b.c", "Abc1!", "Abc1!");
    ThreeCharacterUsernameTooShort();
    FiveCharacterPasswordAccepted();
  }

  lemma ThreeCharacterUsernameTooShort()
    ensures UsernameError("a_b") == Some(UsernameLength)
  {
    var u := "a_b";
    assert forall i :: 0 <= i < |u| ==> InBmp(u[i]);
    assert Length(u) == 3;
  }

  /** A password of exactly five code units passes, although the message asks for "more than 5". */
  lemma FiveCharacterPasswordAccepted()
    ensures !PasswordRejected("Abc1!")
  {
    var p := "Abc1!";
    assert forall i :: 0 <= i < |p| ==> InBmp(p[i]) && !IsLineTerminator(p[i]);
    assert Length(p) == 5;
    assert CharIn(Upper, p[0]) && CharIn(Digit, p[3]) && CharIn(NotAlnum, p[4]);
    assert !AnyChar(LineTerminator, p);
    PasswordRule(p);
  }

  /**
    The length limits count UTF-16 code units: a character outside the Basic
    Multilingual Plane counts twice, so a three-character name can pass the
    length check and then fail the character check.
   */
  lemma UsernameLengthInCodeUnits()
    ensures |"ab\U{1F600}"| == 3
    ensures UsernameError("ab\U{1F600}") == Some(UsernameCharset)
  {
    var u := "ab\U{1F600}";
    assert CodeUnits(u) == Utf16(u[0]) + CodeUnits(u[1..]);
    assert CodeUnits(u[1..]) == Utf16(u[1]) + CodeUnits(u[2..]);
    assert CodeUnits(u[2..]) == Utf16(u[2]) + CodeUnits(u[3..]);
    assert Length(u) == 4;
    UsernamePatternMeaning(u);
    assert !IsAsciiAlnum(u[2]);
  }

  /** `.` does not match a line terminator, so a password holding one is always rejected. */
  lemma LineTerminatorRejected(password: string, i: nat)
    requires i < |password| && IsLineTerminator(password[i])
    ensures PasswordRejected(password)
  {
    PasswordRule(password);
    assert CharIn(LineTerminator, password[i]);
  }

  /** A weak password and a mismatched repeat are both reported in one call. */
  lemma WeakAndMismatchTogether()
    ensures SignupErrors("alice", "a@b.c", "abcde", "abcdf") == [PasswordWeak, RepeatMismatch]
  {
    SignupErrorsParts("alice", "a@b.c", "abcde", "abcdf");
    AliceAccepted();
    LowerCasePasswordRejected();
    assert "abcde"[4] != "abcdf"[4];
  }

  lemma AliceAccepted()
    ensures UsernameError("alice").None?
  {
    var u := "alice";
    assert AllAsciiAlnum(u);
    UsernameRule(u);
  }

  lemma LowerCasePasswordRejected()
    ensures PasswordRejected("abcde")
  {
    var p := "abcde";
    assert forall i :: 0 <= i < |p| ==> !IsAsciiUpper(p[i]);
    PasswordRule(p);
  }

  // ---------------------------------------------------------------- login

  /**
    The login handler's error list. `found` is the result of the one lookup by
    email the handler makes (also made when the email is empty).
   */
  function LoginErrors(email: string, password: string, found: Option<UserRecord>, h: Hasher): seq<Message>
  {
    (if email == [] then [EmailRequired] else if found.None? then [EmailUnknown] else [])
    + (if password == [] then [PasswordRequired]
       else if found.Some? && !h.verify(password, found.value.password) then [PasswordIncorrect]
       else [])
  }

  /** Which messages a login reports, and in what order. */
  lemma LoginErrorsContent(email: string, password: string, found: Option<UserRecord>, h: Hasher)
    ensures var errs := LoginErrors(email, password, found, h);
      && |errs| <= 2
      && (EmailRequired in errs <==> email == [])
      && (EmailUnknown in errs <==> email != [] && found.None?)
      && (PasswordRequired in errs <==> password == [])
      && (PasswordIncorrect in errs <==> password != [] && found.Some? && !h.verify(password, found.value.password))
      && (|errs| == 2 ==> errs[0] in {EmailRequired, EmailUnknown} && errs[1] in {PasswordRequired, PasswordIncorrect})
  {
  }

  /** An unknown email with a password given draws exactly one message. */
  lemma UnknownEmailSingleError(email: string, password: string, h: Hasher)
    requires email != [] && password != []
    ensures LoginErrors(email, password, None, h) == [EmailUnknown]
  {
  }

  /** Login reports nothing exactly when a record was found and the password verifies against it. */
  lemma LoginAcceptsExactly(email: string, password: string, found: Option<UserRecord>, h: Hasher)
    ensures LoginErrors(email, password, found, h) == [] <==>
            email != [] && password != [] && found.Some? && h.verify(password, found.value.password)
  {
  }
}
