/**
  The two regular expressions of the signup handler, matched the way
  JavaScript matches a pattern without flags: code unit by code unit, with `.`
  matching any code unit except a line terminator, `^` and `$` anchoring at
  the ends of the whole subject.

  Each pattern is first written over code units, as the engine sees it, and
  then characterised over the characters of the string.
 */
module Patterns {
  import opened JsString

  /** The character classes the patterns use. */
  datatype Class = Upper | Digit | NotAlnum | LineTerminator

  /** Class membership of a code unit (`[A-Z]`, `[0-9]`, `[^A-Za-z0-9]`, and the units `.` refuses). */
  predicate UnitIn(k: Class, u: CodeUnit)
  {
    match k
    case Upper => 0x41 <= u <= 0x5A
    case Digit => 0x30 <= u <= 0x39
    case NotAlnum => !(0x41 <= u <= 0x5A || 0x61 <= u <= 0x7A || 0x30 <= u <= 0x39)
    case LineTerminator => u == 0x0A || u == 0x0D || u == 0x2028 || u == 0x2029
  }

  predicate IsAsciiUpper(c: char) { 'A' <= c <= 'Z' }
  predicate IsAsciiLower(c: char) { 'a' <= c <= 'z' }
  predicate IsAsciiDigit(c: char) { '0' <= c <= '9' }
  predicate IsAsciiAlnum(c: char) { IsAsciiUpper(c) || IsAsciiLower(c) || IsAsciiDigit(c) }
  predicate IsLineTerminator(c: char) { c == '\n' || c == '\r' || c == '\U{2028}' || c == '\U{2029}' }

  /** Class membership of a whole character. */
  predicate CharIn(k: Class, c: char)
  {
    match k
    case Upper => IsAsciiUpper(c)
    case Digit => IsAsciiDigit(c)
    case NotAlnum => !IsAsciiAlnum(c)
    case LineTerminator => IsLineTerminator(c)
  }

  predicate AnyUnit(k: Class, us: seq<CodeUnit>)
  {
    exists i :: 0 <= i < |us| && UnitIn(k, us[i])
  }

  predicate AnyChar(k: Class, s: string)
  {
    exists i :: 0 <= i < |s| && CharIn(k, s[i])
  }

  /** `/^[a-zA-Z0-9]+$/` on a sequence of code units. */
  predicate UsernamePatternMatches(us: seq<CodeUnit>)
  {
    |us| >= 1 && forall i :: 0 <= i < |us| ==> !UnitIn(NotAlnum, us[i])
  }

  /** The lookahead `(?=.*[k])` at the start of the subject. */
  predicate LookaheadFinds(k: Class, us: seq<CodeUnit>)
  {
    exists j :: 0 <= j < |us| && UnitIn(k, us[j]) && forall i :: 0 <= i < j ==> !UnitIn(LineTerminator, us[i])
  }

  /** `/^(?=.*[A-Z])(?=.*[0-9])(?=.*[^A-Za-z0-9]).{5,}$/` on a sequence of code units. */
  predicate PasswordPatternMatches(us: seq<CodeUnit>)
  {
    && LookaheadFinds(Upper, us)
    && LookaheadFinds(Digit, us)
    && LookaheadFinds(NotAlnum, us)
    && |us| >= 5
    && forall i :: 0 <= i < |us| ==> !UnitIn(LineTerminator, us[i])
  }

  /** One character's code units fall in a class exactly when the character does. */
  lemma UnitsOfChar(k: Class, c: char)
    ensures AnyUnit(k, Utf16(c)) <==> CharIn(k, c)
  {
    var us := Utf16(c);
    if InBmp(c) {
      assert us[0] == c as int;
      assert AnyUnit(k, us) <==> UnitIn(k, us[0]);
    } else {
      assert UnitIn(NotAlnum, us[0]);
      assert forall i :: 0 <= i < |us| ==> !UnitIn(Upper, us[i]) && !UnitIn(Digit, us[i]) && !UnitIn(LineTerminator, us[i]);
    }
  }

  lemma AnyUnitConcat(k: Class, a: seq<CodeUnit>, b: seq<CodeUnit>)
    ensures AnyUnit(k, a + b) <==> AnyUnit(k, a) || AnyUnit(k, b)
  {
    if AnyUnit(k, a + b) {
      var i :| 0 <= i < |a + b| && UnitIn(k, (a + b)[i]);
      if i >= |a| {
        assert UnitIn(k, b[i - |a|]);
      }
    }
    if AnyUnit(k, a) {
      var i :| 0 <= i < |a| && UnitIn(k, a[i]);
      assert UnitIn(k, (a + b)[i]);
    }
    if AnyUnit(k, b) {
      var i :| 0 <= i < |b| && UnitIn(k, b[i]);
      assert UnitIn(k, (a + b)[|a| + i]);
    }
  }

  lemma AnyCharCons(k: Class, s: string)
    requires s != []
    ensures AnyChar(k, s) <==> CharIn(k, s[0]) || AnyChar(k, s[1..])
  {
    if AnyChar(k, s) {
      var j :| 0 <= j < |s| && CharIn(k, s[j]);
      if j > 0 {
        assert CharIn(k, s[1..][j - 1]);
      }
    }
    if AnyChar(k, s[1..]) {
      var j :| 0 <= j < |s[1..]| && CharIn(k, s[1..][j]);
      assert CharIn(k, s[j + 1]);
    }
  }

  /** A string has a code unit in a class exactly when it has a character in it. */
  lemma {:induction false} AnyUnitOfString(k: Class, s: string)
    ensures AnyUnit(k, CodeUnits(s)) <==> AnyChar(k, s)
    decreases |s|
  {
    if s != [] {
      assert CodeUnits(s) == Utf16(s[0]) + CodeUnits(s[1..]);
      AnyUnitConcat(k, Utf16(s[0]), CodeUnits(s[1..]));
      AnyCharCons(k, s);
      UnitsOfChar(k, s[0]);
      AnyUnitOfString(k, s[1..]);
    }
  }

  /** With no line terminator in the subject, `(?=.*[k])` just asks for some unit of class `k`. */
  lemma LookaheadWithoutTerminators(k: Class, us: seq<CodeUnit>)
    requires !AnyUnit(LineTerminator, us)
    ensures LookaheadFinds(k, us) <==> AnyUnit(k, us)
  {
    if AnyUnit(k, us) {
      var j :| 0 <= j < |us| && UnitIn(k, us[j]);
      assert forall i :: 0 <= i < j ==> !UnitIn(LineTerminator, us[i]);
    }
  }

  /** The username pattern accepts exactly the non-empty strings of ASCII letters and digits. */
  lemma UsernamePatternMeaning(u: string)
    ensures UsernamePatternMatches(CodeUnits(u)) <==> |u| >= 1 && forall i :: 0 <= i < |u| ==> IsAsciiAlnum(u[i])
  {
    var us := CodeUnits(u);
    AnyUnitOfString(NotAlnum, u);
    assert (forall i :: 0 <= i < |us| ==> !UnitIn(NotAlnum, us[i])) <==> !AnyUnit(NotAlnum, us);
    assert (forall i :: 0 <= i < |u| ==> IsAsciiAlnum(u[i])) <==> !AnyChar(NotAlnum, u);
  }

  /**
    The password pattern accepts exactly the strings of at least five code units
    that contain an ASCII upper-case letter, an ASCII digit and a character that
    is neither, and contain no line terminator (the pattern has no `s` flag).
   */
  lemma PasswordPatternMeaning(p: string)
    ensures PasswordPatternMatches(CodeUnits(p)) <==>
      && Length(p) >= 5
      && AnyChar(Upper, p) && AnyChar(Digit, p) && AnyChar(NotAlnum, p)
      && !AnyChar(LineTerminator, p)
  {
    var us := CodeUnits(p);
    AnyUnitOfString(Upper, p);
    AnyUnitOfString(Digit, p);
    AnyUnitOfString(NotAlnum, p);
    AnyUnitOfString(LineTerminator, p);
    assert (forall i :: 0 <= i < |us| ==> !UnitIn(LineTerminator, us[i])) <==> !AnyUnit(LineTerminator, us);
    if !AnyUnit(LineTerminator, us) {
      LookaheadWithoutTerminators(Upper, us);
      LookaheadWithoutTerminators(Digit, us);
      LookaheadWithoutTerminators(NotAlnum, us);
    }
  }
}
