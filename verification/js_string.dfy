/**
  JavaScript strings as the request handlers see them.

  A JavaScript string is a sequence of UTF-16 code units: `.length` counts code
  units and a regular expression without the `u` flag matches code units one
  at a time. The model keeps strings as Dafny `string`s (sequences of Unicode
  scalar values) and makes the code-unit view explicit with `CodeUnits`, so that
  a character outside the Basic Multilingual Plane counts twice, as it does in
  the handlers.
 */
module JsString {
  import opened Wrappers

  /** One UTF-16 code unit. */
  type CodeUnit = u: int | 0 <= u < 0x1_0000

  predicate IsHighSurrogate(u: CodeUnit) { 0xD800 <= u <= 0xDBFF }
  predicate IsLowSurrogate(u: CodeUnit) { 0xDC00 <= u <= 0xDFFF }
  predicate IsSurrogate(u: CodeUnit) { IsHighSurrogate(u) || IsLowSurrogate(u) }

  /** True for characters JavaScript stores in a single code unit. */
  predicate InBmp(c: char) { (c as int) < 0x1_0000 }

  /** The UTF-16 encoding of one character. */
  function Utf16(c: char): (r: seq<CodeUnit>)
    ensures InBmp(c) ==> r == [c as int] && !IsSurrogate(r[0])
    ensures !InBmp(c) ==> |r| == 2 && IsHighSurrogate(r[0]) && IsLowSurrogate(r[1])
  {
    if InBmp(c) then [c as int]
    else
      var v := c as int - 0x1_0000;
      [0xD800 + v / 0x400, 0xDC00 + v % 0x400]
  }

  /** The code units of a string, in order. */
  function CodeUnits(s: string): (r: seq<CodeUnit>)
    ensures |s| <= |r| <= 2 * |s|
    ensures (forall i :: 0 <= i < |s| ==> InBmp(s[i])) ==> |r| == |s|
  {
    if s == [] then [] else Utf16(s[0]) + CodeUnits(s[1..])
  }

  /** The value of JavaScript's `s.length`. */
  function Length(s: string): (n: nat)
    ensures |s| <= n <= 2 * |s|
    ensures n == 0 <==> s == []
    ensures (forall i :: 0 <= i < |s| ==> InBmp(s[i])) ==> n == |s|
  {
    |CodeUnits(s)|
  }

  /** Decodes well-formed UTF-16; a lone surrogate has no `string` counterpart. */
  function FromCodeUnits(us: seq<CodeUnit>): (r: Option<string>)
    decreases |us|
  {
    if us == [] then Some([])
    else if !IsSurrogate(us[0]) then
      match FromCodeUnits(us[1..])
      case None => None
      case Some(rest) => Some([us[0] as char] + rest)
    else if IsHighSurrogate(us[0]) && |us| >= 2 && IsLowSurrogate(us[1]) then
      var c: int := 0x1_0000 + (us[0] as int - 0xD800) * 0x400 + (us[1] as int - 0xDC00);
      match FromCodeUnits(us[2..])
      case None => None
      case Some(rest) => Some([c as char] + rest)
    else None
  }

  lemma SurrogateArithmetic(v: int)
    requires 0 <= v < 0x10_0000
    ensures 0 <= v / 0x400 < 0x400 && 0 <= v % 0x400 < 0x400
    ensures (v / 0x400) * 0x400 + v % 0x400 == v
  {
  }

  /** Decoding one character's units in front of decodable units yields that character in front. */
  lemma DecodeCons(c: char, rest: seq<CodeUnit>, tail: string)
    requires FromCodeUnits(rest) == Some(tail)
    ensures FromCodeUnits(Utf16(c) + rest) == Some([c] + tail)
  {
    var us := Utf16(c) + rest;
    if InBmp(c) {
      assert us[0] == c as int && !IsSurrogate(us[0]);
      assert us[1..] == rest;
    } else {
      var v := c as int - 0x1_0000;
      SurrogateArithmetic(v);
      assert us[0] == 0xD800 + v / 0x400 && us[1] == 0xDC00 + v % 0x400;
      assert IsHighSurrogate(us[0]) && IsLowSurrogate(us[1]);
      assert us[2..] == rest;
      assert 0x1_0000 + (us[0] as int - 0xD800) * 0x400 + (us[1] as int - 0xDC00) == c as int;
    }
  }

  /** The code-unit view loses nothing: decoding it gives the string back. */
  lemma {:induction false} CodeUnitsRoundTrip(s: string)
    ensures FromCodeUnits(CodeUnits(s)) == Some(s)
    decreases |s|
  {
    if s != [] {
      assert CodeUnits(s) == Utf16(s[0]) + CodeUnits(s[1..]);
      CodeUnitsRoundTrip(s[1..]);
      DecodeCons(s[0], CodeUnits(s[1..]), s[1..]);
      assert [s[0]] + s[1..] == s;
    }
  }

  /**
    JavaScript's `!=` on two strings compares code units; it agrees with the
    model's comparison of characters.
   */
  lemma CodeUnitsInjective(a: string, b: string)
    ensures CodeUnits(a) == CodeUnits(b) <==> a == b
  {
    CodeUnitsRoundTrip(a);
    CodeUnitsRoundTrip(b);
  }

  /** A request-body field: form parsing yields a string, an array for a repeated key, or nothing. */
  datatype BodyValue = Str(text: string) | NonString

  /** `typeof v === "string" ? v : ""`: anything but a string reads as the empty string. */
  function AsString(v: BodyValue): (r: string)
    ensures r == [] <==> v.NonString? || v.text == []
  {
    if v.Str? then v.text else ""
  }
}
