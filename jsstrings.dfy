/**
  The pieces of JavaScript's string semantics that the table and the helpers rely on:
  ASCII case mapping (`toLowerCase`, `toUpperCase` restricted to A-Z / a-z), the
  whitespace set that `String.prototype.trim` strips, `includes`, the code-point order
  that `<` uses on two strings, and decimal digits.
 */
module JsStrings {

  predicate IsUpperAscii(c: char) { 'A' <= c <= 'Z' }

  predicate IsLowerAscii(c: char) { 'a' <= c <= 'z' }

  predicate IsDigit(c: char) { '0' <= c <= '9' }

  predicate IsAscii(c: char) { c as int < 128 }

  predicate IsAsciiString(s: string) { forall i :: 0 <= i < |s| ==> IsAscii(s[i]) }

  /** `toLowerCase` on one character, for the ASCII range. */
  function LowerChar(c: char): (r: char)
    ensures !IsUpperAscii(r)
    ensures IsAscii(c) <==> IsAscii(r)
  {
    if IsUpperAscii(c) then (c as int + 32) as char else c
  }

  /** `toUpperCase` on one character, for the ASCII range. */
  function UpperChar(c: char): (r: char)
    ensures !IsLowerAscii(r)
    ensures IsAscii(c) <==> IsAscii(r)
  {
    if IsLowerAscii(c) then (c as int - 32) as char else c
  }

  function ToLower(s: string): string
  {
    seq(|s|, i requires 0 <= i < |s| => LowerChar(s[i]))
  }

  lemma ToLowerAppend(a: string, b: string)
    ensures ToLower(a + b) == ToLower(a) + ToLower(b)
  {
  }

  /** The characters `trim` removes: WhiteSpace and LineTerminator of ECMA-262. */
  predicate IsJsWhitespace(c: char)
  {
    c == '\t' || c == '\n' || c == '\U{000B}' || c == '\U{000C}' || c == '\r' || c == ' '
    || c == '\U{00A0}' || c == '\U{1680}' || ('\U{2000}' <= c <= '\U{200A}')
    || c == '\U{2028}' || c == '\U{2029}' || c == '\U{202F}' || c == '\U{205F}'
    || c == '\U{3000}' || c == '\U{FEFF}'
  }

  function TrimStart(s: string): (r: string)
    ensures |r| <= |s| && r == s[|s| - |r|..]
    ensures r != [] ==> !IsJsWhitespace(r[0])
  {
    if s != [] && IsJsWhitespace(s[0]) then TrimStart(s[1..]) else s
  }

  function TrimEnd(s: string): (r: string)
    ensures |r| <= |s| && r == s[..|r|]
    ensures r != [] ==> !IsJsWhitespace(r[|r| - 1])
  {
    if s != [] && IsJsWhitespace(s[|s| - 1]) then TrimEnd(s[..|s| - 1]) else s
  }

  /** `String.prototype.trim`. */
  function Trim(s: string): string
  {
    TrimEnd(TrimStart(s))
  }

  predicate AllWhitespace(s: string) { forall i :: 0 <= i < |s| ==> IsJsWhitespace(s[i]) }

  /** A non-empty string is all whitespace exactly when its head is and its tail is. */
  lemma AllWhitespaceCons(s: string)
    requires s != []
    ensures AllWhitespace(s) <==> IsJsWhitespace(s[0]) && AllWhitespace(s[1..])
  {
    if IsJsWhitespace(s[0]) && AllWhitespace(s[1..]) {
      forall i | 0 <= i < |s| ensures IsJsWhitespace(s[i]) {
        if i > 0 { assert s[i] == s[1..][i - 1]; }
      }
    }
    if AllWhitespace(s) {
      forall i | 0 <= i < |s| - 1 ensures IsJsWhitespace(s[1..][i]) {
        assert s[1..][i] == s[i + 1];
      }
    }
  }

  lemma {:induction false} TrimStartEmptyIff(s: string)
    ensures TrimStart(s) == [] <==> AllWhitespace(s)
    decreases |s|
  {
    if s != [] {
      AllWhitespaceCons(s);
      if IsJsWhitespace(s[0]) {
        TrimStartEmptyIff(s[1..]);
      }
    }
  }

  lemma {:induction false} TrimEndNonEmpty(s: string)
    requires s != []
    ensures TrimEnd(s) != [] <==> !AllWhitespace(s)
    decreases |s|
  {
    if IsJsWhitespace(s[|s| - 1]) {
      var p := s[..|s| - 1];
      if p == [] {
        assert AllWhitespace(s);
      } else {
        TrimEndNonEmpty(p);
        assert AllWhitespace(p) <==> AllWhitespace(s) by {
          if AllWhitespace(p) {
            forall i | 0 <= i < |s| ensures IsJsWhitespace(s[i]) {
              if i < |s| - 1 { assert s[i] == p[i]; }
            }
          }
          if AllWhitespace(s) {
            forall i | 0 <= i < |p| ensures IsJsWhitespace(p[i]) { assert p[i] == s[i]; }
          }
        }
      }
    }
  }

  /** A string trims to nothing exactly when every character is JavaScript whitespace. */
  lemma TrimEmptyIff(s: string)
    ensures Trim(s) == [] <==> AllWhitespace(s)
  {
    TrimStartEmptyIff(s);
    var t := TrimStart(s);
    if t != [] {
      TrimEndNonEmpty(t);
      assert !IsJsWhitespace(t[0]);
    }
  }

  /** `String.prototype.includes`: `needle` occurs in `hay` as a contiguous slice. */
  predicate Includes(hay: string, needle: string)
  {
    exists i :: 0 <= i <= |hay| - |needle| && OccursAt(hay, needle, i)
  }

  predicate OccursAt(hay: string, needle: string, i: int)
    requires 0 <= i <= |hay| - |needle|
  {
    hay[i..i + |needle|] == needle
  }

  /** `a < b` on two strings: lexicographic order on code points, a proper prefix first. */
  predicate StrLess(a: string, b: string)
    decreases |a|
  {
    if |a| == 0 then |b| > 0
    else if |b| == 0 then false
    else if a[0] < b[0] then true
    else if a[0] == b[0] then StrLess(a[1..], b[1..])
    else false
  }

  lemma {:induction false} StrLessIrreflexive(a: string)
    ensures !StrLess(a, a)
    decreases |a|
  {
    if |a| > 0 { StrLessIrreflexive(a[1..]); }
  }

  lemma {:induction false} StrLessAsymmetric(a: string, b: string)
    ensures !(StrLess(a, b) && StrLess(b, a))
    decreases |a|
  {
    if |a| > 0 && |b| > 0 && a[0] == b[0] { StrLessAsymmetric(a[1..], b[1..]); }
  }

  lemma {:induction false} StrLessTransitive(a: string, b: string, c: string)
    requires StrLess(a, b) && StrLess(b, c)
    ensures StrLess(a, c)
    decreases |a|
  {
    if |a| > 0 && a[0] == b[0] && b[0] == c[0] {
      StrLessTransitive(a[1..], b[1..], c[1..]);
    }
  }

  /** Two different strings are always ordered one way or the other. */
  lemma {:induction false} StrLessTotal(a: string, b: string)
    requires a != b
    ensures StrLess(a, b) || StrLess(b, a)
    decreases |a|
  {
    if |a| > 0 && |b| > 0 && a[0] == b[0] {
      assert a == [a[0]] + a[1..] && b == [b[0]] + b[1..];
      StrLessTotal(a[1..], b[1..]);
    }
  }

  function DigitChar(d: nat): (c: char)
    requires d < 10
    ensures IsDigit(c)
  {
    (48 + d) as char
  }

  function DigitValue(c: char): (d: nat)
    requires IsDigit(c)
    ensures d < 10
  {
    c as int - 48
  }

  /** The decimal digits JavaScript prints for a non-negative integer. */
  function NatToDecimal(n: nat): (r: string)
    ensures r != []
    ensures forall i :: 0 <= i < |r| ==> IsDigit(r[i])
  {
    if n < 10 then [DigitChar(n)] else NatToDecimal(n / 10) + [DigitChar(n % 10)]
  }

  predicate AllDigits(s: string) { forall i :: 0 <= i < |s| ==> IsDigit(s[i]) }

  /** The value of a string of decimal digits. */
  function DecimalValue(s: string): nat
    requires AllDigits(s)
  {
    if s == [] then 0 else DecimalValue(s[..|s| - 1]) * 10 + DigitValue(s[|s| - 1])
  }
}
