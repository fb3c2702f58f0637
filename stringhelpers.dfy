/**
  `AppUtils.string.capitalize`, `camelToKebab` and `kebabToCamel`.  Case mapping is the
  ASCII one (see README, "Left out").
 */
module StringHelpers {
  import opened JsStrings

  /** `str.charAt(0).toUpperCase() + str.slice(1)`. */
  function Capitalize(s: string): (r: string)
    ensures |r| == |s|
    ensures s != [] ==> r[1..] == s[1..] && !IsLowerAscii(r[0])
    ensures s != [] ==> (IsLowerAscii(s[0]) ==> r[0] as int == s[0] as int - 32)
                        && (!IsLowerAscii(s[0]) ==> r[0] == s[0])
  {
    if s == [] then [] else [UpperChar(s[0])] + s[1..]
  }

  /** Capitalizing twice is capitalizing once, and only the first character ever changes. */
  lemma CapitalizeIdempotent(s: string)
    ensures Capitalize(Capitalize(s)) == Capitalize(s)
    ensures forall i :: 1 <= i < |s| ==> Capitalize(s)[i] == s[i]
  {
    if s != [] {
      var r := Capitalize(s);
      assert UpperChar(r[0]) == r[0];
      assert [r[0]] + r[1..] == r;
      forall i | 1 <= i < |s| ensures r[i] == s[i] {
        assert r[i] == r[1..][i - 1];
      }
    }
  }

  /**
    `str.replace(/([a-z0-9]|(?=[A-Z]))([A-Z])/g, '$1-$2')`: a scan from the left.  Where a
    lowercase letter or digit is followed by an uppercase letter, the pair becomes
    `x-Y`; where the lookahead alternative matches an uppercase letter alone, it becomes
    `-Y`; anything else is copied.
   */
  function CamelReplace(s: string): (r: string)
    ensures |r| >= |s|
  {
    if s == [] then []
    else if |s| >= 2 && (IsLowerAscii(s[0]) || IsDigit(s[0])) && IsUpperAscii(s[1]) then
      [s[0], '-', s[1]] + CamelReplace(s[2..])
    else if IsUpperAscii(s[0]) then ['-', s[0]] + CamelReplace(s[1..])
    else [s[0]] + CamelReplace(s[1..])
  }

  /** Reference reading of the replacement: a dash goes in front of every uppercase letter. */
  function DashBeforeUpper(s: string): string
  {
    if s == [] then []
    else (if IsUpperAscii(s[0]) then ['-', s[0]] else [s[0]]) + DashBeforeUpper(s[1..])
  }

  /**
    Whichever alternative of the pattern matches, the effect of the scan is to put one dash
    in front of each uppercase letter and to change nothing else.
   */
  lemma {:induction false} CamelReplaceIsDashBeforeUpper(s: string)
    ensures CamelReplace(s) == DashBeforeUpper(s)
    decreases |s|
  {
    if s != [] {
      if |s| >= 2 && (IsLowerAscii(s[0]) || IsDigit(s[0])) && IsUpperAscii(s[1]) {
        var t := s[2..];
        CamelReplaceIsDashBeforeUpper(t);
        assert !IsUpperAscii(s[0]);
        assert s[1..][1..] == t;
        var d := DashBeforeUpper(t);
        assert DashBeforeUpper(s[1..]) == ['-', s[1]] + d;
        assert DashBeforeUpper(s) == [s[0]] + (['-', s[1]] + d);
        assert CamelReplace(s) == [s[0], '-', s[1]] + d;
      } else {
        CamelReplaceIsDashBeforeUpper(s[1..]);
      }
    }
  }

  /** `string.camelToKebab(str)`. */
  function CamelToKebab(s: string): (r: string)
    ensures |r| >= |s|
    ensures forall i :: 0 <= i < |r| ==> !IsUpperAscii(r[i])
  {
    ToLower(CamelReplace(s))
  }

  /** `str.replace(/-([a-z])/g, g => g[1].toUpperCase())`: a dash before a lowercase letter is dropped and the letter uppercased. */
  function KebabToCamel(s: string): (r: string)
    ensures |r| <= |s|
  {
    if s == [] then []
    else if |s| >= 2 && s[0] == '-' && IsLowerAscii(s[1]) then [UpperChar(s[1])] + KebabToCamel(s[2..])
    else [s[0]] + KebabToCamel(s[1..])
  }

  predicate NoUpper(s: string) { forall i :: 0 <= i < |s| ==> !IsUpperAscii(s[i]) }

  lemma {:induction false} DashBeforeUpperRoundTrip(s: string)
    requires IsAsciiString(s) && '-' !in s
    ensures KebabToCamel(ToLower(DashBeforeUpper(s))) == s
    decreases |s|
  {
    if s != [] {
      var rest := ToLower(DashBeforeUpper(s[1..]));
      DashBeforeUpperRoundTrip(s[1..]);
      if IsUpperAscii(s[0]) {
        ToLowerAppend(['-', s[0]], DashBeforeUpper(s[1..]));
        assert ToLower(DashBeforeUpper(s)) == ['-', LowerChar(s[0])] + rest;
        assert (['-', LowerChar(s[0])] + rest)[2..] == rest;
      } else {
        ToLowerAppend([s[0]], DashBeforeUpper(s[1..]));
        assert ToLower(DashBeforeUpper(s)) == [s[0]] + rest;
        assert ([s[0]] + rest)[1..] == rest;
      }
      assert s == [s[0]] + s[1..];
    }
  }

  /** A camelCase ASCII identifier without dashes survives the trip to kebab-case and back. */
  lemma CamelRoundTrip(s: string)
    requires IsAsciiString(s) && '-' !in s
    ensures KebabToCamel(CamelToKebab(s)) == s
  {
    CamelReplaceIsDashBeforeUpper(s);
    DashBeforeUpperRoundTrip(s);
  }

  /**
    An ASCII string without uppercase letters survives the trip to camelCase and back.  A
    dash before a lowercase letter is removed and restored; any other dash (before a digit,
    another dash or at the end, as in `mt-4`) is never touched.
   */
  lemma {:induction false} KebabRoundTrip(s: string)
    requires IsAsciiString(s) && NoUpper(s)
    ensures CamelToKebab(KebabToCamel(s)) == s
    decreases |s|
  {
    if s != [] {
      var k := KebabToCamel(s);
      if |s| >= 2 && s[0] == '-' && IsLowerAscii(s[1]) {
        var t := s[2..];
        KebabRoundTrip(t);
        var kt := KebabToCamel(t);
        CamelReplaceIsDashBeforeUpper(kt);
        CamelReplaceIsDashBeforeUpper(k);
        assert k == [UpperChar(s[1])] + kt;
        assert k[1..] == kt;
        assert DashBeforeUpper(k) == ['-', UpperChar(s[1])] + DashBeforeUpper(kt);
        ToLowerAppend(['-', UpperChar(s[1])], DashBeforeUpper(kt));
        assert s == ['-', s[1]] + t;
      } else {
        var t := s[1..];
        assert !IsUpperAscii(s[0]);
        KebabRoundTrip(t);
        var kt := KebabToCamel(t);
        CamelReplaceIsDashBeforeUpper(kt);
        CamelReplaceIsDashBeforeUpper(k);
        assert k == [s[0]] + kt;
        assert k[1..] == kt;
        assert DashBeforeUpper(k) == [s[0]] + DashBeforeUpper(kt);
        ToLowerAppend([s[0]], DashBeforeUpper(kt));
        assert s == [s[0]] + t;
      }
    }
  }

  lemma {:induction false} DashBeforeUpperNoUpper(s: string)
    requires NoUpper(s)
    ensures DashBeforeUpper(s) == s
    decreases |s|
  {
    if s != [] {
      DashBeforeUpperNoUpper(s[1..]);
      assert s == [s[0]] + s[1..];
    }
  }

  /** An ASCII string without uppercase letters is already kebab-case: `camelToKebab` returns it unchanged. */
  lemma CamelToKebabKeepsKebab(s: string)
    requires IsAsciiString(s) && NoUpper(s)
    ensures CamelToKebab(s) == s
  {
    CamelReplaceIsDashBeforeUpper(s);
    DashBeforeUpperNoUpper(s);
  }

  /** Without a dash there is nothing to replace: `kebabToCamel` returns the string unchanged. */
  lemma {:induction false} KebabToCamelWithoutDashes(s: string)
    requires '-' !in s
    ensures KebabToCamel(s) == s
    decreases |s|
  {
    if s != [] {
      assert '-' !in s[1..] by { assert forall c :: c in s[1..] ==> c in s; }
      KebabToCamelWithoutDashes(s[1..]);
      assert s == [s[0]] + s[1..];
    }
  }
}
