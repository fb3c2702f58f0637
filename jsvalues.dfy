/**
  The JavaScript primitive values a table row holds, with the three conversions the
  table engine applies to them: truthiness (`x || ''`), `String(x)`, and the abstract
  relational comparison behind `<` and `>`.  A row item is a mapping from property
  name to value; reading an absent property gives `undefined`.
 */
module JsValues {
  import opened Wrappers
  import opened JsStrings

  /** Numbers are modelled as integers (see README, "Left out"). */
  datatype Value = Undefined | Null | Bool(b: bool) | Num(n: int) | Str(s: string)

  type Row = map<string, Value>

  /** `item[field]`. */
  function Get(item: Row, field: string): Value
  {
    if field in item then item[field] else Undefined
  }

  /** ToBoolean: `undefined`, `null`, `false`, `0` and `''` are falsy. */
  predicate Truthy(v: Value)
  {
    match v
    case Undefined => false
    case Null => false
    case Bool(b) => b
    case Num(n) => n != 0
    case Str(s) => s != ""
  }

  /** `String(v)`. */
  function ToStr(v: Value): string
  {
    match v
    case Undefined => "undefined"
    case Null => "null"
    case Bool(b) => if b then "true" else "false"
    case Num(n) => if n < 0 then "-" + NatToDecimal(-n) else NatToDecimal(n)
    case Str(s) => s
  }

  /** A truthy value never prints as the empty string, so `v || ''` is empty exactly for falsy `v`. */
  lemma TruthyPrintsNonEmpty(v: Value)
    ensures Truthy(v) ==> ToStr(v) != ""
  {
  }

  /**
    StringToNumber for the forms the model covers: surrounding whitespace is trimmed,
    the empty string is 0, an optional sign followed by decimal digits is that integer,
    anything else is NaN (`None`).
   */
  function StrToNumber(s: string): Option<int>
  {
    var t := Trim(s);
    if t == "" then Some(0)
    else if AllDigits(t) then Some(DecimalValue(t))
    else if |t| >= 2 && (t[0] == '-' || t[0] == '+') && AllDigits(t[1..]) then
      var m: int := DecimalValue(t[1..]);
      Some(if t[0] == '-' then -m else m)
    else None
  }

  /** ToNumber; `None` is NaN. */
  function ToNumber(v: Value): Option<int>
  {
    match v
    case Undefined => None
    case Null => Some(0)
    case Bool(b) => Some(if b then 1 else 0)
    case Num(n) => Some(n)
    case Str(s) => StrToNumber(s)
  }

  /**
    `a < b` (and `b > a`): two strings compare by code points, anything else compares as
    numbers, and a comparison involving NaN is false.
   */
  predicate Less(a: Value, b: Value)
  {
    if a.Str? && b.Str? then StrLess(a.s, b.s)
    else
      var x, y := ToNumber(a), ToNumber(b);
      x.Some? && y.Some? && x.value < y.value
  }

  /** Neither `a < b` nor `a > b`: the sort comparators return 0. */
  predicate Tied(a: Value, b: Value)
  {
    !Less(a, b) && !Less(b, a)
  }

  predicate IsNumeric(v: Value) { v.Null? || v.Bool? || v.Num? }

  /**
    Two values of one comparable kind: both strings, or both null/boolean/number.  On
    values of one kind `<` is a strict weak order; across kinds (or with `undefined`) it
    is not, and ECMAScript leaves the order of such a sort to the implementation.
   */
  predicate SameKind(a: Value, b: Value)
  {
    (a.Str? && b.Str?) || (IsNumeric(a) && IsNumeric(b))
  }

  lemma LessAsymmetric(a: Value, b: Value)
    ensures !(Less(a, b) && Less(b, a))
    ensures !Less(a, a)
  {
    if a.Str? && b.Str? { StrLessAsymmetric(a.s, b.s); }
    if a.Str? { StrLessIrreflexive(a.s); }
  }

  /** Not-less is transitive too on one kind: the incomparability of a weak order. */
  lemma LessNegativelyTransitive(a: Value, b: Value, c: Value)
    requires SameKind(a, b) && SameKind(b, c)
    requires !Less(a, b) && !Less(b, c)
    ensures !Less(a, c)
  {
    if a.Str? {
      if a.s != b.s && b.s != c.s {
        StrLessTotal(a.s, b.s);
        StrLessTotal(b.s, c.s);
        StrLessTransitive(c.s, b.s, a.s);
        StrLessAsymmetric(a.s, c.s);
      } else if a.s != b.s {
        StrLessTotal(a.s, b.s);
        StrLessAsymmetric(a.s, c.s);
      }
    }
  }

  /** On values of one kind, being tied is transitive (it is an equivalence). */
  lemma TiedIsEquivalence(a: Value, b: Value, c: Value)
    requires SameKind(a, b) && SameKind(b, c)
    requires Tied(a, b) && Tied(b, c)
    ensures Tied(a, c)
  {
    LessNegativelyTransitive(a, b, c);
    LessNegativelyTransitive(c, b, a);
  }
}
