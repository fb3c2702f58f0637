/**
  `AppUtils.color.hexToRgb` and `AppUtils.color.rgbToHex`.  `hexToRgb` matches
  `/^#?([a-f\d]{2})([a-f\d]{2})([a-f\d]{2})$/i` and reads each pair as a base-16 number;
  `rgbToHex` computes `'#' + ((1 << 24) + (r << 16) + (g << 8) + b).toString(16).slice(1)`,
  with the shifts working on 32-bit two's-complement integers.
 */
module Color {
  import opened Wrappers
  import opened JsStrings

  datatype Rgb = Rgb(r: int, g: int, b: int)

  /** `[a-f\d]` under the `i` flag. */
  predicate IsHexDigit(c: char)
  {
    IsDigit(c) || 'a' <= c <= 'f' || 'A' <= c <= 'F'
  }

  predicate AllHex(s: string) { forall i :: 0 <= i < |s| ==> IsHexDigit(s[i]) }

  /** `parseInt(c, 16)` on one hex digit. */
  function HexDigitValue(c: char): (d: nat)
    requires IsHexDigit(c)
    ensures d < 16
  {
    if IsDigit(c) then c as int - '0' as int
    else if 'a' <= c <= 'f' then c as int - 'a' as int + 10
    else c as int - 'A' as int + 10
  }

  /** The lowercase digit `Number.prototype.toString(16)` writes for `d`. */
  function HexChar(d: nat): (c: char)
    requires d < 16
    ensures IsHexDigit(c) && !IsUpperAscii(c)
  {
    if d < 10 then ('0' as int + d) as char else ('a' as int + d - 10) as char
  }

  /** The six digits the pattern captures, or `None` when `hex` does not match. */
  function MatchedDigits(hex: string): (m: Option<string>)
    ensures m.Some? ==> |m.value| == 6 && AllHex(m.value)
  {
    if |hex| == 7 && hex[0] == '#' && AllHex(hex[1..]) then Some(hex[1..])
    else if |hex| == 6 && AllHex(hex) then Some(hex)
    else None
  }

  function PairValue(hi: char, lo: char): nat
    requires IsHexDigit(hi) && IsHexDigit(lo)
  {
    16 * HexDigitValue(hi) + HexDigitValue(lo)
  }

  /** `color.hexToRgb(hex)`; `None` is the `null` returned when the pattern does not match. */
  function HexToRgb(hex: string): (c: Option<Rgb>)
    ensures c.Some? <==> MatchedDigits(hex).Some?
    ensures c.Some? ==> 0 <= c.value.r < 256 && 0 <= c.value.g < 256 && 0 <= c.value.b < 256
  {
    match MatchedDigits(hex)
    case None => None
    case Some(d) => Some(Rgb(PairValue(d[0], d[1]), PairValue(d[2], d[3]), PairValue(d[4], d[5])))
  }

  /** ToInt32: the 32-bit two's-complement reading of an integer, as `<<` applies to its operands and result. */
  function ToInt32(x: int): int
  {
    var m := x % 0x1_0000_0000;
    if m >= 0x8000_0000 then m - 0x1_0000_0000 else m
  }

  /** The lowercase base-16 digits of a non-negative integer, without leading zeros. */
  function HexString(n: nat): (s: string)
    ensures s != []
  {
    if n < 16 then [HexChar(n)] else HexString(n / 16) + [HexChar(n % 16)]
  }

  /** `n.toString(16)` for an integer `n`. */
  function NumberToHex(n: int): (s: string)
    ensures s != []
  {
    if n < 0 then "-" + HexString(-n) else HexString(n)
  }

  /** `color.rgbToHex(r, g, b)` for integer arguments. */
  function RgbToHex(r: int, g: int, b: int): string
  {
    var total := 0x100_0000 + ToInt32(ToInt32(r) * 0x1_0000) + ToInt32(ToInt32(g) * 0x100) + b;
    "#" + NumberToHex(total)[1..]
  }

  /** The two lowercase digits of a channel. */
  function Hex2(x: int): string
    requires 0 <= x < 256
  {
    [HexChar(x / 16), HexChar(x % 16)]
  }

  lemma HexStringStep(q: nat, d: nat)
    requires q >= 1 && d < 16
    ensures HexString(q * 16 + d) == HexString(q) + [HexChar(d)]
  {
    assert (q * 16 + d) / 16 == q && (q * 16 + d) % 16 == d;
  }

  /** Appending a byte to a number appends its two digits. */
  lemma HexAppendByte(q: nat, x: int)
    requires q >= 1 && 0 <= x < 256
    ensures HexString(q * 256 + x) == HexString(q) + Hex2(x)
  {
    HexStringStep(q, x / 16);
    HexStringStep(q * 16 + x / 16, x % 16);
    assert (q * 16 + x / 16) * 16 + x % 16 == q * 256 + x;
  }

  lemma HexThreeDigits(c: nat, r: int)
    requires 1 <= c < 16 && 0 <= r < 256
    ensures HexString(c * 256 + r) == [HexChar(c)] + Hex2(r)
  {
    assert HexString(c) == [HexChar(c)];
    HexAppendByte(c, r);
  }

  lemma HexFiveDigits(c: nat, r: int, g: int)
    requires 1 <= c < 16 && 0 <= r < 256 && 0 <= g < 256
    ensures HexString((c * 256 + r) * 256 + g) == [HexChar(c)] + Hex2(r) + Hex2(g)
  {
    HexThreeDigits(c, r);
    HexAppendByte(c * 256 + r, g);
  }

  /** A leading digit `c` followed by three bytes prints as seven digits. */
  lemma HexSevenDigits(c: nat, r: int, g: int, b: int)
    requires 1 <= c < 16 && 0 <= r < 256 && 0 <= g < 256 && 0 <= b < 256
    ensures HexString(((c * 256 + r) * 256 + g) * 256 + b) == [HexChar(c)] + Hex2(r) + Hex2(g) + Hex2(b)
  {
    HexFiveDigits(c, r, g);
    HexAppendByte((c * 256 + r) * 256 + g, b);
  }

  /**
    For channels in 0..255 the result is `#` followed by exactly six lowercase hex digits,
    two per channel in r, g, b order.
   */
  lemma RgbToHexDigits(r: int, g: int, b: int)
    requires 0 <= r < 256 && 0 <= g < 256 && 0 <= b < 256
    ensures RgbToHex(r, g, b) == "#" + Hex2(r) + Hex2(g) + Hex2(b)
  {
    assert ToInt32(r) == r && ToInt32(g) == g;
    assert ToInt32(r * 0x1_0000) == r * 0x1_0000;
    assert ToInt32(g * 0x100) == g * 0x100;
    HexSevenDigits(1, r, g, b);
    assert ((256 + r) * 256 + g) * 256 + b == 0x100_0000 + r * 0x1_0000 + g * 0x100 + b;
  }

  lemma HexCharValue(d: nat)
    requires d < 16
    ensures HexDigitValue(HexChar(d)) == d
  {
  }

  lemma PairOfHex2(x: int)
    requires 0 <= x < 256
    ensures PairValue(Hex2(x)[0], Hex2(x)[1]) == x
  {
    HexCharValue(x / 16);
    HexCharValue(x % 16);
  }

  /** `hexToRgb(rgbToHex(r, g, b))` gives back the channels when they are in 0..255. */
  lemma RgbRoundTrip(r: int, g: int, b: int)
    requires 0 <= r < 256 && 0 <= g < 256 && 0 <= b < 256
    ensures HexToRgb(RgbToHex(r, g, b)) == Some(Rgb(r, g, b))
  {
    RgbToHexDigits(r, g, b);
    var h := RgbToHex(r, g, b);
    assert |h| == 7 && h[0] == '#' && AllHex(h[1..]);
    var d := h[1..];
    assert d == Hex2(r) + Hex2(g) + Hex2(b);
    PairOfHex2(r);
    PairOfHex2(g);
    PairOfHex2(b);
    assert d[0] == Hex2(r)[0] && d[1] == Hex2(r)[1];
    assert d[2] == Hex2(g)[0] && d[3] == Hex2(g)[1];
    assert d[4] == Hex2(b)[0] && d[5] == Hex2(b)[1];
  }

  lemma Hex2OfPair(hi: char, lo: char)
    requires IsHexDigit(hi) && IsHexDigit(lo)
    ensures Hex2(PairValue(hi, lo)) == [LowerChar(hi), LowerChar(lo)]
  {
    var p := PairValue(hi, lo);
    assert p / 16 == HexDigitValue(hi) && p % 16 == HexDigitValue(lo);
  }

  /**
    `rgbToHex` of a successful `hexToRgb(hex)` is the matched six digits lowercased, after
    a `#`: the colour is normalised, not changed.
   */
  lemma HexRoundTrip(hex: string)
    requires HexToRgb(hex).Some?
    ensures var c := HexToRgb(hex).value;
            RgbToHex(c.r, c.g, c.b) == "#" + ToLower(MatchedDigits(hex).value)
  {
    var d := MatchedDigits(hex).value;
    var c := HexToRgb(hex).value;
    RgbToHexDigits(c.r, c.g, c.b);
    Hex2OfPair(d[0], d[1]);
    Hex2OfPair(d[2], d[3]);
    Hex2OfPair(d[4], d[5]);
    assert ToLower(d) == [LowerChar(d[0]), LowerChar(d[1])] + [LowerChar(d[2]), LowerChar(d[3])]
      + [LowerChar(d[4]), LowerChar(d[5])];
  }

  /**
    Channels outside 0..255 are not rejected: a red channel in 256..511 carries into the
    digit that `slice(1)` drops, so it prints as the red channel 256 lower.
   */
  lemma RgbToHexRedCarry(r: int, g: int, b: int)
    requires 256 <= r < 512 && 0 <= g < 256 && 0 <= b < 256
    ensures RgbToHex(r, g, b) == RgbToHex(r - 256, g, b)
  {
    assert ToInt32(r) == r && ToInt32(g) == g;
    assert ToInt32(r * 0x1_0000) == r * 0x1_0000;
    assert ToInt32(g * 0x100) == g * 0x100;
    HexSevenDigits(2, r - 256, g, b);
    assert ((2 * 256 + (r - 256)) * 256 + g) * 256 + b == 0x100_0000 + r * 0x1_0000 + g * 0x100 + b;
    RgbToHexDigits(r - 256, g, b);
  }
}
