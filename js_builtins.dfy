/** The pieces of the JavaScript standard library that the input component leans on:
    the white-space classes of strings, `String.prototype.trimEnd`, `parseInt` with
    radix 16, and the conversion a `Uint8Array` applies to each number stored in it.
    Strings are sequences of characters; numbers that `parseInt` yields are kept as
    exact integers (or NaN). */
module JsBuiltins {

  /** An element of a `Uint8Array`. */
  newtype uint8 = x: int | 0 <= x < 256

  /** LineTerminator: LF, CR, LINE SEPARATOR and PARAGRAPH SEPARATOR. */
  predicate IsLineTerminator(c: char) {
    c == '\n' || c == '\r' || c == '\U{2028}' || c == '\U{2029}'
  }

  /** WhiteSpace: TAB, VT, FF, SPACE, NO-BREAK SPACE, ZERO WIDTH NO-BREAK SPACE and
      the space separators of Unicode category Zs. */
  predicate IsWhiteSpace(c: char) {
    || c == '\t' || c == '\U{000B}' || c == '\U{000C}' || c == ' '
    || c == '\U{00A0}' || c == '\U{FEFF}' || c == '\U{1680}'
    || ('\U{2000}' <= c <= '\U{200A}')
    || c == '\U{202F}' || c == '\U{205F}' || c == '\U{3000}'
  }

  /** The characters that `trimEnd` and `parseInt` strip: white space and line terminators. */
  predicate IsTrimmable(c: char) {
    IsWhiteSpace(c) || IsLineTerminator(c)
  }

  /** `s.trimEnd()`: the longest prefix of `s` that does not end in a trimmable character. */
  function TrimEnd(s: string): (r: string)
    ensures r <= s
    ensures r == [] || !IsTrimmable(r[|r| - 1])
    ensures forall i :: |r| <= i < |s| ==> IsTrimmable(s[i])
  {
    if s != [] && IsTrimmable(s[|s| - 1]) then TrimEnd(s[..|s| - 1]) else s
  }

  /** The leading-white-space strip that `parseInt` performs first. */
  function TrimStart(s: string): (r: string)
    ensures |r| <= |s| && r == s[|s| - |r|..]
    ensures r == [] || !IsTrimmable(r[0])
    ensures forall i :: 0 <= i < |s| - |r| ==> IsTrimmable(s[i])
  {
    if s != [] && IsTrimmable(s[0]) then TrimStart(s[1..]) else s
  }

  predicate IsHexDigit(c: char) {
    '0' <= c <= '9' || 'a' <= c <= 'f' || 'A' <= c <= 'F'
  }

  /** The value of a base-16 digit; letters of either case. */
  function DigitValue(c: char): (d: nat)
    requires IsHexDigit(c)
    ensures d < 16
    ensures d < 10 <==> '0' <= c <= '9'
  {
    if '0' <= c <= '9' then c as int - '0' as int
    else if 'a' <= c <= 'f' then c as int - 'a' as int + 10
    else c as int - 'A' as int + 10
  }

  /** The longest prefix of `s` made of base-16 digits. */
  function LeadingHexDigits(s: string): (z: string)
    ensures z <= s
    ensures forall i :: 0 <= i < |z| ==> IsHexDigit(z[i])
    ensures |z| == |s| || !IsHexDigit(s[|z|])
  {
    if s != [] && IsHexDigit(s[0]) then [s[0]] + LeadingHexDigits(s[1..]) else []
  }

  /** The number a string of base-16 digits denotes, most significant digit first. */
  function HexValue(z: string): (v: nat)
    requires forall i :: 0 <= i < |z| ==> IsHexDigit(z[i])
    ensures |z| == 1 ==> v == DigitValue(z[0])
    ensures |z| == 2 ==> v == 16 * DigitValue(z[0]) + DigitValue(z[1])
  {
    if z == [] then 0 else 16 * HexValue(z[..|z| - 1]) + DigitValue(z[|z| - 1])
  }

  /** What `parseInt` returns: NaN, or an integer (its sign kept; -0 and +0 both read 0). */
  datatype Parsed = NaN | Int(value: int)

  /** `parseInt(s, 16)`: strip leading white space, read an optional sign, drop a
      "0x"/"0X" prefix, then read the longest run of base-16 digits; no digits is NaN. */
  function ParseInt16(s: string): Parsed {
    var t := TrimStart(s);
    var negative := t != [] && t[0] == '-';
    var u := if t != [] && (t[0] == '-' || t[0] == '+') then t[1..] else t;
    var v := if |u| >= 2 && u[0] == '0' && (u[1] == 'x' || u[1] == 'X') then u[2..] else u;
    var z := LeadingHexDigits(v);
    if z == [] then NaN
    else if negative then Int(-(HexValue(z) as int))
    else Int(HexValue(z))
  }

  /** The conversion a `Uint8Array` applies to a stored number: NaN becomes 0,
      an integer is taken modulo 256. */
  function ToUint8(n: Parsed): (b: uint8)
    ensures n.NaN? ==> b == 0
    ensures n.Int? ==> (n.value - b as int) % 256 == 0
    ensures n.Int? && 0 <= n.value < 256 ==> b as int == n.value
  {
    match n
    case NaN => 0
    case Int(v) => (v % 256) as uint8
  }
}
