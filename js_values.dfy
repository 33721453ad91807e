/**
 * The JavaScript values that reach the query builders as option and
 * property values, and the conversions the builders apply to them:
 * truthiness (`if (options[e])`), conversion to a string (template
 * literals) and the global `parseInt` with no radix argument.
 *
 * Numbers are modelled as integers plus NaN: the builders only parse
 * integers out of their inputs and multiply them by 100.
 */
module JsValues {

  datatype JsValue = Undefined | Null | Bool(b: bool) | Num(n: int) | NaN | Str(s: string)

  /** ToBoolean: the falsy values are undefined, null, false, 0, NaN and "". */
  predicate Truthy(v: JsValue) {
    match v
    case Undefined => false
    case Null => false
    case Bool(b) => b
    case Num(n) => n != 0
    case NaN => false
    case Str(s) => s != ""
  }

  // ---------------------------------------------------------------------
  // Digits

  /** The value of `c` as a digit in radix 36, or 36 when `c` is no digit at all. */
  function DigitValue(c: char): nat {
    if '0' <= c <= '9' then c as int - '0' as int
    else if 'a' <= c <= 'z' then c as int - 'a' as int + 10
    else if 'A' <= c <= 'Z' then c as int - 'A' as int + 10
    else 36
  }

  function DigitChar(d: nat): (c: char)
    requires d < 10
    ensures '0' <= c <= '9' && DigitValue(c) == d
  {
    (d + '0' as int) as char
  }

  /** The decimal numeral of `n`, as `String(n)` writes it. */
  function NatToString(n: nat): (s: string)
    ensures |s| > 0
    ensures forall i :: 0 <= i < |s| ==> '0' <= s[i] <= '9'
  {
    if n < 10 then [DigitChar(n)] else NatToString(n / 10) + [DigitChar(n % 10)]
  }

  function IntToString(i: int): string {
    if i < 0 then "-" + NatToString(-i) else NatToString(i)
  }

  /** ToString of a value, as a template literal applies it. */
  function ToStr(v: JsValue): string {
    match v
    case Undefined => "undefined"
    case Null => "null"
    case Bool(b) => if b then "true" else "false"
    case Num(n) => IntToString(n)
    case NaN => "NaN"
    case Str(s) => s
  }

  // ---------------------------------------------------------------------
  // parseInt

  /** StrWhiteSpaceChar: WhiteSpace (including every Zs space) and LineTerminator. */
  predicate IsStrWhiteSpace(c: char) {
    || c == '\t' || c == '\U{B}' || c == '\U{C}' || c == ' ' || c == '\U{A0}' || c == '\U{FEFF}'
    || c == '\U{1680}' || ('\U{2000}' <= c <= '\U{200A}') || c == '\U{202F}' || c == '\U{205F}'
    || c == '\U{3000}'
    || c == '\n' || c == '\r' || c == '\U{2028}' || c == '\U{2029}'
  }

  function TrimStart(s: string): (t: string)
    ensures |t| <= |s| && t == s[|s| - |t|..]
    ensures t == [] || !IsStrWhiteSpace(t[0])
  {
    if s != [] && IsStrWhiteSpace(s[0]) then TrimStart(s[1..]) else s
  }

  /** The length of the longest prefix of `s` made of radix-`radix` digits. */
  function DigitPrefixLength(s: string, radix: nat): (k: nat)
    ensures k <= |s|
    ensures forall i :: 0 <= i < k ==> DigitValue(s[i]) < radix
    ensures k == |s| || DigitValue(s[k]) >= radix
  {
    if s == [] || DigitValue(s[0]) >= radix then 0 else 1 + DigitPrefixLength(s[1..], radix)
  }

  /** The number that the digit string `z` denotes in radix `radix`. */
  function DigitsValue(z: string, radix: nat): nat {
    if z == [] then 0
    else DigitsValue(z[..|z| - 1], radix) * radix + DigitValue(z[|z| - 1])
  }

  /** Whether `parseInt` reads a minus sign after the white space. */
  predicate Negative(t: string) {
    |t| > 0 && t[0] == '-'
  }

  /** What follows an optional `+` or `-`. */
  function AfterSign(t: string): string {
    if |t| > 0 && (t[0] == '-' || t[0] == '+') then t[1..] else t
  }

  predicate HasHexPrefix(u: string) {
    |u| >= 2 && u[0] == '0' && (u[1] == 'x' || u[1] == 'X')
  }

  function Radix(u: string): nat {
    if HasHexPrefix(u) then 16 else 10
  }

  /** The digits `parseInt` reads from the unsigned text `u`. */
  function DigitRun(u: string): string {
    var w := if HasHexPrefix(u) then u[2..] else u;
    w[..DigitPrefixLength(w, Radix(u))]
  }

  /**
   * `parseInt(s)` with no radix: skip leading white space, take an optional
   * sign, take radix 16 after a `0x` or `0X` prefix and radix 10 otherwise,
   * and read the longest run of digits; NaN when that run is empty.
   */
  function ParseInt(s: string): (r: JsValue)
    ensures r.Num? || r.NaN?
  {
    var t := TrimStart(s);
    ParseUnsigned(Negative(t), AfterSign(t))
  }

  /** What `parseInt` reads from the text `u` after the sign, negated when a minus sign came first. */
  function ParseUnsigned(negative: bool, u: string): (r: JsValue)
    ensures r.Num? || r.NaN?
  {
    var z := DigitRun(u);
    if z == [] then NaN
    else
      var v: int := DigitsValue(z, Radix(u));
      Num(if negative then -v else v)
  }

  /** `parseInt(v)`: the argument is first converted to a string. */
  function ParseIntValue(v: JsValue): (r: JsValue)
    ensures r.Num? || r.NaN?
  {
    ParseInt(ToStr(v))
  }

  /** `x * 100` for a result `x` of `parseInt`: NaN stays NaN. */
  function Times100(v: JsValue): JsValue {
    if v.Num? then Num(v.n * 100) else NaN
  }

  // ---------------------------------------------------------------------
  // Numerals read back

  lemma {:induction false} DigitsValueOfNatToString(n: nat)
    ensures DigitsValue(NatToString(n), 10) == n
  {
    var s := NatToString(n);
    if n >= 10 {
      DigitsValueOfNatToString(n / 10);
      assert s[..|s| - 1] == NatToString(n / 10);
    }
  }

  lemma {:induction false} DigitPrefixOfDigits(s: string, radix: nat)
    requires forall i :: 0 <= i < |s| ==> DigitValue(s[i]) < radix
    ensures DigitPrefixLength(s, radix) == |s|
  {
    if s != [] {
      assert DigitValue(s[0]) < radix;
      DigitPrefixOfDigits(s[1..], radix);
    }
  }

  /** A decimal numeral is read whole, in radix 10. */
  lemma DigitRunOfDecimal(d: string)
    requires |d| > 0 && forall k :: 0 <= k < |d| ==> '0' <= d[k] <= '9'
    ensures Radix(d) == 10 && DigitRun(d) == d
  {
    assert forall k :: 0 <= k < |d| ==> DigitValue(d[k]) < 10;
    DigitPrefixOfDigits(d, 10);
  }

  /** After the sign, a decimal numeral is read whole as the number it denotes. */
  lemma ParseUnsignedDecimal(negative: bool, d: string)
    requires |d| > 0 && forall k :: 0 <= k < |d| ==> '0' <= d[k] <= '9'
    ensures ParseUnsigned(negative, d) ==
      Num(if negative then -(DigitsValue(d, 10) as int) else DigitsValue(d, 10))
  {
    DigitRunOfDecimal(d);
  }

  /** A decimal numeral is read as the number it denotes. */
  lemma ParseIntOfNumeral(d: string)
    requires |d| > 0 && forall k :: 0 <= k < |d| ==> '0' <= d[k] <= '9'
    ensures ParseInt(d) == Num(DigitsValue(d, 10))
  {
    NotWhiteSpace(d[0]);
    assert TrimStart(d) == d;
    assert !Negative(d) && AfterSign(d) == d;
    ParseUnsignedDecimal(false, d);
  }

  /** A minus sign followed by a decimal numeral is read as the negated number. */
  lemma ParseIntOfNegatedNumeral(d: string)
    requires |d| > 0 && forall k :: 0 <= k < |d| ==> '0' <= d[k] <= '9'
    ensures ParseInt("-" + d) == Num(-(DigitsValue(d, 10) as int))
  {
    var t := "-" + d;
    NotWhiteSpace(t[0]);
    assert TrimStart(t) == t;
    assert t[0] == '-' && t[1..] == d;
    assert Negative(t) && AfterSign(t) == d;
    ParseUnsignedDecimal(true, d);
  }

  lemma NotWhiteSpace(c: char)
    requires c == '-' || '0' <= c <= '9'
    ensures !IsStrWhiteSpace(c)
  {
  }

  /** `parseInt(String(n))` gives back the integer `n`. */
  lemma ParseIntOfIntToString(i: int)
    ensures ParseInt(IntToString(i)) == Num(i)
  {
    if i < 0 {
      DigitsValueOfNatToString(-i);
      ParseIntOfNegatedNumeral(NatToString(-i));
    } else {
      DigitsValueOfNatToString(i);
      ParseIntOfNumeral(NatToString(i));
    }
  }

  /** The text of a whole number, as a query string carries it, is parsed back to that number. */
  lemma ParseIntValueOfText(n: int)
    ensures ParseIntValue(Str(IntToString(n))) == Num(n)
  {
    ParseIntOfIntToString(n);
  }

  /** A number option is parsed back to itself. */
  lemma ParseIntValueOfNum(n: int)
    ensures ParseIntValue(Num(n)) == Num(n)
  {
    ParseIntOfIntToString(n);
  }
}
