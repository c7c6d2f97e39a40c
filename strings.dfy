/**
 * The pieces of JavaScript's string/number conversion that the module relies
 * on: the decimal rendering of an integer (template literals such as
 * `page${n}`), `parseInt(s)` with no radix, and the unary `+s` conversion.
 * Only integer syntax is modelled; see README.md for what is left out.
 */
module Strings {
  import opened Wrappers

  /** ECMAScript WhiteSpace and LineTerminator code points. */
  predicate IsJsSpace(c: char) {
    c == '\t' || c == '\n' || c == '\U{000B}' || c == '\U{000C}' || c == '\r' || c == ' '
    || c == '\U{00A0}' || c == '\U{1680}' || ('\U{2000}' <= c <= '\U{200A}')
    || c == '\U{2028}' || c == '\U{2029}' || c == '\U{202F}' || c == '\U{205F}'
    || c == '\U{3000}' || c == '\U{FEFF}'
  }

  /** Leading white space removed (what `parseInt` skips first). */
  function TrimStart(s: string): (r: string)
    ensures |r| <= |s| && r == s[|s| - |r|..]
    ensures r == [] || !IsJsSpace(r[0])
    ensures forall i :: 0 <= i < |s| - |r| ==> IsJsSpace(s[i])
  {
    if s != [] && IsJsSpace(s[0]) then TrimStart(s[1..]) else s
  }

  /** Trailing white space removed. */
  function TrimEnd(s: string): (r: string)
    ensures |r| <= |s| && r == s[..|r|]
    ensures r == [] || !IsJsSpace(r[|r| - 1])
    ensures forall i :: |r| <= i < |s| ==> IsJsSpace(s[i])
  {
    if s != [] && IsJsSpace(s[|s| - 1]) then TrimEnd(s[..|s| - 1]) else s
  }

  /** The value of `c` as a digit in any radix up to 36; 36 for a character that is no digit. */
  function DigitValue(c: char): (v: nat)
    ensures v <= 36
    ensures v < 10 <==> '0' <= c <= '9'
  {
    if '0' <= c <= '9' then c as int - '0' as int
    else if 'a' <= c <= 'z' then c as int - 'a' as int + 10
    else if 'A' <= c <= 'Z' then c as int - 'A' as int + 10
    else 36
  }

  predicate IsDigit(c: char, radix: nat) {
    DigitValue(c) < radix
  }

  /** The decimal digit character for `d`. */
  function DigitChar(d: nat): (c: char)
    requires d < 10
    ensures DigitValue(c) == d
  {
    ('0' as int + d) as char
  }

  /** Length of the longest prefix of `s` made of digits of `radix`. */
  function DigitRun(s: string, radix: nat): (k: nat)
    ensures k <= |s|
    ensures forall i :: 0 <= i < k ==> IsDigit(s[i], radix)
    ensures k < |s| ==> !IsDigit(s[k], radix)
  {
    if s == [] || !IsDigit(s[0], radix) then 0 else 1 + DigitRun(s[1..], radix)
  }

  /** The number the digit string `s` denotes in `radix` (most significant digit first). */
  function DigitsValue(s: string, radix: nat): nat {
    if s == [] then 0 else DigitsValue(s[..|s| - 1], radix) * radix + DigitValue(s[|s| - 1])
  }

  /** Decimal rendering of a natural number, without leading zeros. */
  function NatToString(n: nat): (r: string)
    ensures r != []
    ensures forall i :: 0 <= i < |r| ==> IsDigit(r[i], 10)
    decreases n
  {
    if n < 10 then [DigitChar(n)] else NatToString(n / 10) + [DigitChar(n % 10)]
  }

  /** Decimal rendering of an integer, as a template literal renders it. */
  function IntToString(n: int): string {
    if n < 0 then "-" + NatToString(-n) else NatToString(n)
  }

  /**
   * `parseInt(s)` with no radix: leading white space skipped, an optional sign,
   * a `0x`/`0X` prefix switching to radix 16, then the longest run of digits;
   * `None` is NaN (no digit at all).
   */
  function ParseInt(s: string): Option<int> {
    var t := TrimStart(s);
    if t != [] && t[0] == '-' then
      match ParseMagnitude(t[1..])
      case None => None
      case Some(m) => Some(-m)
    else if t != [] && t[0] == '+' then ParseMagnitude(t[1..])
    else ParseMagnitude(t)
  }

  /** The unsigned part of `parseInt`: an optional `0x`/`0X` prefix, then digits. */
  function ParseMagnitude(u: string): Option<int> {
    if |u| >= 2 && u[0] == '0' && (u[1] == 'x' || u[1] == 'X') then LeadingDigits(u[2..], 16)
    else LeadingDigits(u, 10)
  }

  /** The value of the longest prefix of digits of `radix`, or `None` when there is none. */
  function LeadingDigits(v: string, radix: nat): Option<int> {
    var k := DigitRun(v, radix);
    if k == 0 then None else Some(DigitsValue(v[..k], radix))
  }

  /** A JavaScript number, as far as the model needs it: an integer, or NaN. */
  datatype JsNumber = NaN | Int(value: int) {
    /** JavaScript truthiness: NaN and 0 are falsy. */
    predicate Truthy() {
      Int? && value != 0
    }
  }

  /** True when the whole of `s` is a non-empty run of digits of `radix`. */
  predicate AllDigits(s: string, radix: nat) {
    s != [] && DigitRun(s, radix) == |s|
  }

  /**
   * Unary `+s` (ToNumber on a string), integer syntax only: white space
   * trimmed on both sides, the empty string is 0, `0x`/`0o`/`0b` prefixes
   * (unsigned), otherwise an optional sign and decimal digits; anything
   * else is NaN.
   */
  function ToNumber(s: string): JsNumber {
    var t := TrimEnd(TrimStart(s));
    if t == [] then Int(0)
    else if |t| >= 2 && t[0] == '0' && t[1] in {'x', 'X', 'o', 'O', 'b', 'B'} then
      var radix := if t[1] in {'x', 'X'} then 16 else if t[1] in {'o', 'O'} then 8 else 2;
      WholeDigits(t[2..], radix)
    else if t[0] == '-' then
      match WholeDigits(t[1..], 10)
      case Int(m) => Int(-m)
      case NaN => NaN
    else if t[0] == '+' then WholeDigits(t[1..], 10)
    else WholeDigits(t, 10)
  }

  /** `s` read as a whole, non-empty run of digits of `radix`; NaN otherwise. */
  function WholeDigits(s: string, radix: nat): JsNumber {
    if AllDigits(s, radix) then Int(DigitsValue(s, radix)) else NaN
  }

  // ---------------------------------------------------------------------------
  // Round trips between the rendering and the two parsers

  lemma {:induction false} DigitsValueOfNatToString(n: nat)
    ensures DigitsValue(NatToString(n), 10) == n
    decreases n
  {
    var r := NatToString(n);
    if n >= 10 {
      DigitsValueOfNatToString(n / 10);
      assert r[..|r| - 1] == NatToString(n / 10);
    }
  }

  lemma RunOfAllDigits(s: string, radix: nat)
    requires forall i :: 0 <= i < |s| ==> IsDigit(s[i], radix)
    ensures DigitRun(s, radix) == |s|
  {
  }

  /** The decimal rendering of `m` has no white space, sign or radix prefix in front. */
  lemma NatToStringShape(m: nat)
    ensures !IsJsSpace(NatToString(m)[0]) && !IsJsSpace(NatToString(m)[|NatToString(m)| - 1])
    ensures NatToString(m)[0] != '-' && NatToString(m)[0] != '+'
    ensures |NatToString(m)| >= 2 ==> !(NatToString(m)[1] in {'x', 'X', 'o', 'O', 'b', 'B'})
  {
    var r := NatToString(m);
    assert IsDigit(r[0], 10) && IsDigit(r[|r| - 1], 10);
    if |r| >= 2 { assert IsDigit(r[1], 10); }
  }

  lemma LeadingDigitsOfNatToString(m: nat)
    ensures ParseMagnitude(NatToString(m)) == Some(m)
    ensures WholeDigits(NatToString(m), 10) == Int(m)
  {
    var r := NatToString(m);
    RunOfAllDigits(r, 10);
    DigitsValueOfNatToString(m);
    NatToStringShape(m);
    assert r[..|r|] == r;
  }

  /** `parseInt` reads back exactly the integer a template literal renders. */
  lemma ParseIntOfIntToString(n: int)
    ensures ParseInt(IntToString(n)) == Some(n)
  {
    var m: nat := if n < 0 then -n else n;
    var r := NatToString(m);
    LeadingDigitsOfNatToString(m);
    NatToStringShape(m);
    var s := IntToString(n);
    assert TrimStart(s) == s;
    if n < 0 {
      assert s == "-" + r;
      assert s[1..] == r;
      assert ParseMagnitude(s[1..]) == Some(m);
    } else {
      assert s == r;
      assert s[0] != '-' && s[0] != '+';
    }
  }

  /** Unary `+` reads back exactly the integer a template literal renders. */
  lemma ToNumberOfIntToString(n: int)
    ensures ToNumber(IntToString(n)) == Int(n)
  {
    var m: nat := if n < 0 then -n else n;
    LeadingDigitsOfNatToString(m);
    NatToStringShape(m);
    var s := IntToString(n);
    assert TrimStart(s) == s;
    assert TrimEnd(s) == s;
    if n < 0 {
      assert s[1..] == NatToString(m);
    }
  }

  /** Distinct integers render differently. */
  lemma IntToStringInjective(a: int, b: int)
    requires IntToString(a) == IntToString(b)
    ensures a == b
  {
    ParseIntOfIntToString(a);
    ParseIntOfIntToString(b);
  }
}
