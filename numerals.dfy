/**
 * Decimal text of integers, the 32-bit range of PostgreSQL `integer`
 * columns, and JavaScript's `parseInt(s, 10)`.
 */
module Numerals {
  import opened Wrappers
  import opened JsText

  const Int32Min: int := -0x8000_0000
  const Int32Max: int := 0x7FFF_FFFF

  /** Fits a PostgreSQL `integer` (int4) column or parameter. */
  predicate InInt32(n: int) {
    Int32Min <= n <= Int32Max
  }

  predicate IsDigit(c: char) {
    '0' <= c <= '9'
  }

  predicate AllDigits(s: string) {
    forall i :: 0 <= i < |s| ==> IsDigit(s[i])
  }

  function DigitValue(c: char): (d: nat)
    requires IsDigit(c)
    ensures d < 10
  {
    c as int - '0' as int
  }

  function DigitChar(d: nat): (c: char)
    requires d < 10
    ensures IsDigit(c) && DigitValue(c) == d
  {
    ('0' as int + d) as char
  }

  /** The canonical decimal text of a natural number, as `String(n)` gives it. */
  function Decimal(n: nat): (s: string)
    ensures s != [] && AllDigits(s)
    ensures n < 10 <==> |s| == 1
  {
    if n < 10 then [DigitChar(n)] else Decimal(n / 10) + [DigitChar(n % 10)]
  }

  /** `String(n)` for an integer. */
  function IntText(n: int): string {
    if n < 0 then "-" + Decimal(-n) else Decimal(n)
  }

  /** The value of a string of decimal digits (leading zeros allowed). */
  function DigitsValue(s: string): nat
    requires AllDigits(s)
  {
    if s == [] then 0 else DigitsValue(s[..|s| - 1]) * 10 + DigitValue(s[|s| - 1])
  }

  /** Two digits read as tens and units. */
  lemma TwoDigitsValue(d: string)
    requires |d| == 2 && IsDigit(d[0]) && IsDigit(d[1])
    ensures AllDigits(d) && DigitsValue(d) == DigitValue(d[0]) * 10 + DigitValue(d[1])
  {
    var first := d[..1];
    assert first[..0] == [] && first[0] == d[0];
    assert DigitsValue(first) == DigitValue(d[0]);
    assert d[..|d| - 1] == first;
  }

  /** Reading back the decimal text of `n` gives `n`. */
  lemma {:induction false} DigitsValueOfDecimal(n: nat)
    ensures DigitsValue(Decimal(n)) == n
  {
    if n >= 10 {
      var s := Decimal(n);
      assert s[..|s| - 1] == Decimal(n / 10);
      DigitsValueOfDecimal(n / 10);
    }
  }

  /** Different numbers have different decimal texts. */
  lemma DecimalInjective(a: nat, b: nat)
    requires Decimal(a) == Decimal(b)
    ensures a == b
  {
    DigitsValueOfDecimal(a);
    DigitsValueOfDecimal(b);
  }

  /** The longest prefix of `s` made of decimal digits. */
  function DigitPrefix(s: string): (p: string)
    ensures AllDigits(p) && |p| <= |s| && p == s[..|p|]
    ensures |p| < |s| ==> !IsDigit(s[|p|])
  {
    if s != [] && IsDigit(s[0]) then [s[0]] + DigitPrefix(s[1..]) else []
  }

  /**
   * `parseInt(s, 10)`: leading white space is skipped, an optional sign is
   * read, then the longest run of digits; None stands for NaN (no digit).
   */
  function JsParseInt(s: string): (r: Option<int>)
    ensures AllSpace(s) ==> r == None
  {
    var t := TrimStart(s);
    var negative := |t| > 0 && t[0] == '-';
    var body := if |t| > 0 && (t[0] == '-' || t[0] == '+') then t[1..] else t;
    var digits := DigitPrefix(body);
    var magnitude: int := if digits == [] then 0 else DigitsValue(digits);
    if digits == [] then None
    else if negative then Some(-magnitude)
    else Some(magnitude)
  }

  /** `parseInt` reads back the decimal text of any natural number. */
  lemma JsParseIntOfDecimal(n: nat)
    ensures JsParseInt(Decimal(n)) == Some(n)
  {
    var s := Decimal(n);
    assert !IsSpace(s[0]);
    assert TrimStart(s) == s;
    assert DigitPrefix(s) == s;
    DigitsValueOfDecimal(n);
  }

  /** `parseInt` of a text made only of digits is their value. */
  lemma JsParseIntOfDigitText(d: string)
    requires d != [] && AllDigits(d)
    ensures JsParseInt(d) == Some(DigitsValue(d))
  {
    DigitNotSpace(d[0]);
    assert "" + d == d && d + "" == d;
    TrimStartPadding("", d);
    DigitPrefixOfDigits(d, "");
    JsParseIntOfDigits(d, d, "");
  }

  /** The digit run of a text that starts with digits ends where they end. */
  lemma {:induction false} DigitPrefixOfDigits(d: string, rest: string)
    requires AllDigits(d) && (rest == [] || !IsDigit(rest[0]))
    ensures DigitPrefix(d + rest) == d
    decreases |d|
  {
    if d == [] {
      assert d + rest == rest;
    } else {
      assert (d + rest)[0] == d[0] && (d + rest)[1..] == d[1..] + rest;
      DigitPrefixOfDigits(d[1..], rest);
    }
  }

  /**
   * `parseInt` skips leading white space and stops at the first character
   * after the digits: a number's text with anything but a digit after it
   * reads as that number.
   */
  lemma JsParseIntReadsLeadingNumber(pre: string, n: nat, rest: string)
    requires AllSpace(pre) && (rest == [] || !IsDigit(rest[0]))
    ensures JsParseInt(pre + Decimal(n) + rest) == Some(n)
  {
    var d := Decimal(n);
    AppendAssoc(pre, d, rest);
    DigitNotSpace(d[0]);
    assert (d + rest)[0] == d[0];
    TrimStartPadding(pre, d + rest);
    DigitPrefixOfDigits(d, rest);
    DigitsValueOfDecimal(n);
    JsParseIntOfDigits(pre + d + rest, d, rest);
  }

  /** Text that starts, after its white space, with digits reads as their value. */
  lemma JsParseIntOfDigits(s: string, d: string, rest: string)
    requires d != [] && IsDigit(d[0]) && TrimStart(s) == d + rest && DigitPrefix(d + rest) == d
    ensures JsParseInt(s) == Some(DigitsValue(d))
  {
    assert (d + rest)[0] == d[0];
  }

  /** No ASCII digit is white space. */
  lemma DigitNotSpace(c: char)
    requires IsDigit(c)
    ensures !IsSpace(c)
  {
  }
}
