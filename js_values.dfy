/** The JavaScript values and built-in conversions that the portal's logic relies on:
    optional values, Date objects (a millisecond time value or an invalid date),
    the truncating `Math.trunc`/`%` arithmetic of numbers, and the decimal
    rendering and reading of integers (`n + ""`, `String(n)`, `+s`). */
module JsValues {

  datatype Option<+T> = None | Some(value: T)

  /** A JS `Date`: either a time value in milliseconds since the UTC epoch or the
      invalid date whose `getTime()` is NaN. */
  datatype JsDate = Time(ms: int) | InvalidDate

  /** A JS number as the query records hold it: an integer, or NaN (what `+s`
      gives for a string that is not a number). */
  datatype Num = Finite(n: int) | NaN

  /** JS truthiness of a number: 0 and NaN are falsy. */
  predicate NumTruthy(x: Num) {
    x.Finite? && x.n != 0
  }

  /** JS truthiness of a string: only "" is falsy. */
  predicate StrTruthy(s: string) {
    |s| > 0
  }

  /** Division truncated toward zero, as `Math.trunc(a / b)` computes it for a positive divisor
      (Dafny's own `/` rounds toward negative infinity for a negative dividend). */
  function TruncDiv(a: int, b: int): (q: int)
    requires b > 0
    ensures 0 <= a ==> 0 <= q * b <= a < q * b + b
    ensures a < 0 ==> q * b - b < a <= q * b <= 0
  {
    if a >= 0 then
      DivBounds(a, b);
      a / b
    else
      DivBounds(-a, b);
      -((-a) / b)
  }

  lemma DivBounds(a: nat, b: int)
    requires b > 0
    ensures 0 <= (a / b) * b <= a < (a / b) * b + b
  {
  }

  /** The JS remainder `a % b`: its sign is that of the dividend. */
  function JsRem(a: int, b: int): (r: int)
    requires b > 0
    ensures a == TruncDiv(a, b) * b + r
    ensures 0 <= a ==> 0 <= r < b
    ensures a < 0 ==> -b < r <= 0
  {
    if a >= 0 then a % b else -((-a) % b)
  }

  /** Truncation is symmetric about zero: this is what makes a time difference change
      sign, and only sign, when its arguments are swapped. */
  lemma TruncDivNegate(a: int, b: int)
    requires b > 0
    ensures TruncDiv(-a, b) == -TruncDiv(a, b)
  {
  }

  predicate IsDigit(c: char) {
    '0' <= c <= '9'
  }

  predicate AllDigits(s: string) {
    forall i :: 0 <= i < |s| ==> IsDigit(s[i])
  }

  function DigitChar(d: nat): (c: char)
    requires d < 10
    ensures IsDigit(c) && c as int - '0' as int == d
  {
    ['0', '1', '2', '3', '4', '5', '6', '7', '8', '9'][d]
  }

  /** The decimal numeral of a natural number, without leading zeros. */
  function NatToString(n: nat): (s: string)
    ensures |s| > 0 && AllDigits(s)
    ensures n < 10 <==> |s| == 1
    decreases n
  {
    if n < 10 then [DigitChar(n)] else NatToString(n / 10) + [DigitChar(n % 10)]
  }

  /** `String(i)` of an integer-valued number: an optional minus sign and the digits. */
  function IntToString(i: int): (s: string)
    ensures |s| > 0
    ensures i >= 0 <==> s[0] != '-'
  {
    if i >= 0 then NatToString(i) else "-" + NatToString(-i)
  }

  /** The value of a string of decimal digits. */
  function DigitsValue(s: string): (v: nat)
    requires AllDigits(s)
    decreases |s|
  {
    if |s| == 0 then 0
    else DigitsValue(s[..|s| - 1]) * 10 + (s[|s| - 1] as int - '0' as int)
  }

  /** `+s` on a decimal numeral: an optional minus sign followed by at least one digit
      reads as that integer; any other string reads as NaN. */
  function ParseNumber(s: string): (x: Num)
    ensures x.Finite? ==> |s| > 0
  {
    if |s| > 0 && AllDigits(s) then Finite(DigitsValue(s))
    else if |s| > 1 && s[0] == '-' && AllDigits(s[1..]) then Finite(-(DigitsValue(s[1..]) as int))
    else NaN
  }

  lemma {:induction false} NatToStringRoundTrip(n: nat)
    ensures DigitsValue(NatToString(n)) == n
    decreases n
  {
    if n >= 10 {
      var s := NatToString(n);
      NatToStringRoundTrip(n / 10);
      assert s[..|s| - 1] == NatToString(n / 10);
    }
  }

  /** Reading back the rendering of an integer gives the integer: `+(n + "") == n`. */
  lemma IntToStringRoundTrip(i: int)
    ensures ParseNumber(IntToString(i)) == Finite(i)
  {
    if i >= 0 {
      NatToStringRoundTrip(i);
    } else {
      NatToStringRoundTrip(-i);
      NegativeNumeral(NatToString(-i));
    }
  }

  /** A minus sign before a digit string reads as the negated value. */
  lemma NegativeNumeral(digits: string)
    requires |digits| > 0 && AllDigits(digits)
    ensures ParseNumber("-" + digits) == Finite(-(DigitsValue(digits) as int))
  {
    var s := "-" + digits;
    assert s[1..] == digits;
    assert !IsDigit(s[0]);
  }

  /** `s.padStart(2, "0")`: a string shorter than two characters gets leading zeros. */
  function PadStart2(s: string): (p: string)
    ensures |s| >= 2 ==> p == s
    ensures |s| < 2 ==> |p| == 2 && p[2 - |s|..] == s && forall i :: 0 <= i < 2 - |s| ==> p[i] == '0'
  {
    if |s| >= 2 then s else seq(2 - |s|, _ => '0') + s
  }

  /** A number from 0 to 99 rendered with exactly two digits. */
  function TwoDigits(n: nat): (s: string)
    requires n < 100
    ensures |s| == 2 && AllDigits(s)
    ensures (s[0] as int - '0' as int) * 10 + (s[1] as int - '0' as int) == n
  {
    var p := PadStart2(NatToString(n));
    if n < 10 then
      assert p == ['0', DigitChar(n)];
      p
    else
      assert NatToString(n) == [DigitChar(n / 10), DigitChar(n % 10)];
      p
  }
}
