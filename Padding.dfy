/**
 * `String(n).padStart(2, '0')` for the whole, non-negative numbers a timer
 * shows, with the decimal reading that undoes it.
 */
module Padding {

  function DigitChar(d: nat): (c: char)
    requires d < 10
    ensures '0' <= c <= '9'
  {
    ('0' as int + d) as char
  }

  predicate IsDigit(c: char)
  {
    '0' <= c <= '9'
  }

  /** `String(n)`: the decimal numeral of `n`, with no leading zero. */
  function ToDecimal(n: nat): (s: string)
    ensures |s| >= 1
    ensures forall i :: 0 <= i < |s| ==> IsDigit(s[i])
    ensures n < 10 <==> |s| == 1
    ensures 10 <= n < 100 ==> |s| == 2
  {
    if n < 10 then [DigitChar(n)] else ToDecimal(n / 10) + [DigitChar(n % 10)]
  }

  /** `s.padStart(2, '0')`: a one-character string gets one leading '0'. */
  function PadStart2(s: string): (r: string)
    ensures |r| == if |s| < 2 then 2 else |s|
    ensures |s| >= 2 ==> r == s
    ensures |s| == 1 ==> r[0] == '0' && r[1..] == s
  {
    if |s| == 0 then "00" else if |s| == 1 then "0" + s else s
  }

  /** The numeral a timer block shows for `n`. */
  function TwoDigits(n: nat): (r: string)
    ensures n < 100 ==> |r| == 2
    ensures |r| >= 2
    ensures forall i :: 0 <= i < |r| ==> IsDigit(r[i])
  {
    PadStart2(ToDecimal(n))
  }

  /** The value of a string of decimal digits. */
  function DecimalValue(s: string): nat
    requires forall i :: 0 <= i < |s| ==> IsDigit(s[i])
  {
    if s == [] then 0
    else
      assert IsDigit(s[|s| - 1]);
      10 * DecimalValue(s[..|s| - 1]) + (s[|s| - 1] as int - '0' as int)
  }

  /** Reading the numeral back gives the number. */
  lemma {:induction false} ToDecimalRoundTrip(n: nat)
    ensures DecimalValue(ToDecimal(n)) == n
  {
    if n >= 10 {
      var s := ToDecimal(n);
      assert s[..|s| - 1] == ToDecimal(n / 10);
      ToDecimalRoundTrip(n / 10);
    }
  }

  /** A leading zero does not change the value of a numeral. */
  lemma {:induction false} LeadingZero(s: string)
    requires forall i :: 0 <= i < |s| ==> IsDigit(s[i])
    ensures DecimalValue("0" + s) == DecimalValue(s)
    decreases |s|
  {
    if s != [] {
      assert ("0" + s)[..|"0" + s| - 1] == "0" + s[..|s| - 1];
      LeadingZero(s[..|s| - 1]);
    }
  }

  /** The padded numeral still reads as `n`: padding changes only the width. */
  lemma TwoDigitsRoundTrip(n: nat)
    ensures DecimalValue(TwoDigits(n)) == n
  {
    ToDecimalRoundTrip(n);
    if n < 10 {
      LeadingZero(ToDecimal(n));
    }
  }

  lemma TwoDigitsExamples()
    ensures TwoDigits(4) == "04"
    ensures TwoDigits(32) == "32"
    ensures TwoDigits(0) == "00"
  {
  }
}
