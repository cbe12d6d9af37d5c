/** The one-time codes of Backend/controllers/user.js:
    `Math.floor(100000 + Math.random() * 900000).toString()`. The random draw is the
    integer `Math.floor(Math.random() * 900000)`, taken as an input below 900000; the
    floating-point computation itself is not modelled. */
module OtpCode {

  const CodeLow: nat := 100000
  const DrawSpan: nat := 900000

  predicate IsDigit(c: char)
  {
    '0' <= c <= '9'
  }

  predicate AllDigits(s: string)
  {
    forall i :: 0 <= i < |s| ==> IsDigit(s[i])
  }

  function DigitChar(d: nat): (c: char)
    requires d < 10
    ensures IsDigit(c)
  {
    ('0' as int + d) as char
  }

  function DigitValue(c: char): nat
    requires IsDigit(c)
  {
    c as int - '0' as int
  }

  /** `n.toString()` for a natural number: its decimal digits, most significant first. */
  function DecimalString(n: nat): (s: string)
    ensures AllDigits(s)
    decreases n
  {
    if n < 10 then [DigitChar(n)] else DecimalString(n / 10) + [DigitChar(n % 10)]
  }

  /** The number a digit string denotes. */
  function DecimalValue(s: string): nat
    requires AllDigits(s)
  {
    if s == [] then 0 else 10 * DecimalValue(s[..|s| - 1]) + DigitValue(s[|s| - 1])
  }

  function Pow10(k: nat): nat
  {
    if k == 0 then 1 else 10 * Pow10(k - 1)
  }

  /** `toString` and reading back the digits are inverse. */
  lemma {:induction false} DecimalRoundTrip(n: nat)
    ensures DecimalValue(DecimalString(n)) == n
    decreases n
  {
    var s := DecimalString(n);
    if n >= 10 {
      DecimalRoundTrip(n / 10);
      assert s[..|s| - 1] == DecimalString(n / 10);
    }
  }

  /** A number with k digits prints as k characters. */
  lemma {:induction false} DecimalLength(n: nat, k: nat)
    requires 1 <= k && n < Pow10(k) && (k == 1 || Pow10(k - 1) <= n)
    ensures |DecimalString(n)| == k
    decreases k
  {
    if k > 1 {
      assert Pow10(k) == 10 * Pow10(k - 1);
      if k > 2 {
        assert Pow10(k - 1) == 10 * Pow10(k - 2);
      }
      DecimalLength(n / 10, k - 1);
    }
  }

  /** A six-digit code as the handlers store it: six decimal digits, denoting a number
      from 100000 to 999999. */
  predicate IsCode(s: string)
  {
    |s| == 6 && AllDigits(s) && CodeLow <= DecimalValue(s) < CodeLow + DrawSpan
  }

  /** The code for one draw of the random generator. */
  function Code(draw: nat): (otp: string)
    requires draw < DrawSpan
    ensures IsCode(otp)
    ensures DecimalValue(otp) == CodeLow + draw
  {
    assert Pow10(6) == 1000000 && Pow10(5) == 100000 by {
      assert Pow10(1) == 10 && Pow10(2) == 100 && Pow10(3) == 1000 && Pow10(4) == 10000;
    }
    DecimalLength(CodeLow + draw, 6);
    DecimalRoundTrip(CodeLow + draw);
    DecimalString(CodeLow + draw)
  }

  /** Distinct draws give distinct codes. */
  lemma CodeInjective(d1: nat, d2: nat)
    requires d1 < DrawSpan && d2 < DrawSpan && d1 != d2
    ensures Code(d1) != Code(d2)
  {
  }
}
