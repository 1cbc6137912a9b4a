/** Decimal rendering of a non-negative index, as the `%d` verb of Go's
    fmt.Sprintf prints it, with its inverse (pkg/service/service.go). */
module Decimal {

  predicate IsDigit(c: char) {
    '0' <= c <= '9'
  }

  function DigitChar(d: nat): (c: char)
    requires d < 10
    ensures IsDigit(c) && c as int - '0' as int == d
  {
    ('0' as int + d) as char
  }

  /** Base-10 digits of n, most significant first, no sign, no leading zero. */
  function DecimalString(n: nat): string
    decreases n
  {
    if n < 10 then [DigitChar(n)] else DecimalString(n / 10) + [DigitChar(n % 10)]
  }

  /** Reads a non-empty string of decimal digits back as a number. */
  function ParseDecimal(s: string): nat
    requires |s| > 0 && forall k :: 0 <= k < |s| ==> IsDigit(s[k])
  {
    assert IsDigit(s[|s| - 1]);
    var last: nat := s[|s| - 1] as int - '0' as int;
    if |s| == 1 then last else ParseDecimal(s[..|s| - 1]) * 10 + last
  }

  /** The rendering is never empty, consists of digits only and has no
      leading zero. */
  lemma {:induction false} DecimalStringDigits(n: nat)
    ensures |DecimalString(n)| > 0
    ensures forall k :: 0 <= k < |DecimalString(n)| ==> IsDigit(DecimalString(n)[k])
    ensures |DecimalString(n)| > 1 ==> DecimalString(n)[0] != '0'
    decreases n
  {
    if n >= 10 {
      DecimalStringDigits(n / 10);
      assert DecimalString(n)[0] == DecimalString(n / 10)[0];
    }
  }

  /** Parsing undoes rendering. */
  lemma {:induction false} ParseDecimalString(n: nat)
    ensures |DecimalString(n)| > 0 && forall k :: 0 <= k < |DecimalString(n)| ==> IsDigit(DecimalString(n)[k])
    ensures ParseDecimal(DecimalString(n)) == n
    decreases n
  {
    DecimalStringDigits(n);
    if n >= 10 {
      ParseDecimalString(n / 10);
      var s := DecimalString(n);
      assert s[..|s| - 1] == DecimalString(n / 10);
    }
  }

  /** Distinct numbers render to distinct strings. */
  lemma DecimalStringInjective(m: nat, n: nat)
    requires DecimalString(m) == DecimalString(n)
    ensures m == n
  {
    ParseDecimalString(m);
    ParseDecimalString(n);
  }
}
