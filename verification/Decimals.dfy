/** Decimal numbers as text: printing, parsing and padding with zeros. */
module Decimals {
  predicate IsDigit(c: char) {
    '0' <= c <= '9'
  }

  predicate IsDigits(s: string) {
    forall k :: 0 <= k < |s| ==> IsDigit(s[k])
  }

  function DigitOf(d: nat): (c: char)
    requires d < 10
    ensures IsDigit(c) && c as int - '0' as int == d
  {
    '0' + d as char
  }

  function Decimal(n: nat): (s: string)
    ensures s != [] && IsDigits(s)
  {
    if n < 10 then [DigitOf(n)] else Decimal(n / 10) + [DigitOf(n % 10)]
  }

  /** The number a string of digits stands for. */
  function ValueOf(s: string): nat
    requires IsDigits(s)
  {
    if s == [] then 0 else 10 * ValueOf(s[..|s| - 1]) + (s[|s| - 1] as int - '0' as int)
  }

  /** Zeros in front, up to a width. */
  function ZeroFilled(s: string, width: nat): (r: string)
    ensures |r| == if |s| < width then width else |s|
    ensures IsDigits(s) ==> IsDigits(r)
    decreases width - |s|
  {
    if |s| >= width then s else ZeroFilled("0" + s, width)
  }

  lemma {:induction false} DecimalRoundTrip(n: nat)
    ensures ValueOf(Decimal(n)) == n
  {
    if n >= 10 {
      DecimalRoundTrip(n / 10);
      assert Decimal(n)[..|Decimal(n)| - 1] == Decimal(n / 10);
    }
  }

  lemma {:induction false} LeadingZero(s: string)
    requires IsDigits(s)
    ensures IsDigits("0" + s) && ValueOf("0" + s) == ValueOf(s)
  {
    if s != [] {
      LeadingZero(s[..|s| - 1]);
      assert ("0" + s)[..|s|] == "0" + s[..|s| - 1];
    }
  }

  lemma {:induction false} ZeroFilledValue(s: string, width: nat)
    requires IsDigits(s)
    ensures ValueOf(ZeroFilled(s, width)) == ValueOf(s)
    decreases width - |s|
  {
    if |s| < width {
      LeadingZero(s);
      ZeroFilledValue("0" + s, width);
    }
  }

  lemma {:induction false} LongerForLarger(m: nat, n: nat)
    requires m <= n
    ensures |Decimal(m)| <= |Decimal(n)|
    decreases n
  {
    if m >= 10 {
      LongerForLarger(m / 10, n / 10);
    }
  }

  /** An index below n, filled to the width of n - 1: equal texts have equal indices. */
  lemma {:induction false} IndexText(i: nat, j: nat, n: nat)
    requires i < n && j < n
    ensures |ZeroFilled(Decimal(i), |Decimal(n - 1)|)| == |Decimal(n - 1)|
    ensures ZeroFilled(Decimal(i), |Decimal(n - 1)|) == ZeroFilled(Decimal(j), |Decimal(n - 1)|) ==> i == j
  {
    var width := |Decimal(n - 1)|;
    LongerForLarger(i, n - 1);
    ZeroFilledValue(Decimal(i), width);
    ZeroFilledValue(Decimal(j), width);
    DecimalRoundTrip(i);
    DecimalRoundTrip(j);
  }
}
