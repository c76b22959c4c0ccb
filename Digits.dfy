/** Decimal digits as the C library reads and writes them: the digit and
    white-space classes, the longest run of leading digits, the value of a
    digit string, and the decimal notation of a natural number. */
module Digits {

  /** isdigit in the C locale. */
  function IsDigit(c: char): bool { '0' <= c <= '9' }

  /** isspace in the C locale. */
  function IsSpace(c: char): bool { c in " \t\n\U{B}\U{C}\r" }

  /** The longest prefix made of decimal digits. */
  function LeadingDigits(s: string): (r: string)
    ensures |r| <= |s| && r == s[..|r|]
    ensures forall i :: 0 <= i < |r| ==> IsDigit(r[i])
    ensures |r| < |s| ==> !IsDigit(s[|r|])
  {
    if |s| > 0 && IsDigit(s[0]) then [s[0]] + LeadingDigits(s[1..]) else []
  }

  /** The value of a string of decimal digits, most significant first. */
  function DigitsValue(ds: string): (n: int)
    ensures (forall i :: 0 <= i < |ds| ==> IsDigit(ds[i])) ==> n >= 0
  {
    if |ds| == 0 then 0 else DigitsValue(ds[..|ds| - 1]) * 10 + (ds[|ds| - 1] as int - '0' as int)
  }

  /** The decimal notation of a natural number. */
  function Decimal(n: nat): (r: string)
    ensures |r| > 0 && forall i :: 0 <= i < |r| ==> IsDigit(r[i])
  {
    var d := ('0' as int + n % 10) as char;
    if n < 10 then [d] else Decimal(n / 10) + [d]
  }

  lemma {:induction false} DecimalValue(n: nat)
    ensures DigitsValue(Decimal(n)) == n
  {
    var d := ('0' as int + n % 10) as char;
    if n >= 10 {
      DecimalValue(n / 10);
      assert (Decimal(n / 10) + [d])[..|Decimal(n)| - 1] == Decimal(n / 10);
    } else {
      assert [d][..0] == [];
    }
  }

  lemma {:induction false} AllDigitsAreLeading(s: string)
    requires forall i :: 0 <= i < |s| ==> IsDigit(s[i])
    ensures LeadingDigits(s) == s
    decreases |s|
  {
    if |s| > 0 {
      AllDigitsAreLeading(s[1..]);
    }
  }
}
