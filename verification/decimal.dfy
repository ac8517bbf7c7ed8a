/** ASCII decimal text of a natural number, as Go's `%d` verb writes a
    non-negative `int`: no sign, no leading zeros, "0" for zero. */
module Decimal {
  import opened Bytes

  const AsciiZero: byte := 0x30

  predicate IsDigit(b: byte)
  {
    AsciiZero <= b <= 0x39
  }

  /** The `%d` rendering of n, one ASCII byte per digit. */
  function DecimalString(n: nat): (r: seq<byte>)
    ensures |r| >= 1
    ensures forall i :: 0 <= i < |r| ==> IsDigit(r[i])
    ensures r[0] == AsciiZero ==> n == 0
  {
    if n < 10 then [AsciiZero + n as byte]
    else DecimalString(n / 10) + [AsciiZero + (n % 10) as byte]
  }

  /** The value of a string of ASCII digits, most significant first. */
  function ParseDecimal(s: seq<byte>): nat
    requires forall i :: 0 <= i < |s| ==> IsDigit(s[i])
  {
    if s == [] then 0
    else
      assert IsDigit(s[|s| - 1]);
      ParseDecimal(s[..|s| - 1]) * 10 + (s[|s| - 1] - AsciiZero) as nat
  }

  /** Reading back the `%d` text gives the number that was written. */
  lemma {:induction false} ParseDecimalString(n: nat)
    ensures ParseDecimal(DecimalString(n)) == n
  {
    var r := DecimalString(n);
    if n >= 10 {
      assert r[..|r| - 1] == DecimalString(n / 10);
      ParseDecimalString(n / 10);
      assert (r[|r| - 1] - AsciiZero) as nat == n % 10;
    } else {
      assert (r[0] - AsciiZero) as nat == n;
    }
  }

  /** A larger number never has a shorter `%d` rendering. */
  lemma {:induction false} DecimalLengthMonotone(a: nat, b: nat)
    requires a <= b
    ensures |DecimalString(a)| <= |DecimalString(b)|
  {
    if a >= 10 {
      DecimalLengthMonotone(a / 10, b / 10);
    }
  }
}
