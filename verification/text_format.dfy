/**
 * Text rendering used on the wire: decimal rendering of non-negative integers
 * (what `operator<<` on an `int` prints), two-digit upper-case zero-padded
 * hexadecimal (`std::hex << std::uppercase << std::setfill('0') << std::setw(2)`),
 * dotted-quad address text, and the 7-bit ASCII restriction.
 */
module TextFormat {

  /** Every character is 7-bit ASCII. */
  predicate IsAscii(s: string) {
    forall i :: 0 <= i < |s| ==> s[i] as int < 128
  }

  predicate IsDigit(c: char) {
    '0' <= c <= '9'
  }

  predicate IsUpperHexDigit(c: char) {
    '0' <= c <= '9' || 'A' <= c <= 'F'
  }

  lemma AsciiConcat(a: string, b: string)
    requires IsAscii(a) && IsAscii(b)
    ensures IsAscii(a + b)
  {
  }

  // ---------------------------------------------------------------- decimal

  function DigitChar(d: nat): (c: char)
    requires d < 10
    ensures IsDigit(c)
  {
    ('0' as int + d) as char
  }

  function DigitValue(c: char): (d: nat)
    requires IsDigit(c)
    ensures d < 10
  {
    c as int - '0' as int
  }

  /** Decimal rendering of `n`, most significant digit first, no sign, no padding. */
  function Dec(n: nat): (s: string)
    ensures 1 <= |s|
    ensures forall i :: 0 <= i < |s| ==> IsDigit(s[i])
    ensures s[0] == '0' ==> n == 0
    decreases n
  {
    if n < 10 then [DigitChar(n)] else Dec(n / 10) + [DigitChar(n % 10)]
  }

  /** The value of a string of decimal digits, read most significant first. */
  function DecValue(s: string): nat
    requires forall i :: 0 <= i < |s| ==> IsDigit(s[i])
    decreases |s|
  {
    if |s| == 0 then 0 else DecValue(s[..|s| - 1]) * 10 + DigitValue(s[|s| - 1])
  }

  /** Reading the decimal text back gives the number printed. */
  lemma {:induction false} DecRoundTrip(n: nat)
    ensures DecValue(Dec(n)) == n
    decreases n
  {
    if n >= 10 {
      var s := Dec(n);
      assert s[..|s| - 1] == Dec(n / 10);
      DecRoundTrip(n / 10);
    }
  }

  /** Different numbers print differently. */
  lemma DecInjective(m: nat, n: nat)
    requires Dec(m) == Dec(n)
    ensures m == n
  {
    DecRoundTrip(m);
    DecRoundTrip(n);
  }

  lemma DecIsAscii(n: nat)
    ensures IsAscii(Dec(n))
  {
  }

  /** Numbers below 1000 print in at most three digits. */
  lemma DecLengthBelow1000(n: nat)
    requires n < 1000
    ensures |Dec(n)| <= 3
  {
    if n >= 10 {
      assert |Dec(n / 10)| <= 2 by {
        if n / 10 >= 10 {
          assert Dec(n / 10) == Dec(n / 10 / 10) + [DigitChar(n / 10 % 10)];
        }
      }
    }
  }

  // ------------------------------------------------------------ hexadecimal

  function HexDigit(d: nat): (c: char)
    requires d < 16
    ensures IsUpperHexDigit(c)
  {
    if d < 10 then ('0' as int + d) as char else ('A' as int + (d - 10)) as char
  }

  function HexDigitValue(c: char): (d: nat)
    requires IsUpperHexDigit(c)
    ensures d < 16
  {
    if c <= '9' then c as int - '0' as int else c as int - 'A' as int + 10
  }

  /** The value of a two-digit upper-case hexadecimal field. */
  function HexValue(s: string): nat
    requires |s| == 2 && IsUpperHexDigit(s[0]) && IsUpperHexDigit(s[1])
  {
    HexDigitValue(s[0]) * 16 + HexDigitValue(s[1])
  }

  /**
   * `v` printed as exactly two upper-case hexadecimal digits, zero-padded on
   * the left; reading the field back gives `v`.
   */
  function Hex2(v: nat): (s: string)
    requires v < 256
    ensures |s| == 2
    ensures IsUpperHexDigit(s[0]) && IsUpperHexDigit(s[1])
    ensures HexValue(s) == v
    ensures IsAscii(s)
  {
    var hi, lo := v / 16, v % 16;
    assert HexDigitValue(HexDigit(hi)) == hi;
    assert HexDigitValue(HexDigit(lo)) == lo;
    assert hi * 16 + lo == v;
    [HexDigit(hi), HexDigit(lo)]
  }
}
