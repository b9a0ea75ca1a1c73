/**
  Bytes as bit vectors.
 */
module Bits {

  /** A hexadecimal digit. */
  function Digit(n: int): bv4
    requires 0 <= n < 16
  {
    n as bv4
  }

  /** An unsigned char widened to 64 bits, digit by digit. */
  function Widened(b: int): bv64
    requires 0 <= b < 0x100
  {
    Digit(b / 16) as bv64 * 16 + Digit(b % 16) as bv64
  }

  lemma DigitBack(n: int)
    requires 0 <= n < 16
    ensures Digit(n) as int == n
  {
  }

  lemma DigitsApart(a: bv4, b: bv4, c: bv4, d: bv4)
    ensures a as bv64 * 16 + b as bv64 == c as bv64 * 16 + d as bv64 <==> a == c && b == d
  {
  }

  lemma SameDigit(m: int, n: int)
    requires 0 <= m < 16 && 0 <= n < 16
    ensures Digit(m) == Digit(n) <==> m == n
  {
    DigitBack(m);
    DigitBack(n);
    hide Digit;
  }

  /** Different bytes stay different. */
  lemma WidenedApart(a: int, b: int)
    requires 0 <= a < 0x100 && 0 <= b < 0x100
    ensures Widened(a) == Widened(b) <==> a == b
  {
    hide Digit;
    SameDigit(a / 16, b / 16);
    SameDigit(a % 16, b % 16);
    DigitsApart(Digit(a / 16), Digit(a % 16), Digit(b / 16), Digit(b % 16));
  }

  lemma WidenedLetter()
    ensures Widened(0x61) == 0x61
  {
  }
}
