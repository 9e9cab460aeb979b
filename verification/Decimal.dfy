/** Decimal text, as printf writes it. */
module Decimal {

  function Digit(d: nat): char
    requires d < 10
  {
    '0' + d as char
  }

  /** The digits of `n` without leading zeros, "0" for zero. */
  function Digits(n: nat): (s: string)
    ensures s != []
    ensures forall c :: c in s ==> '0' <= c <= '9'
  {
    if n < 10 then [Digit(n)] else Digits(n / 10) + [Digit(n % 10)]
  }

  /** "%d". */
  function Dec(v: int): (s: string)
    ensures s != []
  {
    if v < 0 then "-" + Digits(-v) else Digits(v)
  }

  function Pow10(k: nat): (p: nat)
    ensures p > 0
  {
    if k == 0 then 1 else 10 * Pow10(k - 1)
  }

  lemma {:induction false} DigitsLength(n: nat, k: nat)
    requires 0 < k && n < Pow10(k)
    ensures |Digits(n)| <= k
  {
    if n >= 10 {
      DigitsLength(n / 10, k - 1);
    }
  }

  lemma Int32Length(v: int)
    requires -0x8000_0000 <= v <= 0xFFFF_FFFF
    ensures |Dec(v)| <= 11
  {
    assert Pow10(10) == 10_000_000_000;
    DigitsLength(if v < 0 then -v else v, 10);
  }

  function HexDigit(d: nat): char
    requires d < 16
  {
    if d < 10 then '0' + d as char else 'a' + (d - 10) as char
  }

  /** The last `k` hexadecimal digits of `n`; "%08x" of a 32-bit word for k = 8. */
  function Hex(n: nat, k: nat): (s: string)
    ensures |s| == k
  {
    if k == 0 then "" else Hex(n / 16, k - 1) + [HexDigit(n % 16)]
  }
}
