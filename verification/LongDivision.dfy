/**
 `no_os_mul_u64_u32_div` of util/no_os_util.c: the product of a 64-bit and a 32-bit number, divided by
 a 32-bit number, one bit of the quotient at a time.

 The loop divides a 128-bit number held in two words.  It is proved to be a division whenever the
 quotient fits, and the two words are shown to be the product for exactly those operands for which
 their sum at line 551 loses no carry and counts none twice.
 */
module LongDivision {
  import opened Arithmetic

  const B31 := 0x8000_0000
  const B32 := 0x1_0000_0000
  const B63 := 0x8000_0000_0000_0000
  const B64 := 0x1_0000_0000_0000_0000

  /** The upper and the lower word, as the source computes them. */
  function High(a: nat, mul: nat): nat {
    (a / B32) * mul / B32 + (a % B32) * mul / B32
  }

  function Low(a: nat, mul: nat): (low: nat)
    ensures low < B64
  {
    ((a % B32) * mul + (((a / B32) * mul) % B32) * B32) % B64
  }

  /** The number that the two words stand for. */
  function Dividend(a: nat, mul: nat): nat {
    High(a, mul) * B64 + Low(a, mul)
  }

  /** The operands for which the two words are right: the lower product has no upper half, or one
      of just 1 that the sum of the middle words turns into a carry. */
  predicate NoCarryLost(a: nat, mul: nat) {
    var lowLow := (a % B32) * mul;
    lowLow < B32 || (lowLow < 2 * B32 && ((a / B32) * mul) % B32 == B32 - 1)
  }

  /** `x | w` for a power of two `w`. */
  function SetBit(x: nat, w: nat): nat
    requires w > 0
  {
    if (x / w) % 2 == 1 then x else x + w
  }

  /** The words exceed the product by a whole number of 2^64, none exactly when no carry is lost. */
  lemma DividendExceeds(a: nat, mul: nat)
    requires a < B64 && mul < B32
    ensures Dividend(a, mul) == a * mul + Excess(a, mul) * B64
    ensures Excess(a, mul) == 0 <==> NoCarryLost(a, mul)
  {
    var ll, hl := (a % B32) * mul, (a / B32) * mul;
    ProductSplits(a, mul);
    Bounded(a % B32, mul);
    Words(ll, hl);
  }

  function Excess(a: nat, mul: nat): int {
    var l1, h0 := (a % B32) * mul / B32, ((a / B32) * mul) % B32;
    l1 - if l1 + h0 >= B32 then 1 else 0
  }

  lemma ProductSplits(a: nat, mul: nat)
    ensures a * mul == (a / B32) * mul * B32 + (a % B32) * mul
  {
    assert a == (a / B32) * B32 + a % B32;
  }

  lemma Bounded(x: nat, y: nat)
    requires x < B32 && y < B32
    ensures x * y <= (B32 - 1) * (B32 - 1)
  {
    TimesMonotone(x, B32 - 1, y);
    TimesMonotone(y, B32 - 1, B32 - 1);
  }

  lemma Words(ll: nat, hl: nat)
    requires ll <= (B32 - 1) * (B32 - 1)
    ensures var l1, h0 := ll / B32, hl % B32; var carry := if l1 + h0 >= B32 then 1 else 0;
            && (hl / B32 + l1) * B64 + (ll + h0 * B32) % B64 == hl * B32 + ll + (l1 - carry) * B64
            && (l1 - carry == 0 <==> ll < B32 || (ll < 2 * B32 && h0 == B32 - 1))
  {
    var l1, l0, h1, h0 := ll / B32, ll % B32, hl / B32, hl % B32;
    assert ll == l1 * B32 + l0 && hl == h1 * B32 + h0;
    var s := ll + h0 * B32;
    assert s < 2 * B64;
    assert s == (l1 + h0) * B32 + l0;
  }

  /** So for every division that fits, the quotient is that of the product exactly then. */
  lemma QuotientIsRightIff(a: nat, mul: nat, divisor: nat)
    requires a < B64 && mul < B32 && 0 < divisor < B32
    ensures Dividend(a, mul) / divisor == a * mul / divisor <==> NoCarryLost(a, mul)
  {
    DividendExceeds(a, mul);
    if Excess(a, mul) != 0 {
      assert Excess(a, mul) >= 1;
      QuotientGrows(a * mul, Dividend(a, mul), divisor);
    }
  }

  lemma QuotientGrows(x: nat, y: nat, d: nat)
    requires d > 0 && y >= x + d
    ensures y / d > x / d
  {
  }

  /** An input outside that range: 2^31 * 8 / 5 comes out as (4 * 2^64 + 2^34) / 5. */
  lemma LostCarryExample()
    ensures High(B31, 8) < 5 && Dividend(B31, 8) / 5 == 14757395262403615129 && B31 * 8 / 5 == 3435973836
  {
  }

  /** The state of the division: `w` is the weight of the last quotient bit, `q` the quotient so far
      in units of it, `rest` what is left of the lower word, which stands shifted by `v`. */
  ghost predicate Dividing(n: nat, divisor: nat, result: nat, q: nat, rem: nat, rest: nat, low: nat, w: nat, v: nat) {
    && result == q * w && w > 0 && v > 0 && v * w == B64 && rest < w && low == rest * v
    && n == q * w * divisor + rem * w + rest && rem < divisor
  }

  lemma Shifted(rest: nat, w: nat, v: nat, bit: nat)
    requires bit * w <= rest < (bit + 1) * w && v > 0
    ensures var rest' := rest - bit * w;
            rest' < w && rest * v == bit * (v * w) + rest' * v && rest' * v < v * w
  {
    var rest' := rest - bit * w;
    assert (bit + 1) * w == bit * w + w;
    assert (bit * w + rest') * v == bit * w * v + rest' * v;
    assert bit * w * v == bit * (v * w);
    TimesMonotone(rest' + 1, w, v);
  }

  /** The next bit of the lower word. */
  lemma NextBit(rest: nat, low: nat, w: nat, v: nat)
    requires v > 0 && v * (2 * w) == B64 && rest < 2 * w && low == rest * v
    ensures var bit := if rest >= w then 1 else 0;
            && low / B63 == bit && 0 <= rest - bit * w < w && (2 * low) % B64 == (rest - bit * w) * (2 * v)
            && (2 * v) * w == B64
  {
    assert v * (2 * w) == 2 * (v * w) == (2 * v) * w;
    var bit := if rest >= w then 1 else 0;
    Shifted(rest, w, v, bit);
    var x := (rest - bit * w) * v;
    assert low == bit * B63 + x && x < B63;
    assert (rest - bit * w) * (2 * v) == 2 * x;
  }

  /** The next digit of the quotient. */
  lemma NextDigit(n: nat, divisor: nat, q: nat, rem: nat, rest: nat, w: nat, bit: nat)
    requires n == q * (2 * w) * divisor + rem * (2 * w) + rest && rem < divisor && bit <= 1 && bit * w <= rest
    ensures var rem' := 2 * rem + bit; var digit := if rem' >= divisor then 1 else 0;
            && rem' - digit * divisor < divisor
            && n == (2 * q + digit) * w * divisor + (rem' - digit * divisor) * w + (rest - bit * w)
  {
    BitMoved(rem, w, bit);
    if 2 * rem + bit >= divisor {
      DigitMoved(q, w, divisor, 2 * rem + bit);
    } else {
      assert q * (2 * w) * divisor == (2 * q) * w * divisor;
    }
  }

  lemma BitMoved(rem: nat, w: nat, bit: nat)
    ensures rem * (2 * w) + bit * w == (2 * rem + bit) * w
  {
    Distribute(2 * rem, bit, w);
  }

  lemma DigitMoved(q: nat, w: nat, divisor: nat, rem: nat)
    requires rem >= divisor
    ensures q * (2 * w) * divisor + rem * w == (2 * q + 1) * w * divisor + (rem - divisor) * w
  {
    Distribute(2 * q, 1, w);
    Distribute((2 * q) * w, w, divisor);
    Distribute(rem - divisor, divisor, w);
  }

  lemma Distribute(a: nat, b: nat, c: nat)
    ensures (a + b) * c == a * c + b * c
  {
  }

  /** The bit to be set is not set yet. */
  lemma DigitIsClear(q: nat, w: nat)
    requires w > 0
    ensures SetBit(q * (2 * w), w) == (2 * q + 1) * w && q * (2 * w) == (2 * q) * w
  {
    assert q * (2 * w) == (2 * q) * w;
    DivisionIsUnique(q * (2 * w), w, 2 * q, 0);
    assert (2 * q + 1) * w == (2 * q) * w + w;
  }

  /** 2^k. */
  function Weight(k: nat): (w: nat)
    ensures w > 0
  {
    if k == 0 then 1 else 2 * Weight(k - 1)
  }

  lemma {:induction false} WeightSum(k: nat, l: nat)
    ensures Weight(k + l) == Weight(k) * Weight(l)
  {
    if k > 0 {
      WeightSum(k - 1, l);
    }
  }

  /** One turn of the loop. */
  lemma Turn(n: nat, divisor: nat, result: nat, q: nat, rem: nat, rest: nat, low: nat, w: nat, v: nat)
    returns (q': nat, rest': nat)
    requires Dividing(n, divisor, result, q, rem, rest, low, 2 * w, v) && divisor < B32
    ensures w > 0
    ensures var rem' := (2 * rem) % B64 + low / B63; var below := rem' < divisor;
            Dividing(n, divisor, if below then result else SetBit(result, w), q',
                     if below then rem' else rem' - divisor, rest', (2 * low) % B64, w, 2 * v)
  {
    NextBit(rest, low, w, v);
    var bit := low / B63;
    NextDigit(n, divisor, q, rem, rest, w, bit);
    DigitIsClear(q, w);
    rest' := rest - bit * w;
    q' := 2 * q + if 2 * rem + bit >= divisor then 1 else 0;
  }

  lemma Begin(n: nat, divisor: nat, high: nat, low: nat)
    requires n == high * B64 + low && low < B64
    ensures high < divisor ==> Dividing(n, divisor, 0, 0, high, low, low, Weight(64), 1)
    ensures high == divisor ==> Saturating(low, divisor, 0, 0, high, low, low, Weight(64), 1)
  {
    hide Weight, AtDivisor;
    WholeWeight();
  }

  lemma WholeWeight()
    ensures Weight(64) == B64
  {
    assert Weight(8) == 256;
    WeightSum(8, 8);
    WeightSum(16, 16);
    WeightSum(32, 32);
  }

  lemma End(n: nat, divisor: nat, result: nat, q: nat, rem: nat, rest: nat, low: nat, v: nat)
    requires Dividing(n, divisor, result, q, rem, rest, low, 1, v)
    ensures divisor > 0 && result == n / divisor
  {
    DivisionIsUnique(n, divisor, result, rem);
  }

  /** The result when the upper word equals the divisor, so that the quotient does not fit: every bit
      is set, but for the last one when the doubled remainder leaves its 64 bits just so. */
  function AtDivisor(lowWord: nat, divisor: nat): nat
    requires lowWord < B64
  {
    if B64 - 2 * divisor <= lowWord < B64 - divisor then B64 - 2 else B64 - 1
  }

  /** The state of the loop in that case, `e` being the bits of the lower word shifted in so far. */
  ghost predicate Saturating(lowWord: nat, divisor: nat, result: nat, e: nat, rem: nat, rest: nat, low: nat,
                             w: nat, v: nat)
    requires lowWord < B64
  {
    && w > 0 && v > 0 && v * w == B64 && rest < w && low == rest * v && lowWord == e * w + rest && e < v
    && (if w > 1 then result == B64 - w && rem == divisor + e else result == AtDivisor(lowWord, divisor))
  }

  lemma SaturatingTurn(lowWord: nat, divisor: nat, result: nat, e: nat, rem: nat, rest: nat, low: nat, w: nat, v: nat)
    returns (e': nat, rest': nat)
    requires lowWord < B64 && Saturating(lowWord, divisor, result, e, rem, rest, low, 2 * w, v)
    requires 0 < divisor < B32
    ensures w > 0
    ensures var rem' := (2 * rem) % B64 + low / B63; var below := rem' < divisor;
            Saturating(lowWord, divisor, if below then result else SetBit(result, w), e',
                       if below then rem' else rem' - divisor, rest', (2 * low) % B64, w, 2 * v)
  {
    NextBit(rest, low, w, v);
    var bit := low / B63;
    e', rest' := 2 * e + bit, rest - bit * w;
    ShiftedIn(lowWord, e, rest, w, v, bit);
    hide *;
    LastTurn(lowWord, divisor, e, bit);
    EarlierTurn(divisor, e, bit);
    DigitIsClear(v - 1, w);
  }

  /** The products of one turn. */
  lemma ShiftedIn(lowWord: nat, e: nat, rest: nat, w: nat, v: nat, bit: nat)
    requires w > 0 && v > 0 && v * (2 * w) == B64 && lowWord == e * (2 * w) + rest && bit * w <= rest
    ensures lowWord == (2 * e + bit) * w + (rest - bit * w)
    ensures (v - 1) * (2 * w) == B64 - 2 * w && (2 * (v - 1) + 1) * w == B64 - w
    ensures if w > 1 then 4 * v <= B64 else v == B63
  {
    assert e * (2 * w) == (2 * e) * w && (2 * e + bit) * w == (2 * e) * w + bit * w;
    assert (v - 1) * (2 * w) == v * (2 * w) - 2 * w;
    assert (2 * (v - 1) + 1) * w == (v - 1) * (2 * w) + w;
    if w > 1 {
      TimesMonotone(4, 2 * w, v);
    }
  }

  /** As long as few bits are shifted in, the doubled remainder fits its 64 bits. */
  lemma EarlierTurn(divisor: nat, e: nat, bit: nat)
    requires 0 < divisor < B32 && bit <= 1
    ensures 4 * (e + 1) <= B64 ==>
              var rem' := (2 * (divisor + e)) % B64 + bit; rem' - divisor == divisor + (2 * e + bit)
  {
  }

  lemma LastTurn(lowWord: nat, divisor: nat, e: nat, bit: nat)
    requires lowWord < B64 && 0 < divisor < B32 && bit <= 1
    ensures lowWord == 2 * e + bit ==>
              var below := (2 * (divisor + e)) % B64 + bit < divisor;
              AtDivisor(lowWord, divisor) == if below then B64 - 2 else B64 - 1
  {
  }

  /** The division loop, over the two words of the dividend. */
  method Divide(high: nat, lowWord: nat, divisor: nat) returns (result: nat)
    requires lowWord < B64 && divisor < B32
    ensures high < divisor ==> result == (high * B64 + lowWord) / divisor
    ensures high == divisor > 0 ==> result == AtDivisor(lowWord, divisor)
  {
    hide Dividing, Saturating, AtDivisor, SetBit, Weight;
    var low: nat, rem: nat := lowWord, high;
    ghost var n: nat, rest: nat, v: nat, q: nat := high * B64 + low, low, 1, 0;
    result := 0;
    Begin(n, divisor, high, low);
    for i := 0 to 64
      invariant high < divisor ==> Dividing(n, divisor, result, q, rem, rest, low, Weight(64 - i), v)
      invariant high == divisor > 0 ==>
                  Saturating(lowWord, divisor, result, q, rem, rest, low, Weight(64 - i), v)
    {
      WeightStep(63 - i);
      if high < divisor {
        q, rest := Turn(n, divisor, result, q, rem, rest, low, Weight(63 - i), v);
      } else if high == divisor > 0 {
        q, rest := SaturatingTurn(lowWord, divisor, result, q, rem, rest, low, Weight(63 - i), v);
      }
      v := 2 * v;
      rem := (2 * rem) % B64 + low / B63;
      low := (2 * low) % B64;
      if rem >= divisor {
        rem := rem - divisor;
        result := SetBit(result, Weight(63 - i));
      }
    }
    WeightStep(0);
    if high < divisor {
      End(n, divisor, result, q, rem, rest, low, v);
    } else if high == divisor > 0 {
      Saturated(lowWord, divisor, result, q, rem, rest, low, v);
    }
  }

  lemma Saturated(lowWord: nat, divisor: nat, result: nat, e: nat, rem: nat, rest: nat, low: nat, v: nat)
    requires lowWord < B64 && Saturating(lowWord, divisor, result, e, rem, rest, low, 1, v)
    ensures result == AtDivisor(lowWord, divisor)
  {
  }

  lemma WeightStep(k: nat)
    ensures Weight(k + 1) == 2 * Weight(k) && Weight(0) == 1
  {
  }

  /** no_os_mul_u64_u32_div. */
  method MulDiv(a: nat, mul: nat, divisor: nat) returns (result: nat)
    requires a < B64 && mul < B32 && divisor < B32
    ensures High(a, mul) < divisor ==> result == Dividend(a, mul) / divisor
    ensures High(a, mul) == divisor > 0 ==> result == AtDivisor(Low(a, mul), divisor)
  {
    var aHigh, aLow := a / B32, a % B32;
    var lowLow, highLow := aLow * mul, aHigh * mul;
    var low := (lowLow + (highLow % B32) * B32) % B64;
    var high := highLow / B32 + lowLow / B32;
    result := Divide(high, low, divisor);
  }

  /** When no carry is lost, the condition of MulDiv is that the quotient fits in 64 bits. */
  lemma FitsIff(a: nat, mul: nat, divisor: nat)
    requires a < B64 && mul < B32 && divisor < B32 && NoCarryLost(a, mul)
    ensures High(a, mul) < divisor <==> a * mul < divisor * B64
  {
    hide High, Low, NoCarryLost, Excess;
    DividendExceeds(a, mul);
  }

  /** Where the quotient fits and no carry is lost, the result is the product divided. */
  method MulDivIsRight(a: nat, mul: nat, divisor: nat) returns (result: nat)
    requires a < B64 && mul < B32 && High(a, mul) < divisor < B32
    ensures result == a * mul / divisor <==> NoCarryLost(a, mul)
  {
    result := MulDiv(a, mul, divisor);
    QuotientIsRightIff(a, mul, divisor);
  }

  /** With the upper word at the divisor a lost carry can go unnoticed: three times this number, halved. */
  method RightDespiteLostCarry() returns (result: nat)
    ensures var a := 2863311530 * B32 + 2863311530;
            !NoCarryLost(a, 3) && High(a, 3) == 2 && result == a * 3 / 2
  {
    result := MulDiv(2863311530 * B32 + 2863311530, 3, 2);
  }
}
