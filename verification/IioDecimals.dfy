/**
 What a decimal text is worth to `iio_parse_value` of iio/iio.c, however many decimals it is written
 with: fewer than the format has, as many, or more, which are rounded away one by one.
 */
module IioDecimals {
  import opened Arithmetic
  import opened Basics
  import opened Decimal
  import opened IioValue

  /** A number as a user writes it: the integer part `v`, or a zero with a sign, and `n` as `k` decimals. */
  function NumberText(v: Int32, negativeZero: bool, n: nat, k: nat, fmt: Format): string {
    (if negativeZero then "-0" else Dec(v)) + "." + Padded(n, k) + if fmt == IntPlusMicroDb then " dB" else ""
  }

  /** The digits that the zeros before them leave room for. */
  function Room(n: nat, k: nat, places: nat): int {
    if n == 0 then places else places - (k - |Digits(n)|)
  }

  /** Both parts of such a text, and when they are read. */
  lemma TextRead(v: Int32, negativeZero: bool, n: nat, k: nat, fmt: Format, longMax: nat)
    requires longMax >= INT32_MAX && (negativeZero ==> v == 0)
    requires n <= INT32_MAX && |Digits(n)| <= k && Room(n, k, Places(fmt)) >= 0
    ensures var text, room := NumberText(v, negativeZero, n, k, fmt), Room(n, k, Places(fmt));
            && (Defined(text, fmt, longMax) <==> Rounds(n, Pow10(room)))
            && (Defined(text, fmt, longMax) ==>
                  var x := Interpreted(n, room);
                  Parse(text, fmt, longMax) == Ok(v, if negativeZero then -x else x))
  {
    hide Strtol, Padded, Pieces, LeadingZeros, Digits, Truncated, Interpreted, Rounds, Dec;
    var p := if negativeZero then "-0" else Dec(v);
    var tail := if fmt == IntPlusMicroDb then " " else "";
    IntegerPart(v, negativeZero, longMax);
    PiecesOf(p, n, k, fmt);
    StrtolOfPadded(n, k, tail, longMax);
    TruncatedSame(n);
    Mirrored(n, Room(n, k, Places(fmt)));
  }

  lemma IntegerPart(v: Int32, negativeZero: bool, longMax: nat)
    requires longMax >= INT32_MAX && (negativeZero ==> v == 0)
    ensures var p := if negativeZero then "-0" else Dec(v);
            IsNumeral(p) && Truncated(Strtol(p, 0, longMax)) == v && (v == 0 ==> (p[0] == '-' <==> negativeZero))
  {
    hide Strtol, Truncated, Dec;
    DecIsNumeral(v);
    WholeNumbersReturn(v, longMax);
    DecIsNumeral(0);
    NegatedReads(0, longMax);
    ZeroText();
  }

  lemma ZeroText()
    ensures Dec(0) == "0" && "-" + Dec(0) == "-0"
  {
  }

  lemma Mirrored(n: nat, room: nat)
    ensures Interpreted(-(n as int), room) == -Interpreted(n, room)
  {
  }

  /* ---------- No more decimals than the format has ---------- */

  /** With at most as many decimals as the format has a number is read exactly: its fraction is scaled up
      by ten for each decimal that is missing. */
  lemma ShortFraction(v: Int32, negativeZero: bool, n: nat, k: nat, fmt: Format, longMax: nat)
    requires longMax >= INT32_MAX && (negativeZero ==> v == 0)
    requires |Digits(n)| <= k <= Places(fmt)
    ensures var text, x := NumberText(v, negativeZero, n, k, fmt), n * Pow10(Places(fmt) - k);
            && Defined(text, fmt, longMax)
            && Parse(text, fmt, longMax) == Ok(v, if negativeZero then -x else x)
  {
    hide Digits, Pow10, Parse, Defined, NumberText;
    var room := Room(n, k, Places(fmt));
    DigitsBound(n);
    PowMonotone(|Digits(n)|, room);
    PowMonotone(|Digits(n)|, 9);
    ScaledUnits(9, 0);
    TextRead(v, negativeZero, n, k, fmt, longMax);
    if n == 0 {
      NothingIsNothing(room);
    } else {
      FewDigits(n, room);
    }
  }

  lemma NothingIsNothing(room: nat)
    ensures Interpreted(0, room) == 0
  {
    assert Reduced(0, Pow10(room)) == 0;
  }

  lemma FewDigits(n: nat, room: nat)
    requires |Digits(n)| <= room
    ensures Interpreted(n, room) == n * Pow10(room - |Digits(n)|)
  {
    hide Digits;
    DigitsBound(n);
    PowMonotone(|Digits(n)|, room);
  }

  /* ---------- More decimals ---------- */

  /** Every rounding step goes to the nearest tenth, a half up; so after `m` of them the error is less than
      five ninths of a unit. */
  lemma {:induction false} RoundingError(n: nat, m: nat)
    ensures var error := RoundedTimes(n, m) * Pow10(m) - n;
            -4 * (Pow10(m) - 1) <= 9 * error <= 5 * (Pow10(m) - 1)
  {
    if m > 0 {
      var x, r, p := (n + 5) / 10, RoundedTimes((n + 5) / 10, m - 1), Pow10(m - 1);
      RoundingError(x, m - 1);
      TenTimes(r, p);
      ErrorStep(n, r * p, p);
    }
  }

  lemma TenTimes(r: nat, p: nat)
    ensures r * (10 * p) == 10 * (r * p)
  {
  }

  lemma ErrorStep(n: nat, product: nat, p: nat)
    requires -4 * (p - 1) <= 9 * (product - (n + 5) / 10) <= 5 * (p - 1)
    ensures -4 * (10 * p - 1) <= 9 * (10 * product - n) <= 5 * (10 * p - 1)
  {
  }

  /** One digit is lost in a step, or none when the rounding carries all the way. */
  lemma {:induction false} RoundedRange(n: nat, d: nat, m: nat)
    requires m < d && Pow10(d - 1) <= n <= Pow10(d)
    ensures Pow10(d - m - 1) <= RoundedTimes(n, m) <= Pow10(d - m)
    decreases m
  {
    if m > 0 {
      assert Pow10(d) == 10 * Pow10(d - 1) && Pow10(d - 1) == 10 * Pow10(d - 2);
      RoundedRange((n + 5) / 10, d - 1, m - 1);
    }
  }

  /** The rounding loop makes at least these steps. */
  lemma {:induction false} ReducedOn(n: nat, d: nat, m: nat)
    requires m < d && Pow10(d - 1) <= n <= Pow10(d)
    ensures Reduced(n, Pow10(d - m)) == Reduced(RoundedTimes(n, m), Pow10(d - m))
    decreases m
  {
    if m > 0 {
      PowMonotone(d - m, d - 1);
      assert Pow10(d) == 10 * Pow10(d - 1) && Pow10(d - 1) == 10 * Pow10(d - 2);
      ReducedOn((n + 5) / 10, d - 1, m - 1);
    }
  }

  lemma {:induction false} DigitsNeeded(n: nat)
    requires n > 0
    ensures Pow10(|Digits(n)| - 1) <= n
  {
    if n >= 10 {
      DigitsNeeded(n / 10);
    }
  }

  /** A number with all its digits in use. */
  lemma FullDigits(n: nat, room: nat)
    requires room > 0 && Pow10(room - 1) <= n < Pow10(room)
    ensures |Digits(n)| == room
  {
    DigitsLength(n, room);
    DigitsBound(n);
    if |Digits(n)| < room {
      PowMonotone(|Digits(n)|, room - 1);
    }
  }

  /** More digits than there is room for: they are rounded away, one by one.  If that carries to a unit of
      the integer part, the loop goes on to a tenth of it. */
  lemma ManyDigits(n: nat, room: nat)
    requires |Digits(n)| > room
    ensures var r := RoundedTimes(n, |Digits(n)| - room);
            Interpreted(n, room) == if room == 0 then 0 else if r < Pow10(room) then r else Pow10(room - 1)
  {
    var d := |Digits(n)|;
    if room == 0 {
      assert Pow10(0) == 1;
    } else {
      var m, r := d - room, RoundedTimes(n, d - room);
      Positive(n);
      DigitsNeeded(n);
      DigitsBound(n);
      RoundedRange(n, d, m);
      ReducedOn(n, d, m);
      hide Digits, RoundedTimes;
      if r < Pow10(room) {
        FullDigits(r, room);
        OwnUnits(r, room);
      } else {
        Carried(room);
      }
    }
  }

  lemma Positive(n: nat)
    ensures |Digits(n)| > 1 ==> n > 0
  {
  }

  lemma OwnUnits(n: nat, room: nat)
    requires n < Pow10(room) && |Digits(n)| == room
    ensures Decimals(n, room) == n
  {
    assert Pow10(0) == 1;
  }

  lemma Carried(room: nat)
    requires room > 0
    ensures Reduced(Pow10(room), Pow10(room)) == Pow10(room - 1)
    ensures Decimals(Pow10(room - 1), room) == Pow10(room - 1)
  {
    hide Digits;
    assert Pow10(room) == 10 * Pow10(room - 1);
    FullDigits(Pow10(room - 1), room);
    OwnUnits(Pow10(room - 1), room);
  }

  /** With more decimals than the format has, as far as the rounding stays in range: the superfluous ones
      are rounded away one by one, from the last.  When that carries out of the fraction the number is
      lost: a tenth is read in place of a unit. */
  lemma LongFraction(v: Int32, negativeZero: bool, n: nat, k: nat, fmt: Format, longMax: nat)
    requires longMax >= INT32_MAX && (negativeZero ==> v == 0)
    requires 0 < n <= INT32_MAX - 5 && |Digits(n)| <= k && k > Places(fmt) && Room(n, k, Places(fmt)) >= 0
    ensures var text, room := NumberText(v, negativeZero, n, k, fmt), Room(n, k, Places(fmt));
            var r := RoundedTimes(n, k - Places(fmt));
            var x := if room == 0 then 0 else if r < Pow10(room) then r else Pow10(room - 1);
            && Defined(text, fmt, longMax)
            && Parse(text, fmt, longMax) == Ok(v, if negativeZero then -x else x)
  {
    hide Digits, Pow10, Parse, Defined, NumberText, RoundedTimes;
    var room := Room(n, k, Places(fmt));
    TextRead(v, negativeZero, n, k, fmt, longMax);
    ManyDigits(n, room);
  }

  /** One decimal too many: the result is the nearest one, if and only if it does not carry. */
  lemma OneTooMany(v: Int32, n: nat, fmt: Format, longMax: nat)
    requires longMax >= INT32_MAX
    requires 0 < n <= INT32_MAX - 5 && |Digits(n)| == Places(fmt) + 1
    ensures var text := NumberText(v, false, n, Places(fmt) + 1, fmt);
            Defined(text, fmt, longMax)
            && (Parse(text, fmt, longMax) == Ok(v, (n + 5) / 10) <==> (n + 5) / 10 < Pow10(Places(fmt)))
  {
    hide Digits, Parse, Defined, NumberText;
    LongFraction(v, false, n, Places(fmt) + 1, fmt, longMax);
    assert RoundedTimes(n, 1) == RoundedTimes((n + 5) / 10, 0);
    assert Pow10(Places(fmt)) == 10 * Pow10(Places(fmt) - 1);
  }

  /** One and a half, and the half below zero that only the text shows. */
  lemma Halves(longMax: nat)
    requires longMax >= INT32_MAX
    ensures Defined("1.5", IntPlusMicro, longMax) && Parse("1.5", IntPlusMicro, longMax) == Ok(1, 500000)
    ensures Defined("-0.5 dB", IntPlusMicroDb, longMax)
            && Parse("-0.5 dB", IntPlusMicroDb, longMax) == Ok(0, -500000)
  {
    HalfTexts();
    hide Parse, Defined, NumberText;
    assert Pow10(5) == 100000;
    ShortFraction(1, false, 5, 1, IntPlusMicro, longMax);
    ShortFraction(0, true, 5, 1, IntPlusMicroDb, longMax);
  }

  lemma HalfTexts()
    ensures NumberText(1, false, 5, 1, IntPlusMicro) == "1.5" && |Digits(5)| == 1
    ensures NumberText(0, true, 5, 1, IntPlusMicroDb) == "-0.5 dB"
  {
    assert Digits(5) == "5" && Dec(1) == "1";
  }

  /** Seven nines are read as a tenth. */
  lemma SevenNines(longMax: nat)
    requires longMax >= INT32_MAX
    ensures Defined("0.9999999", IntPlusMicro, longMax)
            && Parse("0.9999999", IntPlusMicro, longMax) == Ok(0, 100000)
  {
    NinesText();
    hide Parse, Defined, NumberText, Digits;
    assert Pow10(5) == 100000 && Pow10(6) == 1000000;
    LongFraction(0, false, 9999999, 7, IntPlusMicro, longMax);
    assert RoundedTimes(9999999, 1) == RoundedTimes(1000000, 0);
  }

  lemma NinesText()
    ensures NumberText(0, false, 9999999, 7, IntPlusMicro) == "0.9999999" && |Digits(9999999)| == 7
  {
    Nines();
    hide Digits;
    assert Dec(0) == "0" by { ZeroText(); }
  }

  lemma Nines()
    ensures Digits(9999999) == "9999999"
  {
    assert Digits(9) == "9";
    hide *;
    assert Digits(99) == "99" by { MoreNines(9); }
    assert Digits(999) == "999" by { MoreNines(99); }
    assert Digits(9999) == "9999" by { MoreNines(999); }
    assert Digits(99999) == "99999" by { MoreNines(9999); }
    assert Digits(999999) == "999999" by { MoreNines(99999); }
    MoreNines(999999);
  }

  lemma MoreNines(n: nat)
    ensures Digits(10 * n + 9) == (if n == 0 then "" else Digits(n)) + "9"
  {
  }

  /* ---------- Texts as they are printed and read ---------- */

  /** What printing makes of some pairs: a unit, leading zeros, and a sign in front of a fraction that is
      printed as unsigned. */
  lemma PrintedTexts()
    ensures FormatValue(IntPlusMicroDb, -3, 25) == "-3.000025 dB"
    ensures FormatValue(IntPlusNano, 7, 0) == "7.000000000"
    ensures FormatValue(IntPlusMicro, 0, -1) == "-0." + Digits(4294967295)
  {
    PaddedTexts();
    hide Padded;
    assert Dec(-3) == "-3" && Dec(7) == "7" && Dec(0) == "0";
  }

  lemma PaddedTexts()
    ensures Padded(25, 6) == "000025" && Padded(0, 9) == "000000000" && Padded(4294967295, 6) == Digits(4294967295)
  {
    DigitsBound(4294967295);
    PowMonotone(|Digits(4294967295)|, 6);
    ScaledUnits(6, 0);
    assert Digits(25) == "25" && Digits(0) == "0";
    hide Digits;
    assert Zeros(4) == "0000" && Zeros(8) == "00000000";
  }

  /** An integer part may be hexadecimal or octal, with a sign. */
  lemma Bases()
    ensures Strtol("0x1F", 0, INT32_MAX) == 31 && Strtol("-010", 0, INT32_MAX) == -8
  {
    assert ValueFrom("F", 16, 1) == 31 && ValueFrom("1F", 16, 0) == 31 by {
      assert "F"[1..] == "" && "1F"[1..] == "F";
      assert ValueFrom("", 16, 31) == 31;
    }
    assert ValueFrom("010", 8, 0) == 8 by {
      assert "010"[1..] == "10" && "10"[1..] == "0" && "0"[1..] == "";
      assert ValueFrom("", 8, 8) == 8 && ValueFrom("0", 8, 1) == 8 && ValueFrom("10", 8, 0) == 8;
    }
    hide ValueFrom;
    assert "0x1F"[2..] == "1F" && "-010"[1..] == "010";
  }
}
