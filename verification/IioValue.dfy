/**
 How the values of attributes become text and text becomes values again: `iio_format_value`,
 `iio_parse_value` and their helpers in iio/iio.c, for an integer with millionths (with or without a
 unit of decibels) or billionths.
 */
module IioValue {
  import opened Arithmetic
  import opened Basics
  import opened Decimal
  import opened Errno
  import opened Sequences

  datatype Format = IntPlusMicro | IntPlusMicroDb | IntPlusNano

  /** The number of decimals. */
  function Places(fmt: Format): nat {
    if fmt == IntPlusNano then 9 else 6
  }

  function Zeros(n: nat): (s: string)
    ensures |s| == n && forall i :: 0 <= i < n ==> s[i] == '0'
  {
    seq(n, _ => '0')
  }

  /** "%06u" and "%09u". */
  function Padded(n: nat, width: nat): string {
    if |Digits(n)| >= width then Digits(n) else Zeros(width - |Digits(n)|) + Digits(n)
  }

  /** A signed number converted to uint32_t. */
  function ToUint32(x: Int32): nat {
    if x < 0 then UINT32_MOD + x else x
  }

  /** iio_format_value. */
  function FormatValue(fmt: Format, val: Int32, val2: Int32): string {
    (if val2 < 0 then "-" else "") + Dec(val) + "." + Padded(ToUint32(val2), Places(fmt))
    + if fmt == IntPlusMicroDb then " dB" else ""
  }

  /* ---------- strtok and strtol ---------- */

  function Skipped(s: string, delims: string): string {
    if s != "" && s[0] in delims then Skipped(s[1..], delims) else s
  }

  function TokenLength(s: string, delims: string): (k: nat)
    ensures k <= |s|
  {
    if s == "" || s[0] in delims then 0 else 1 + TokenLength(s[1..], delims)
  }

  /** The next token, and what strtok continues with. */
  function Token(s: string, delims: string): Option<(string, string)> {
    var t := Skipped(s, delims);
    var k := TokenLength(t, delims);
    if t == "" then None else Some((t[..k], if k < |t| then t[k + 1..] else ""))
  }

  /** The value of a digit, none if it is not one in this base. */
  function DigitValue(c: char, base: nat): Option<nat> {
    var d := if '0' <= c <= '9' then (c - '0') as nat
             else if 'a' <= c <= 'z' then (c - 'a') as nat + 10
             else if 'A' <= c <= 'Z' then (c - 'A') as nat + 10
             else base;
    if d < base then Some(d) else None
  }

  function ValueFrom(s: string, base: nat, acc: nat): nat {
    if s == "" || DigitValue(s[0], base) == None then acc
    else ValueFrom(s[1..], base, acc * base + DigitValue(s[0], base).value)
  }

  /** Base 0: hexadecimal after 0x, octal after 0, decimal otherwise. */
  function Based(s: string): nat {
    if |s| > 2 && s[0] == '0' && s[1] in "xX" && DigitValue(s[2], 16) != None then ValueFrom(s[2..], 16, 0)
    else if s != "" && s[0] == '0' then ValueFrom(s, 8, 0)
    else ValueFrom(s, 10, 0)
  }

  /** strtol, for a long that reaches up to `longMax`. */
  function Strtol(s: string, base: nat, longMax: nat): int {
    var t := Skipped(s, " \t\n\U{000B}\U{000C}\r");
    var negative := t != "" && t[0] == '-';
    var u := if t != "" && (t[0] == '-' || t[0] == '+') then t[1..] else t;
    var v := if base == 0 then Based(u) else ValueFrom(u, base, 0);
    if negative then -Min(v, longMax + 1) else Min(v, longMax)
  }

  /** A long stored in an int32_t. */
  function Truncated(x: int): Int32 {
    ToInt32(x % UINT32_MOD)
  }

  /* ---------- What parsing comes to ---------- */

  /** The integer and the fraction token. */
  function Pieces(buf: string, fmt: Format): Option<(string, string)> {
    match Token(buf, ".")
    case None => None
    case Some((p, rest)) =>
      match Token(rest, if fmt == IntPlusMicroDb then "db" else "\n")
      case None => None
      case Some((q, _)) => Some((p, q))
  }

  function LeadingZeros(s: string): nat {
    if s != "" && s[0] == '0' then 1 + LeadingZeros(s[1..]) else 0
  }

  /** Rounded to tenths until it is below the subunits. */
  function Reduced(fract: nat, subunits: nat): (r: nat)
    requires subunits > 0
    ensures r < subunits && (fract < subunits ==> r == fract)
  {
    if fract < subunits then fract else Reduced((fract + 5) / 10, subunits)
  }

  /** The digits of `fract`, read as the first of `places` decimals. */
  function Decimals(fract: nat, places: nat): nat
    requires fract < Pow10(places)
  {
    fract * Pow10(if |Digits(fract)| <= places then places - |Digits(fract)| else 0)
  }

  /** What _iio_fract_interpret computes of a fraction and 10^places subunits. */
  function Interpreted(fract: int, places: nat): int {
    var r := Reduced(Magnitude(fract), Pow10(places));
    var d: int := Decimals(r, places);
    if fract < 0 then -d else d
  }

  datatype Parsed = Ok(val: int, val2: int) | Error(code: int)

  /** The fraction token as a number, with the sign that an integer part of zero cannot carry. */
  function Fraction(buf: string, p: string, q: string, longMax: nat): int {
    var fract: int := Truncated(Strtol(q, 10, longMax));
    if Truncated(Strtol(p, 0, longMax)) == 0 && buf != "" && buf[0] == '-' then -fract else fract
  }

  function ZerosBefore(q: string, longMax: nat): nat {
    if Truncated(Strtol(q, 10, longMax)) > 0 then LeadingZeros(q) else 0
  }

  function Magnitude(x: int): nat {
    if x < 0 then -x else x
  }

  /** The sum of the first rounding step, if there is one, is an int32; later steps add to less. */
  predicate Rounds(magnitude: nat, subunits: nat) {
    magnitude < subunits || magnitude <= INT32_MAX - 5
  }

  /** The texts for which the source computes something: the zeros before the fraction are no more than
      its decimals, so that the scale is an int32 and leaves some subunits, for which rounding ends; and
      neither negating nor rounding overflows.  DefinedIff says why. */
  predicate Defined(buf: string, fmt: Format, longMax: nat) {
    match Pieces(buf, fmt)
    case None => true
    case Some((p, q)) =>
      var fract, zeros := Truncated(Strtol(q, 10, longMax)), ZerosBefore(q, longMax);
      zeros <= Places(fmt) && fract > INT32_MIN && Rounds(Magnitude(fract), Pow10(Places(fmt) - zeros))
  }

  function Parse(buf: string, fmt: Format, longMax: nat): Parsed
    requires Defined(buf, fmt, longMax)
  {
    match Pieces(buf, fmt)
    case None => Error(-EINVAL)
    case Some((p, q)) =>
      Ok(Truncated(Strtol(p, 0, longMax)),
         Interpreted(Fraction(buf, p, q, longMax), Places(fmt) - ZerosBefore(q, longMax)))
  }

  /* ---------- The loops ---------- */

  /** __iio_str_parse. */
  method StrParse(buf: string, fmt: Format, longMax: nat) returns (ret: int, integer: int, fract: int, fractScale: nat)
    requires Defined(buf, fmt, longMax)
    ensures match Pieces(buf, fmt)
            case None => ret == -EINVAL
            case Some((p, q)) =>
              && ret == 0 && integer == Truncated(Strtol(p, 0, longMax)) && fract == Fraction(buf, p, q, longMax)
              && fractScale == Pow10(ZerosBefore(q, longMax)) && 0 < fractScale <= INT32_MAX
  {
    hide Strtol, Pieces;
    integer, fract, fractScale := 0, 0, 1;
    var pieces := Pieces(buf, fmt);
    if pieces == None {
      return -EINVAL, 0, 0, 1;
    }
    var (p, q) := pieces.value;
    integer := Truncated(Strtol(p, 0, longMax));
    fract := Truncated(Strtol(q, 10, longMax));
    var i := 0;
    while i < |q| && q[i] == '0' && fract > 0
      invariant i <= |q| && (fract > 0 ==> LeadingZeros(q) == i + LeadingZeros(q[i..])) && (fract <= 0 ==> i == 0)
      invariant fractScale == Pow10(i) && fractScale <= INT32_MAX
    {
      assert i + 1 <= ZerosBefore(q, longMax) <= 9 && fractScale * 10 == Pow10(i + 1);
      ScaleFitsIff(i + 1);
      assert fractScale * 10 <= INT32_MAX;
      fractScale := fractScale * 10;
      i := i + 1;
    }
    if integer == 0 && buf != "" && buf[0] == '-' {
      fract := -fract;
    }
    ret := 0;
  }

  function Tenth(x: int): int { x / 10 }

  /** _iio_fract_interpret. */
  method FractInterpret(fract0: int, subunits0: nat, ghost places: nat) returns (r: int)
    requires subunits0 == Pow10(places)
    requires INT32_MIN < fract0 <= INT32_MAX && Rounds(Magnitude(fract0), subunits0)
    ensures r == Interpreted(fract0, places)
  {
    var fract: int, mult: int, subunits := fract0, 1, subunits0;
    if fract < 0 {
      mult := -1;
      fract := -fract;
    }
    ghost var magnitude: nat := fract;
    while fract >= subunits
      invariant fract >= 0 && Reduced(fract, subunits) == Reduced(magnitude, subunits)
      invariant Rounds(fract, subunits)
    {
      assert fract + 10 / 2 <= INT32_MAX;
      fract := (fract + 10 / 2) / 10;
    }
    var scaled := Rescale(fract, subunits, places);
    r := scaled * mult;
  }

  /** The second loop of _iio_fract_interpret: as many subunits as there are places after the digits. */
  method Rescale(fract0: nat, subunits0: nat, ghost places: nat) returns (r: nat)
    requires subunits0 == Pow10(places) && fract0 < subunits0
    ensures r == Decimals(fract0, places)
  {
    var fract: int, subunits := fract0, subunits0;
    var temp: nat := fract0;
    ghost var left: nat := places;
    while subunits != 0 || temp != 0
      invariant subunits == Pow10(left) && temp < Pow10(left) && (places > 0 ==> left > 0) && fract == fract0
      invariant places - |Digits(fract0)| == left - |Digits(temp)|
      decreases subunits + temp
    {
      TensAndDigits(left, temp);
      temp := temp / 10;
      subunits := subunits / 10;
      if temp == 0 {
        break;
      }
      // With subunits a power of ten this never happens: a digit would be left over.
      if subunits <= 1 {
        fract := Tenth(fract);
      }
      left := left - 1;
    }
    DigitsFit(fract0, places);
    r := fract * subunits;
  }

  lemma DigitsFit(n: nat, places: nat)
    requires n < Pow10(places)
    ensures places > 0 ==> |Digits(n)| <= places
  {
    if places > 0 {
      DigitsLength(n, places);
    }
  }

  lemma TensAndDigits(k: nat, n: nat)
    requires n < Pow10(k)
    ensures n >= 10 ==> k > 1 && |Digits(n)| == |Digits(n / 10)| + 1 && n / 10 < Pow10(k - 1) && Pow10(k) / 10 > 1
    ensures n < 10 ==> |Digits(n)| == 1
    ensures Pow10(k) / 10 == if k == 0 then 0 else Pow10(k - 1)
  {
  }

  /** iio_parse_value. */
  method ParseValue(buf: string, fmt: Format, longMax: nat) returns (parsed: Parsed)
    requires Defined(buf, fmt, longMax)
    ensures parsed == Parse(buf, fmt, longMax)
  {
    var ret, integer, fract, fractScale := StrParse(buf, fmt, longMax);
    if ret < 0 {
      return Error(ret);
    }
    var units := if fmt == IntPlusNano then 1000000000 else 1000000;
    ghost var zeros := ZerosBefore(Pieces(buf, fmt).value.1, longMax);
    ScaledUnits(Places(fmt), zeros);
    fract := FractInterpret(fract, units / fractScale, Places(fmt) - zeros);
    parsed := Ok(integer, fract);
  }

  lemma {:induction false} PowSum(k: nat, l: nat)
    ensures Pow10(k + l) == Pow10(k) * Pow10(l)
  {
    if k > 0 {
      PowSum(k - 1, l);
    }
  }

  lemma ScaledUnits(places: nat, zeros: nat)
    requires zeros <= places
    ensures Pow10(places) / Pow10(zeros) == Pow10(places - zeros)
    ensures Pow10(6) == 1000000 && Pow10(9) == 1000000000
  {
    PowSum(places - zeros, zeros);
    DivisionIsUnique(Pow10(places), Pow10(zeros), Pow10(places - zeros), 0);
  }

  /* ---------- Digits read back ---------- */

  predicate IsDigit(c: char) { '0' <= c <= '9' }

  lemma {:induction false} ReadDigits(n: nat, rest: string, acc: nat)
    ensures ValueFrom(Digits(n) + rest, 10, acc) == ValueFrom(rest, 10, acc * Pow10(|Digits(n)|) + n)
  {
    if n < 10 {
      ReadDigit(n, rest, acc);
      assert Pow10(1) == 10;
    } else {
      ReadDigits(n / 10, [Digit(n % 10)] + rest, acc);
      ReadLast(Digits(n / 10), rest, acc, n);
    }
  }

  lemma ReadLast(high: string, rest: string, acc: nat, n: nat)
    requires var d := [Digit(n % 10)];
             ValueFrom(high + (d + rest), 10, acc) == ValueFrom(d + rest, 10, acc * Pow10(|high|) + n / 10)
    ensures ValueFrom(high + [Digit(n % 10)] + rest, 10, acc) == ValueFrom(rest, 10, acc * Pow10(|high| + 1) + n)
  {
    hide *;
    Associative(high, [Digit(n % 10)], rest);
    ReadDigit(n % 10, rest, acc * Pow10(|high|) + n / 10);
    Tenfold(acc, |high|, n);
  }

  lemma ReadDigit(d: nat, rest: string, acc: nat)
    requires d < 10
    ensures ValueFrom([Digit(d)] + rest, 10, acc) == ValueFrom(rest, 10, acc * 10 + d)
  {
    assert ([Digit(d)] + rest)[1..] == rest;
  }

  lemma Tenfold(x: nat, k: nat, n: nat)
    ensures (x * Pow10(k) + n / 10) * 10 + n % 10 == x * Pow10(k + 1) + n
  {
    assert x * (10 * Pow10(k)) == (x * Pow10(k)) * 10;
  }

  lemma {:induction false} ReadZeros(z: nat, rest: string)
    ensures ValueFrom(Zeros(z) + rest, 10, 0) == ValueFrom(rest, 10, 0)
    ensures LeadingZeros(Zeros(z) + rest) == z + LeadingZeros(rest)
  {
    if z == 0 {
      assert Zeros(0) + rest == rest;
    } else {
      assert (Zeros(z) + rest)[1..] == Zeros(z - 1) + rest;
      ReadZeros(z - 1, rest);
    }
  }

  lemma {:induction false} FirstDigit(n: nat)
    ensures IsDigit(Digits(n)[0]) && (n > 0 ==> Digits(n)[0] != '0')
  {
    if n >= 10 {
      FirstDigit(n / 10);
    }
  }

  /** What strtol makes of digits followed by something else. */
  lemma StrtolOfPadded(n: nat, width: nat, tail: string, longMax: nat)
    requires tail == "" || !IsDigit(tail[0])
    ensures Strtol(Padded(n, width) + tail, 10, longMax) == Min(n, longMax)
    ensures n > 0 ==> LeadingZeros(Padded(n, width) + tail) == ZerosNeeded(n, width)
  {
    hide ValueFrom, Digits, LeadingZeros;
    var s := Padded(n, width) + tail;
    PaddedParts(n, width, tail);
    ReadDigits(n, tail, 0);
    NoDigitEnds(tail, n);
    ReadZeros(ZerosNeeded(n, width), Digits(n) + tail);
    NoZeroLeads(n, tail);
    StrtolPlain(s, longMax);
  }

  function ZerosNeeded(n: nat, width: nat): nat {
    if |Digits(n)| >= width then 0 else width - |Digits(n)|
  }

  lemma PaddedParts(n: nat, width: nat, tail: string)
    ensures var s := Padded(n, width) + tail;
            s == Zeros(ZerosNeeded(n, width)) + (Digits(n) + tail) && s != "" && IsDigit(s[0])
  {
    hide Digits;
    FirstDigit(n);
    Associative(Zeros(ZerosNeeded(n, width)), Digits(n), tail);
    assert Zeros(0) + Digits(n) == Digits(n);
  }

  lemma NoZeroLeads(n: nat, tail: string)
    ensures n > 0 ==> LeadingZeros(Digits(n) + tail) == 0
  {
    FirstDigit(n);
  }

  /** Without spaces or a sign in front. */
  lemma StrtolPlain(s: string, longMax: nat)
    requires s != "" && IsDigit(s[0])
    ensures Strtol(s, 10, longMax) == Min(ValueFrom(s, 10, 0), longMax)
    ensures Strtol(s, 0, longMax) == Min(Based(s), longMax)
  {
    hide ValueFrom, Based;
  }

  lemma StrtolNegative(s: string, longMax: nat)
    requires s != "" && s[0] == '-'
    ensures Strtol(s, 0, longMax) == -Min(Based(s[1..]), longMax + 1)
  {
    hide ValueFrom, Based;
  }

  lemma NoDigitEnds(tail: string, acc: nat)
    requires tail == "" || !IsDigit(tail[0])
    ensures ValueFrom(tail, 10, acc) == acc
  {
  }

  lemma BasedOfDigits(n: nat)
    ensures Based(Digits(n)) == n
  {
    FirstDigit(n);
    ReadDigits(n, "", 0);
    assert Digits(n) + "" == Digits(n);
    if n == 0 {
      assert Digits(0) == "0" && ValueFrom("0", 8, 0) == 0;
    }
  }

  /** strtol reads back what "%d" printed. */
  lemma StrtolOfDec(v: Int32, longMax: nat)
    requires longMax >= INT32_MAX
    ensures Strtol(Dec(v), 0, longMax) == v
  {
    hide Based, ValueFrom, Strtol, Digits;
    var n: nat := if v < 0 then -(v as int) else v;
    BasedOfDigits(n);
    if v < 0 {
      assert Dec(v)[1..] == Digits(n);
      StrtolNegative(Dec(v), longMax);
    } else {
      FirstDigit(n);
      StrtolPlain(Dec(v), longMax);
    }
  }

  /* ---------- Tokens ---------- */

  lemma {:induction false} TokenStops(a: string, delims: string, rest: string)
    requires forall i :: 0 <= i < |a| ==> a[i] !in delims
    requires rest == "" || rest[0] in delims
    ensures TokenLength(a + rest, delims) == |a|
  {
    if a == "" {
      assert a + rest == rest;
    } else {
      assert (a + rest)[1..] == a[1..] + rest;
      TokenStops(a[1..], delims, rest);
    }
  }

  /** A text without delimiters, up to one or to the end. */
  lemma TokenIs(a: string, delims: string, rest: string)
    requires a != "" && forall i :: 0 <= i < |a| ==> a[i] !in delims
    requires rest == "" || rest[0] in delims
    ensures Token(a + rest, delims) == Some((a, if rest == "" then "" else rest[1..]))
  {
    hide TokenLength;
    TokenStops(a, delims, rest);
    var s := a + rest;
    assert Skipped(s, delims) == s && s[..|a|] == a;
    if rest != "" {
      assert s[|a| + 1..] == rest[1..];
    }
  }

  predicate IsNumeral(s: string) {
    s != "" && forall i :: 0 <= i < |s| ==> IsDigit(s[i]) || s[i] == '-'
  }

  lemma PaddedIsDigits(n: nat, width: nat)
    ensures Padded(n, width) != "" && forall i :: 0 <= i < |Padded(n, width)| ==> IsDigit(Padded(n, width)[i])
  {
    forall i | 0 <= i < |Digits(n)| ensures IsDigit(Digits(n)[i]) {
      assert Digits(n)[i] in Digits(n);
    }
  }

  /** The pieces of a numeral, a point, digits and the unit. */
  lemma PiecesOf(p: string, n: nat, width: nat, fmt: Format)
    requires IsNumeral(p)
    ensures var q := Padded(n, width);
            Pieces(p + "." + q + if fmt == IntPlusMicroDb then " dB" else "", fmt)
            == Some((p, q + if fmt == IntPlusMicroDb then " " else ""))
  {
    hide Token, Padded;
    var q := Padded(n, width);
    PaddedIsDigits(n, width);
    var unit := if fmt == IntPlusMicroDb then " dB" else "";
    assert p + "." + q + unit == p + ("." + (q + unit));
    TokenIs(p, ".", "." + (q + unit));
    assert ("." + (q + unit))[1..] == q + unit;
    if fmt == IntPlusMicroDb {
      assert q + " dB" == q + " " + "dB";
      TokenIs(q + " ", "db", "dB");
    } else {
      assert q + "" == q;
      TokenIs(q, "\n", "");
    }
  }

  /** What parsing makes of a formatted pair, the integer part being printed as `p`. */
  lemma ParsedFormat(p: string, buf: string, n: nat, fmt: Format, longMax: nat)
    requires IsNumeral(p) && n < UINT32_MOD && longMax >= INT32_MAX
    requires buf == p + "." + Padded(n, Places(fmt)) + if fmt == IntPlusMicroDb then " dB" else ""
    ensures var integer := Truncated(Strtol(p, 0, longMax)); var fract: int := Truncated(Min(n, longMax));
            var zeros := if fract > 0 then ZerosNeeded(n, Places(fmt)) else 0;
            && zeros <= Places(fmt)
            && (Defined(buf, fmt, longMax) <==>
                  fract > INT32_MIN && Rounds(Magnitude(fract), Pow10(Places(fmt) - zeros)))
            && (Defined(buf, fmt, longMax) ==>
                  Parse(buf, fmt, longMax)
                  == Ok(integer,
                        Interpreted(if integer == 0 && p[0] == '-' then -fract else fract, Places(fmt) - zeros)))
  {
    hide Strtol, Padded, Pieces, LeadingZeros, Digits, Truncated, Interpreted, Rounds, Magnitude;
    var tail := if fmt == IntPlusMicroDb then " " else "";
    PiecesOf(p, n, Places(fmt), fmt);
    StrtolOfPadded(n, Places(fmt), tail, longMax);
    NothingIsZero();
  }

  lemma NothingIsZero()
    ensures Truncated(0) == 0
  {
  }

  /* ---------- Round trips ---------- */

  const INT64_MAX := 0x7FFF_FFFF_FFFF_FFFF

  lemma DecIsNumeral(v: int)
    ensures IsNumeral(Dec(v)) && IsNumeral("-" + Dec(v)) && (v >= 0 ==> Dec(v)[0] != '-')
  {
    var n: nat := if v < 0 then -v else v;
    FirstDigit(n);
    forall i | 0 <= i < |Digits(n)| ensures IsDigit(Digits(n)[i]) {
      assert Digits(n)[i] in Digits(n);
    }
  }

  lemma TruncatedSame(v: Int32)
    ensures Truncated(v) == v && Truncated(ToUint32(v)) == v
  {
  }

  lemma {:induction false} DigitsBound(n: nat)
    ensures n < Pow10(|Digits(n)|)
  {
    if n >= 10 {
      DigitsBound(n / 10);
    }
  }

  lemma ScaledBelow(x: nat, y: nat, k: nat)
    requires x < y && k > 0
    ensures x * k < y * k
  {
    TimesMonotone(x + 1, y, k);
  }

  lemma DecimalsBound(r: nat, places: nat)
    requires r < Pow10(places)
    ensures Decimals(r, places) < Pow10(places)
  {
    var d := |Digits(r)|;
    if d <= places {
      DigitsBound(r);
      PowSum(d, places - d);
      ScaledBelow(r, Pow10(d), Pow10(places - d));
    }
  }

  /** A fraction with its leading zeros taken off is read as itself. */
  lemma InterpretedSame(n: nat, places: nat)
    requires n < Pow10(places)
    ensures var zeros := if n > 0 then ZerosNeeded(n, places) else 0; Interpreted(n, places - zeros) == n
  {
    if n > 0 {
      DigitsFit(n, places);
      OwnDigits(n);
    } else {
      hide Pow10;
      assert Reduced(0, Pow10(places)) == 0;
    }
  }

  lemma OwnDigits(n: nat)
    ensures Interpreted(n, |Digits(n)|) == n
  {
    DigitsBound(n);
    hide Digits;
    assert Pow10(0) == 1;
  }

  /** A fraction with more digits than places does not come back. */
  lemma InterpretedOther(n: nat, places: nat)
    requires n >= Pow10(places)
    ensures ZerosNeeded(n, places) == 0 && Interpreted(n, places) < n
  {
    DecimalsBound(Reduced(n, Pow10(places)), places);
    DigitsBound(n);
    PowMonotone(|Digits(n)|, places);
  }

  lemma PowMonotone(k: nat, l: nat)
    ensures k <= l ==> Pow10(k) <= Pow10(l)
  {
    if k <= l {
      PowSum(k, l - k);
      TimesMonotone(1, Pow10(l - k), Pow10(k));
    }
  }

  /** A non-negative fraction. */
  lemma PositiveRoundTrip(fmt: Format, val: Int32, val2: Int32, longMax: nat)
    requires val2 >= 0 && longMax >= INT32_MAX
    ensures var buf := FormatValue(fmt, val, val2);
            && (Defined(buf, fmt, longMax) <==> val2 <= INT32_MAX - 5)
            && (Defined(buf, fmt, longMax) ==>
                  (Parse(buf, fmt, longMax) == Ok(val, val2) <==> val2 < Pow10(Places(fmt))))
  {
    hide Strtol, Padded, Pieces, Digits, Truncated, Interpreted, ZerosNeeded, Parse, Defined, Dec, IsNumeral, Pow10;
    DecIsNumeral(val);
    StrtolOfDec(val, longMax);
    TruncatedSame(val);
    TruncatedSame(val2);
    assert "" + Dec(val) == Dec(val);
    ParsedFormat(Dec(val), FormatValue(fmt, val, val2), val2, fmt, longMax);
    ScaledUnits(6, 0);
    if val2 < Pow10(Places(fmt)) {
      InterpretedSame(val2, Places(fmt));
    } else {
      InterpretedOther(val2, Places(fmt));
    }
  }

  /** A negative fraction is printed as a number above the range of int32.  A long of 32 bits
      saturates on it, and rounding the greatest int32 overflows; a longer one reads the magnitude. */
  lemma NegativeRoundTrip(fmt: Format, val: Int32, val2: Int32, longMax: nat)
    requires val2 < 0 && (longMax == INT32_MAX || longMax == INT64_MAX)
    ensures var buf := FormatValue(fmt, val, val2);
            && (Defined(buf, fmt, longMax) <==> longMax == INT64_MAX && val2 >= 5 - INT32_MAX)
            && (Defined(buf, fmt, longMax) ==> Parse(buf, fmt, longMax) != Ok(val, val2))
  {
    hide Strtol, Padded, Pieces, Digits, Truncated, Interpreted, ZerosNeeded, Parse, Defined, Dec, IsNumeral, Pow10;
    var n := ToUint32(val2);
    DecIsNumeral(val);
    TruncatedSame(val2);
    TruncatedSame(INT32_MAX);
    ScaledUnits(6, 0);
    InterpretedOther(n, Places(fmt));
    ParsedFormat("-" + Dec(val), FormatValue(fmt, val, val2), n, fmt, longMax);
    NegatedReads(val, longMax);
    if val == 0 {
      NotNegative(-(val2 as int), Places(fmt));
    }
  }

  lemma NotNegative(n: nat, places: nat)
    ensures Interpreted(n, places) >= 0
  {
  }

  /** Which pairs the source prints and parses without overflow, and which of them come back: with any
      integer part, exactly those whose fraction is not negative and fits its decimals. */
  lemma RoundTripIff(fmt: Format, val: Int32, val2: Int32, longMax: nat)
    requires longMax == INT32_MAX || longMax == INT64_MAX
    ensures var buf := FormatValue(fmt, val, val2);
            && (Defined(buf, fmt, longMax) <==>
                  val2 <= INT32_MAX - 5 && (val2 < 0 ==> longMax == INT64_MAX && val2 >= 5 - INT32_MAX))
            && (Defined(buf, fmt, longMax) ==>
                  (Parse(buf, fmt, longMax) == Ok(val, val2) <==> 0 <= val2 < Pow10(Places(fmt))))
  {
    hide FormatValue, Defined, Parse;
    if val2 < 0 {
      NegativeRoundTrip(fmt, val, val2, longMax);
    } else {
      PositiveRoundTrip(fmt, val, val2, longMax);
    }
  }

  /** With a second sign in front the integer part is negated, or lost. */
  lemma NegatedReads(val: Int32, longMax: nat)
    requires longMax >= INT32_MAX
    ensures Truncated(Strtol("-" + Dec(val), 0, longMax)) == if val < 0 then 0 else -(val as int)
  {
    var s := "-" + Dec(val);
    assert s[1..] == Dec(val);
    StrtolNegative(s, longMax);
    if val < 0 {
      assert Based(Dec(val)) == 0;
      TruncatedSame(0);
    } else {
      BasedOfDigits(val);
      TruncatedSame(-(val as int));
    }
  }

  /** Whole numbers come back as they are. */
  lemma WholeNumbersReturn(val: Int32, longMax: nat)
    requires longMax >= INT32_MAX
    ensures Truncated(Strtol(Dec(val), 0, longMax)) == val
  {
    StrtolOfDec(val, longMax);
    TruncatedSame(val);
  }

  /* ---------- Where the source computes nothing ---------- */

  /** `n` turns of the rounding loop. */
  function RoundedTimes(fract: nat, n: nat): nat {
    if n == 0 then fract else RoundedTimes((fract + 5) / 10, n - 1)
  }

  ghost predicate RoundingEnds(fract: nat, subunits: int) {
    exists n :: RoundedTimes(fract, n) < subunits
  }

  lemma {:induction false} RoundedToZero(fract: nat, n: nat)
    requires n >= fract
    ensures RoundedTimes(fract, n) == 0
  {
    if n > 0 {
      RoundedToZero((fract + 5) / 10, n - 1);
    }
  }

  /** The rounding loop ends if and only if there are subunits left. */
  lemma RoundingEndsIff(fract: nat, subunits: int)
    ensures RoundingEnds(fract, subunits) <==> subunits > 0
  {
    if subunits > 0 {
      RoundedToZero(fract, fract);
      assert RoundedTimes(fract, fract) < subunits;
    }
  }

  /** The subunits that zeros before the fraction leave. */
  function Subunits(places: nat, zeros: nat): int {
    Pow10(places) / Pow10(zeros)
  }

  /** The zeros before the fraction leave subunits if and only if there are no more than decimals. */
  lemma SubunitsLeftIff(places: nat, zeros: nat)
    ensures Subunits(places, zeros) > 0 <==> zeros <= places
  {
    if zeros <= places {
      ScaledUnits(places, zeros);
    } else {
      PowSum(1, places);
      PowMonotone(places + 1, zeros);
      DivisionIsUnique(Pow10(places), Pow10(zeros), 0, Pow10(places));
    }
  }

  /** What becomes of a fraction with zeros before it: the scale, ten times itself for each of them, may
      leave its int32_t; if it does not, the rounding loop may end or not. */
  datatype Fate = Ends | Endless | ScaleOverflows

  ghost function FateOf(fract: nat, places: nat, zeros: nat): Fate {
    if Pow10(zeros) > INT32_MAX then ScaleOverflows
    else if RoundingEnds(fract, Subunits(places, zeros)) then Ends
    else Endless
  }

  /** As many zeros as decimals are fine.  From ten on the scale overflows.  Between them, which only
      millionths leave room for, the loop does not end. */
  lemma FateByZeros(fract: nat, fmt: Format, zeros: nat)
    ensures FateOf(fract, Places(fmt), zeros)
         == if zeros <= Places(fmt) then Ends else if zeros <= 9 then Endless else ScaleOverflows
    ensures FateOf(fract, Places(fmt), zeros) == Endless ==> fmt != IntPlusNano
  {
    ScaleFitsIff(zeros);
    SubunitsLeftIff(Places(fmt), zeros);
    RoundingEndsIff(fract, Subunits(Places(fmt), zeros));
  }

  lemma ScaleFitsIff(zeros: nat)
    ensures Pow10(zeros) <= INT32_MAX <==> zeros <= 9
  {
    assert Pow10(9) == 1000000000 && Pow10(10) == 10000000000;
    PowMonotone(zeros, 9);
    PowMonotone(10, zeros);
  }

  /** The texts for which the source computes something, by the fate of their fractions. */
  lemma DefinedIff(buf: string, fmt: Format, longMax: nat)
    ensures Defined(buf, fmt, longMax) <==>
            match Pieces(buf, fmt)
            case None => true
            case Some((p, q)) =>
              var fract, zeros := Truncated(Strtol(q, 10, longMax)), ZerosBefore(q, longMax);
              && FateOf(Magnitude(fract), Places(fmt), zeros) == Ends && fract > INT32_MIN
              && (zeros <= Places(fmt) ==> Rounds(Magnitude(fract), Subunits(Places(fmt), zeros)))
  {
    hide Strtol, Truncated, Magnitude, Pieces, FateOf, Rounds, ZerosBefore;
    match Pieces(buf, fmt)
    case None =>
    case Some((p, q)) =>
      var zeros := ZerosBefore(q, longMax);
      FateByZeros(Magnitude(Truncated(Strtol(q, 10, longMax))), fmt, zeros);
      if zeros <= Places(fmt) {
        ScaledUnits(Places(fmt), zeros);
      }
  }

  /** A text with more zeros than decimals before its fraction. */
  lemma TooManyZeros(fmt: Format, n: nat, width: nat, longMax: nat)
    requires longMax >= INT32_MAX && 0 < n <= INT32_MAX && width > Places(fmt) + |Digits(n)|
    ensures var buf := "0." + Padded(n, width) + if fmt == IntPlusMicroDb then " dB" else "";
            !Defined(buf, fmt, longMax)
    ensures FateOf(n, Places(fmt), ZerosNeeded(n, width))
         == if width <= 9 + |Digits(n)| then Endless else ScaleOverflows
  {
    hide Strtol, Padded, Pieces, LeadingZeros, Digits;
    var tail := if fmt == IntPlusMicroDb then " " else "";
    assert IsNumeral("0") && "0" + "." == "0.";
    PiecesOf("0", n, width, fmt);
    StrtolOfPadded(n, width, tail, longMax);
    TruncatedSame(n);
    FateByZeros(n, fmt, ZerosNeeded(n, width));
  }

  /** The shortest one for millionths; with one zero less the loop ends. */
  lemma EightDecimals(longMax: nat)
    requires longMax >= INT32_MAX
    ensures !Defined("0.00000001", IntPlusMicro, longMax) && FateOf(1, 6, 7) == Endless
    ensures FateOf(1, 6, 6) == Ends
  {
    assert Digits(1) == "1" && Zeros(7) == "0000000";
    assert "0." + (Zeros(7) + "1") + "" == "0.00000001";
    TooManyZeros(IntPlusMicro, 1, 8, longMax);
    FateByZeros(1, IntPlusMicro, 6);
  }

  /** The shortest one for billionths, with ten zeros. */
  lemma ElevenDecimals(longMax: nat)
    requires longMax >= INT32_MAX
    ensures !Defined("0.00000000001", IntPlusNano, longMax) && FateOf(1, 9, 10) == ScaleOverflows
    ensures FateOf(1, 9, 9) == Ends
  {
    assert Digits(1) == "1" && Zeros(10) == "0000000000";
    assert "0." + (Zeros(10) + "1") + "" == "0.00000000001";
    TooManyZeros(IntPlusNano, 1, 11, longMax);
    FateByZeros(1, IntPlusNano, 9);
  }

  /** The scale on a machine whose int32_t wraps around. */
  function WrappedScale(zeros: nat): Int32 {
    Truncated(Pow10(zeros))
  }

  /** Even there more zeros need not mean an endless loop: with 14 of them three billionths are left, so
      that it ends.  From 32 on the scale is zero, by which the subunits cannot be divided. */
  lemma WrappedScales(zeros: nat)
    ensures WrappedScale(14) == 276447232 && 1000000000 / 276447232 == 3 && RoundingEnds(1, 3)
    ensures zeros >= 32 ==> WrappedScale(zeros) == 0
  {
    hide Pow10;
    LargePowers();
    RoundingEndsIff(1, 3);
    if zeros >= 32 {
      PowSum(32, zeros - 32);
      MultipleVanishes(Pow10(zeros - 32));
    }
  }

  lemma LargePowers()
    ensures Pow10(14) == 100000000000000 && Pow10(32) == 100000000000000000000000000000000
  {
    assert Pow10(7) == 10000000 && Pow10(8) == 100000000;
    hide Pow10;
    PowSum(7, 7);
    PowSum(8, 8);
    PowSum(16, 16);
  }

  lemma MultipleVanishes(k: nat)
    ensures (100000000000000000000000000000000 * k) % UINT32_MOD == 0
  {
    var q := 23283064365386962890625 * k;
    assert 100000000000000000000000000000000 * k == q * UINT32_MOD;
    DivisionIsUnique(100000000000000000000000000000000 * k, UINT32_MOD, q, 0);
  }
}
