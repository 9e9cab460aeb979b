/**
 Cyclic redundancy checks of any width, on bit sequences, most significant bit first.

 A register of `w` bits is fed a message bit by bit.  The reference is long division of polynomials
 over GF(2).  The table-driven byte step, the error-detection theorem and cascading are proved here
 once for all widths; the three CRC modules only connect machine words to bit sequences.
 */
module CrcTheory {

  type Bits = seq<bool>

  function Zeros(n: nat): (z: Bits)
    ensures |z| == n && forall i :: 0 <= i < n ==> !z[i]
  {
    seq(n, i => false)
  }

  function Xor(a: Bits, b: Bits): (r: Bits)
    requires |a| == |b|
    ensures |r| == |a| && forall i :: 0 <= i < |a| ==> r[i] == (a[i] != b[i])
  {
    seq(|a|, i requires 0 <= i < |a| => a[i] != b[i])
  }

  /** `d` with its first bits changed by `r`. */
  function XorPrefix(d: Bits, r: Bits): (x: Bits)
    requires |r| <= |d|
    ensures |x| == |d| && forall i :: 0 <= i < |d| ==> x[i] == if i < |r| then d[i] != r[i] else d[i]
  {
    Xor(d[..|r|], r) + d[|r|..]
  }

  /* ---------- The shift register and the division it performs ---------- */

  /** One message bit through the register: shift left, and subtract the generator `gen` (without its
      leading 1) when the bit shifted out differs from the message bit. */
  function BitStep(r: Bits, b: bool, gen: Bits): (r': Bits)
    requires 0 < |r| == |gen|
    ensures |r'| == |r|
    ensures forall i :: 0 <= i < |r| ==>
              r'[i] == ((if i == |r| - 1 then false else r[i + 1]) != (r[0] != b && gen[i]))
  {
    var shifted := r[1..] + [false];
    if r[0] != b then Xor(shifted, gen) else shifted
  }

  function Feed(r: Bits, msg: Bits, gen: Bits): (r': Bits)
    requires 0 < |r| == |gen|
    ensures |r'| == |r|
    decreases |msg|
  {
    if msg == [] then r else Feed(BitStep(r, msg[0], gen), msg[1..], gen)
  }

  /** The dividend with its leading coefficient cancelled. */
  function Reduced(d: Bits, gen: Bits): (r: Bits)
    requires 0 < |gen| < |d|
    ensures |r| == |d| - 1
  {
    if d[0] then XorPrefix(d[1..], gen) else d[1..]
  }

  /** Long division: as long as the dividend `d` is longer than the remainder may be, its leading
      coefficient is cancelled by subtracting the generator x^w + gen below it. */
  function Remainder(d: Bits, gen: Bits): (r: Bits)
    requires 0 < |gen| <= |d|
    ensures |r| == |gen|
    decreases |d|
  {
    if |d| == |gen| then d
    else Remainder(Reduced(d, gen), gen)
  }

  /** The coefficients of the quotient, one for each step of the division. */
  function Quotient(d: Bits, gen: Bits): (q: Bits)
    requires 0 < |gen| <= |d|
    ensures |q| == |d| - |gen|
    decreases |d|
  {
    if |d| == |gen| then []
    else [d[0]] + Quotient(Reduced(d, gen), gen)
  }

  /** `q` times the polynomial x^w + gen. */
  function Product(q: Bits, gen: Bits): (p: Bits)
    requires 0 < |gen|
    ensures |p| == |q| + |gen|
  {
    if q == [] then Zeros(|gen|)
    else if q[0] then [true] + XorPrefix(Product(q[1..], gen), gen)
    else [false] + Product(q[1..], gen)
  }

  /** `d` with its last bits changed by `r`. */
  function XorSuffix(d: Bits, r: Bits): (x: Bits)
    requires |r| <= |d|
    ensures |x| == |d|
    ensures forall i :: 0 <= i < |d| ==> x[i] == if i < |d| - |r| then d[i] else d[i] != r[i - (|d| - |r|)]
  {
    d[..|d| - |r|] + Xor(d[|d| - |r|..], r)
  }

  /** The division is one: the dividend is the quotient times the generator, plus the remainder,
      which is shorter than the generator. */
  lemma {:induction false} DivisionIdentity(d: Bits, gen: Bits)
    requires 0 < |gen| <= |d|
    ensures d == XorSuffix(Product(Quotient(d, gen), gen), Remainder(d, gen))
    decreases |d|
  {
    if |d| == |gen| {
      assert XorSuffix(Zeros(|gen|), d) == d;
    } else {
      hide XorPrefix, XorSuffix, Product;
      var d' := Reduced(d, gen);
      DivisionIdentity(d', gen);
      DivisionStep(d, gen, Quotient(d', gen), Remainder(d', gen));
    }
  }

  /** One step of the division. */
  lemma DivisionStep(d: Bits, gen: Bits, q: Bits, r: Bits)
    requires 0 < |gen| < |d| && |r| == |gen| && |q| + |gen| == |d| - 1
    requires Reduced(d, gen) == XorSuffix(Product(q, gen), r)
    ensures d == XorSuffix(Product([d[0]] + q, gen), r)
  {
    hide XorPrefix, XorSuffix, Product;
    ProductStep(d[0], q, gen);
    XorTwice(d[1..], gen);
    Commute(Product(q, gen), gen, r);
    LeadingStays(d[0], if d[0] then XorPrefix(Product(q, gen), gen) else Product(q, gen), r);
    assert d == [d[0]] + d[1..];
  }

  /** It is the only one: no other quotient and remainder of these lengths make up the dividend. */
  lemma {:induction false} DivisionIsUnique(d: Bits, gen: Bits, q: Bits, r: Bits)
    requires 0 < |gen| <= |d| && |r| == |gen| && |q| + |gen| == |d|
    requires d == XorSuffix(Product(q, gen), r)
    ensures q == Quotient(d, gen) && r == Remainder(d, gen)
    decreases |d|
  {
    if q == [] {
      assert XorSuffix(Zeros(|gen|), r) == r;
    } else {
      hide XorPrefix, XorSuffix, Product;
      var rest := q[1..];
      assert q == [q[0]] + rest;
      var p := if q[0] then XorPrefix(Product(rest, gen), gen) else Product(rest, gen);
      ProductStep(q[0], rest, gen);
      LeadingStays(q[0], p, r);
      assert d[0] == q[0] && d[1..] == XorSuffix(p, r);
      Commute(Product(rest, gen), gen, r);
      XorTwice(XorSuffix(Product(rest, gen), r), gen);
      DivisionIsUnique(Reduced(d, gen), gen, rest, r);
    }
  }

  lemma ProductStep(b: bool, q: Bits, gen: Bits)
    requires 0 < |gen|
    ensures Product([b] + q, gen) == [b] + if b then XorPrefix(Product(q, gen), gen) else Product(q, gen)
  {
    hide XorPrefix;
    assert ([b] + q)[1..] == q;
  }

  lemma XorTwice(x: Bits, gen: Bits)
    requires |gen| <= |x|
    ensures XorPrefix(XorPrefix(x, gen), gen) == x
  {
    hide XorPrefix;
  }

  lemma Commute(p: Bits, gen: Bits, r: Bits)
    requires |gen| <= |p| && |r| <= |p|
    ensures XorPrefix(XorSuffix(p, r), gen) == XorSuffix(XorPrefix(p, gen), r)
  {
    hide XorPrefix, XorSuffix;
  }

  lemma LeadingStays(b: bool, p: Bits, r: Bits)
    requires |r| <= |p|
    ensures XorSuffix([b] + p, r) == [b] + XorSuffix(p, r)
  {
    hide XorSuffix, Xor;
  }

  /** One step of the register is one step of the division. */
  lemma DividendStep(r: Bits, msg: Bits, gen: Bits)
    requires 0 < |r| == |gen| && msg != []
    ensures var d := XorPrefix(msg + Zeros(|gen|), r);
            XorPrefix(msg[1..] + Zeros(|gen|), BitStep(r, msg[0], gen)) == Reduced(d, gen)
  {
    hide XorPrefix, Zeros, BitStep;
    var w := |gen|;
    var m, m' := msg + Zeros(w), msg[1..] + Zeros(w);
    assert m' == m[1..];
    assert forall i :: w - 1 <= i < |m'| ==> i < |msg| - 1 || !m'[i];
  }

  /** Feeding a message computes the remainder of the message, shifted by the width, with the initial
      register added to its leading coefficients. */
  lemma {:induction false} FeedIsRemainder(r: Bits, msg: Bits, gen: Bits)
    requires 0 < |r| == |gen|
    ensures Feed(r, msg, gen) == Remainder(XorPrefix(msg + Zeros(|gen|), r), gen)
    decreases |msg|
  {
    var d := XorPrefix(msg + Zeros(|gen|), r);
    if msg == [] {
      assert d == r;
    } else {
      hide XorPrefix, BitStep;
      FeedIsRemainder(BitStep(r, msg[0], gen), msg[1..], gen);
      DividendStep(r, msg, gen);
    }
  }

  lemma {:induction false} FeedConcat(r: Bits, a: Bits, b: Bits, gen: Bits)
    requires 0 < |r| == |gen|
    ensures Feed(r, a + b, gen) == Feed(Feed(r, a, gen), b, gen)
    decreases |a|
  {
    if a == [] {
      assert a + b == b;
    } else {
      assert (a + b)[1..] == a[1..] + b;
      FeedConcat(BitStep(r, a[0], gen), a[1..], b, gen);
    }
  }

  /* ---------- Linearity: a byte at a time by table ---------- */

  lemma {:induction false} ZeroFeedLinear(a: Bits, b: Bits, n: nat, gen: Bits)
    requires 0 < |a| == |b| == |gen|
    ensures Feed(Xor(a, b), Zeros(n), gen) == Xor(Feed(a, Zeros(n), gen), Feed(b, Zeros(n), gen))
    decreases n
  {
    if n > 0 {
      assert Zeros(n)[1..] == Zeros(n - 1);
      assert BitStep(Xor(a, b), false, gen) == Xor(BitStep(a, false, gen), BitStep(b, false, gen));
      ZeroFeedLinear(BitStep(a, false, gen), BitStep(b, false, gen), n - 1, gen);
    }
  }

  /** Leading zeros are shifted out without any subtraction. */
  lemma {:induction false} ZeroFeedShifts(r: Bits, n: nat, gen: Bits)
    requires 0 < |r| == |gen| && n <= |r| && r[..n] == Zeros(n)
    ensures Feed(r, Zeros(n), gen) == r[n..] + Zeros(n)
    decreases n
  {
    if n == 0 {
      assert r[0..] + [] == r;
    } else {
      var r' := BitStep(r, false, gen);
      assert Zeros(n)[1..] == Zeros(n - 1);
      assert !r[0] by { assert r[0] == r[..n][0]; }
      assert r' == r[1..] + [false];
      assert r'[..n - 1] == Zeros(n - 1) by {
        assert forall i :: 0 <= i < n - 1 ==> r'[i] == r[..n][i + 1];
      }
      ZeroFeedShifts(r', n - 1, gen);
      assert r'[n - 1..] + Zeros(n - 1) == r[n..] + Zeros(n);
    }
  }

  /** A message no longer than the register may be added to it first and then be fed as zeros. */
  lemma {:induction false} FeedAsPrefix(r: Bits, msg: Bits, gen: Bits)
    requires 0 < |r| == |gen| && |msg| <= |r|
    ensures Feed(r, msg, gen) == Feed(XorPrefix(r, msg), Zeros(|msg|), gen)
    decreases |msg|
  {
    if msg == [] {
      assert XorPrefix(r, msg) == r;
    } else {
      var r', x := BitStep(r, msg[0], gen), XorPrefix(r, msg);
      assert Zeros(|msg|)[1..] == Zeros(|msg| - 1);
      FeedAsPrefix(r', msg[1..], gen);
      assert x[0] == (r[0] != msg[0]);
      assert XorPrefix(r', msg[1..]) == BitStep(x, false, gen);
    }
  }

  /** The table-driven step.  The entry for the leading bits of the register, changed by the message,
      is what those bits become when they are shifted out; the rest of the register moves up. */
  lemma {:induction false} TableStep(r: Bits, msg: Bits, gen: Bits)
    requires 0 < |r| == |gen| && |msg| <= |r|
    ensures var n := |msg|;
            Feed(r, msg, gen) == Xor(Feed(Xor(r[..n], msg) + Zeros(|r| - n), Zeros(n), gen), r[n..] + Zeros(n))
  {
    hide Feed, Xor, XorPrefix, Zeros;
    var n := |msg|;
    var head, tail := Xor(r[..n], msg) + Zeros(|r| - n), Zeros(n) + r[n..];
    FeedAsPrefix(r, msg, gen);
    SplitRegister(r, msg);
    ZeroFeedLinear(head, tail, n, gen);
    assert tail[..n] == Zeros(n) && tail[n..] == r[n..];
    ZeroFeedShifts(tail, n, gen);
  }

  lemma SplitRegister(r: Bits, msg: Bits)
    requires |msg| <= |r|
    ensures var n := |msg|; XorPrefix(r, msg) == Xor(Xor(r[..n], msg) + Zeros(|r| - n), Zeros(n) + r[n..])
  {
    var n := |msg|;
    var head, tail := Xor(r[..n], msg) + Zeros(|r| - n), Zeros(n) + r[n..];
    forall i | 0 <= i < |r|
      ensures XorPrefix(r, msg)[i] == Xor(head, tail)[i]
    {
      if i < n {
        assert head[i] == Xor(r[..n], msg)[i] && tail[i] == Zeros(n)[i];
      } else {
        assert head[i] == Zeros(|r| - n)[i - n] && tail[i] == r[i];
      }
    }
  }

  /* ---------- Error detection ---------- */

  /** With a generator whose lowest coefficient is 1 no two registers are ever merged. */
  lemma BitStepInjective(r: Bits, s: Bits, b: bool, gen: Bits)
    requires 0 < |r| == |s| == |gen| && gen[|gen| - 1]
    requires BitStep(r, b, gen) == BitStep(s, b, gen)
    ensures r == s
  {
    var w := |gen|;
    var r', s' := BitStep(r, b, gen), BitStep(s, b, gen);
    assert r'[w - 1] == (r[0] != b) && s'[w - 1] == (s[0] != b);
    forall i | 0 <= i < w
      ensures r[i] == s[i]
    {
      if i > 0 {
        assert r'[i - 1] == (r[i] != (r[0] != b && gen[i - 1]));
        assert s'[i - 1] == (s[i] != (s[0] != b && gen[i - 1]));
      }
    }
  }

  lemma {:induction false} FeedInjective(r: Bits, s: Bits, msg: Bits, gen: Bits)
    requires 0 < |r| == |s| == |gen| && gen[|gen| - 1] && r != s
    ensures Feed(r, msg, gen) != Feed(s, msg, gen)
    decreases |msg|
  {
    if msg != [] {
      if BitStep(r, msg[0], gen) == BitStep(s, msg[0], gen) {
        BitStepInjective(r, s, msg[0], gen);
      }
      FeedInjective(BitStep(r, msg[0], gen), BitStep(s, msg[0], gen), msg[1..], gen);
    }
  }

  /** Every error burst inside a window no longer than the register is detected, whatever comes
      before and after it. */
  lemma {:induction false} BurstDetected(r: Bits, before: Bits, x: Bits, y: Bits, after: Bits, gen: Bits)
    requires 0 < |r| == |gen| && gen[|gen| - 1]
    requires |x| == |y| <= |gen| && x != y
    ensures Feed(r, before + x + after, gen) != Feed(r, before + y + after, gen)
  {
    hide Feed;
    var s := Feed(r, before, gen);
    FeedConcat(r, before + x, after, gen);
    FeedConcat(r, before + y, after, gen);
    FeedConcat(r, before, x, gen);
    FeedConcat(r, before, y, gen);
    WindowDiffers(s, x, y, gen);
    FeedInjective(Feed(s, x, gen), Feed(s, y, gen), after, gen);
  }

  lemma WindowDiffers(s: Bits, x: Bits, y: Bits, gen: Bits)
    requires 0 < |s| == |gen| && gen[|gen| - 1]
    requires |x| == |y| <= |gen| && x != y
    ensures Feed(s, x, gen) != Feed(s, y, gen)
  {
    hide Feed, Xor;
    FeedAsPrefix(s, x, gen);
    FeedAsPrefix(s, y, gen);
    var i :| 0 <= i < |x| && x[i] != y[i];
    assert XorPrefix(s, x)[i] != XorPrefix(s, y)[i];
    FeedInjective(XorPrefix(s, x), XorPrefix(s, y), Zeros(|x|), gen);
  }

  /** Without that coefficient the generator, divided by x, is itself a difference that the register
      forgets: 1 followed by all but the last of its bits. */
  lemma EvenGeneratorMerges(r: Bits, gen: Bits)
    requires 0 < |r| == |gen| && !gen[|gen| - 1]
    ensures var x := [true] + gen[..|gen| - 1]; Feed(r, x, gen) == Feed(r, Zeros(|gen|), gen)
  {
    hide Feed, Xor;
    var w := |gen|;
    var x, z := [true] + gen[..w - 1], Zeros(w);
    FeedAsPrefix(r, x, gen);
    FeedAsPrefix(r, z, gen);
    assert XorPrefix(r, x) == Xor(r, x) && XorPrefix(r, z) == r;
    ZeroFeedLinear(r, x, w, gen);
    Cancels(gen);
    assert Xor(Feed(r, z, gen), z) == Feed(r, z, gen);
  }

  lemma Cancels(gen: Bits)
    requires 0 < |gen| && !gen[|gen| - 1]
    ensures Feed([true] + gen[..|gen| - 1], Zeros(|gen|), gen) == Zeros(|gen|)
  {
    hide Feed;
    var w := |gen|;
    var x, z := [true] + gen[..w - 1], Zeros(w);
    FeedZero(x, w, gen);
    Emptied(gen);
    ZeroFeedShifts(z, w - 1, gen);
    assert z[..w - 1] == Zeros(w - 1) && z[w - 1..] + Zeros(w - 1) == z;
  }

  lemma FeedZero(r: Bits, n: nat, gen: Bits)
    requires 0 < |r| == |gen| && 0 < n
    ensures Feed(r, Zeros(n), gen) == Feed(BitStep(r, false, gen), Zeros(n - 1), gen)
  {
    hide BitStep;
    assert Zeros(n)[1..] == Zeros(n - 1);
  }

  lemma Emptied(gen: Bits)
    requires 0 < |gen| && !gen[|gen| - 1]
    ensures BitStep([true] + gen[..|gen| - 1], false, gen) == Zeros(|gen|)
  {
    hide BitStep;
  }

  ghost predicate DetectsBursts(gen: Bits)
    requires 0 < |gen|
  {
    forall r: Bits, before: Bits, x: Bits, y: Bits, after: Bits ::
      |r| == |gen| && |x| == |y| <= |gen| && x != y
      ==> Feed(r, before + x + after, gen) != Feed(r, before + y + after, gen)
  }

  /** So a generator detects all bursts up to its width, from any register and in any surroundings, if
      and only if its lowest coefficient is 1. */
  lemma DetectsBurstsIff(gen: Bits)
    requires 0 < |gen|
    ensures DetectsBursts(gen) <==> gen[|gen| - 1]
  {
    hide Feed, DetectsBursts;
    if gen[|gen| - 1] {
      OddDetects(gen);
    } else {
      EvenMisses(gen);
    }
  }

  lemma OddDetects(gen: Bits)
    requires 0 < |gen| && gen[|gen| - 1]
    ensures DetectsBursts(gen)
  {
    hide Feed;
    forall r: Bits, before: Bits, x: Bits, y: Bits, after: Bits | |r| == |gen| && |x| == |y| <= |gen| && x != y
      ensures Feed(r, before + x + after, gen) != Feed(r, before + y + after, gen)
    {
      BurstDetected(r, before, x, y, after, gen);
    }
  }

  lemma EvenMisses(gen: Bits)
    requires 0 < |gen| && !gen[|gen| - 1]
    ensures !DetectsBursts(gen)
  {
    hide Feed;
    var r, none: Bits, x := Zeros(|gen|), [], [true] + gen[..|gen| - 1];
    EvenGeneratorMerges(r, gen);
    assert none + x + none == x && none + r + none == r && x[0] != r[0];
    assert Feed(r, none + x + none, gen) == Feed(r, none + r + none, gen);
  }

  /* ---------- Bytes ---------- */

  function BitMask(i: nat): bv8 {
    match i
    case 0 => 0x80
    case 1 => 0x40
    case 2 => 0x20
    case 3 => 0x10
    case 4 => 0x08
    case 5 => 0x04
    case 6 => 0x02
    case _ => 0x01
  }

  function HasBit(b: bv8, m: bv8): bool { b & m != 0 }

  /** The bits of a byte, most significant first. */
  function ByteBits(b: bv8): (r: Bits)
    ensures |r| == 8 && forall i :: 0 <= i < 8 ==> r[i] == HasBit(b, BitMask(i))
  {
    seq(8, i requires 0 <= i < 8 => HasBit(b, BitMask(i)))
  }

  lemma ByteBitsInjective(a: bv8, b: bv8)
    requires ByteBits(a) == ByteBits(b)
    ensures a == b
  {
    var r, s := ByteBits(a), ByteBits(b);
    assert r[0] == s[0] && r[1] == s[1] && r[2] == s[2] && r[3] == s[3];
    assert r[4] == s[4] && r[5] == s[5] && r[6] == s[6] && r[7] == s[7];
  }

  lemma ZeroByteBits()
    ensures ByteBits(0) == Zeros(8)
  {
  }

  lemma XorMask(a: bv8, b: bv8, m: bv8)
    requires m & (m - 1) == 0
    ensures HasBit(a ^ b, m) == (HasBit(a, m) != HasBit(b, m))
  {
  }

  lemma XorByteBits(a: bv8, b: bv8)
    ensures ByteBits(a ^ b) == Xor(ByteBits(a), ByteBits(b))
  {
    forall i | 0 <= i < 8
      ensures ByteBits(a ^ b)[i] == (ByteBits(a)[i] != ByteBits(b)[i])
    {
      assert BitMask(i) & (BitMask(i) - 1) == 0;
      hide HasBit, BitMask;
      XorMask(a, b, BitMask(i));
    }
  }

  /** A byte shifted left takes over the top bit of the byte below it. */
  lemma ShiftByteBits(high: bv8, low: bv8)
    ensures ByteBits((high << 1) | (low >> 7)) == ByteBits(high)[1..] + [ByteBits(low)[0]]
  {
  }

  lemma XorConcat(a: Bits, b: Bits, c: Bits, d: Bits)
    requires |a| == |c| && |b| == |d|
    ensures Xor(a + b, c + d) == Xor(a, c) + Xor(b, d)
  {
  }

  /** Shifting a word shifts its upper part and its lower part, with a carry between them. */
  lemma ShiftConcat(a: Bits, b: Bits)
    requires a != [] && b != []
    ensures (a + b)[1..] + [false] == (a[1..] + [b[0]]) + (b[1..] + [false])
  {
  }

  function MessageBits(data: seq<bv8>): (r: Bits)
    ensures |r| == 8 * |data|
  {
    if data == [] then [] else MessageBits(data[..|data| - 1]) + ByteBits(data[|data| - 1])
  }

  lemma {:induction false} MessageConcat(a: seq<bv8>, b: seq<bv8>)
    ensures MessageBits(a + b) == MessageBits(a) + MessageBits(b)
  {
    if b == [] {
      assert a + b == a;
    } else {
      assert (a + b)[..|a + b| - 1] == a + b[..|b| - 1];
      MessageConcat(a, b[..|b| - 1]);
    }
  }

  lemma {:induction false} MessageInjective(a: seq<bv8>, b: seq<bv8>)
    requires |a| == |b| && MessageBits(a) == MessageBits(b)
    ensures a == b
  {
    hide ByteBits;
    if a != [] {
      var n := |a| - 1;
      var p, q := MessageBits(a[..n]), MessageBits(b[..n]);
      assert p == MessageBits(a)[..8 * n] == MessageBits(b)[..8 * n] == q;
      assert ByteBits(a[n]) == MessageBits(a)[8 * n..] == MessageBits(b)[8 * n..] == ByteBits(b[n]);
      ByteBitsInjective(a[n], b[n]);
      MessageInjective(a[..n], b[..n]);
      assert a == a[..n] + [a[n]] && b == b[..n] + [b[n]];
    }
  }

  lemma MessageDiffers(a: seq<bv8>, b: seq<bv8>)
    requires |a| == |b| && a != b
    ensures |MessageBits(a)| == |MessageBits(b)| == 8 * |a| && MessageBits(a) != MessageBits(b)
  {
    if MessageBits(a) == MessageBits(b) {
      MessageInjective(a, b);
    }
  }

  lemma MessageConcat3(a: seq<bv8>, b: seq<bv8>, c: seq<bv8>)
    ensures MessageBits(a + b + c) == MessageBits(a) + MessageBits(b) + MessageBits(c)
  {
    hide MessageBits;
    MessageConcat(a + b, c);
    MessageConcat(a, b);
  }

  /** The burst theorem on messages of bytes. */
  lemma {:induction false} ByteBurstDetected(
    r: Bits, before: seq<bv8>, x: seq<bv8>, y: seq<bv8>, after: seq<bv8>, gen: Bits)
    requires 0 < |r| == |gen| && gen[|gen| - 1]
    requires |x| == |y| && 8 * |x| <= |gen| && x != y
    ensures Feed(r, MessageBits(before + x + after), gen) != Feed(r, MessageBits(before + y + after), gen)
  {
    hide Feed, MessageBits;
    MessageDiffers(x, y);
    BurstDetected(r, MessageBits(before), MessageBits(x), MessageBits(y), MessageBits(after), gen);
    MessageConcat3(before, x, after);
    MessageConcat3(before, y, after);
  }
}
