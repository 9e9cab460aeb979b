/**
 util/no_os_crc24.c: the 24-bit CRC by table, most significant bit first, in 32-bit words.

 Polynomial and initial value are full 32-bit words.  Bits above the 24th may travel through the
 table, but never reach the result.
 */
module Crc24 {
  import opened CrcTheory

  const TABLE_SIZE := 256

  /* ---------- The specification on machine words ---------- */

  /** One pass of the inner loop of the table builder. */
  function ShiftStep(c: bv32, poly: bv32): bv32 {
    if c & 0x80_0000 != 0 then ((c & 0x7F_FFFF) << 1) ^ poly else c << 1
  }

  function Steps(c: bv32, poly: bv32, n: nat): bv32 {
    if n == 0 then c else ShiftStep(Steps(c, poly, n - 1), poly)
  }

  /** Entry `n` of the lookup table. */
  function Entry(n: nat, poly: bv32): bv32
    requires n < TABLE_SIZE
  {
    Steps((n as bv32) << 16, poly, 8)
  }

  function Index(crc: bv32, b: bv8): (i: nat)
    ensures i < TABLE_SIZE
  {
    (((crc >> 16) ^ (b as bv32)) & 0xff) as nat
  }

  function ByteStep(crc: bv32, b: bv8, poly: bv32): bv32 {
    (Entry(Index(crc, b), poly) ^ (crc << 8)) & 0xff_ffff
  }

  /** The register after the loop, before the final mask. */
  function Register(data: seq<bv8>, crc: bv32, poly: bv32): bv32 {
    if data == [] then crc
    else ByteStep(Register(data[..|data| - 1], crc, poly), data[|data| - 1], poly)
  }

  function Crc(data: seq<bv8>, crc: bv32, poly: bv32): bv32 {
    Register(data, crc, poly) & 0xff_ffff
  }

  /* ---------- Words as bits: the lower 24 of 32 ---------- */

  function High(c: bv32): bv8 { ((c >> 16) & 0xff) as bv8 }
  function Middle(c: bv32): bv8 { ((c >> 8) & 0xff) as bv8 }
  function Low(c: bv32): bv8 { (c & 0xff) as bv8 }

  function WordBits(c: bv32): (r: Bits)
    ensures |r| == 24
  {
    ByteBits(High(c)) + (ByteBits(Middle(c)) + ByteBits(Low(c)))
  }

  lemma MaskBits(c: bv32)
    ensures WordBits(c & 0xff_ffff) == WordBits(c)
  {
    assert High(c & 0xff_ffff) == High(c) && Middle(c & 0xff_ffff) == Middle(c) && Low(c & 0xff_ffff) == Low(c);
    hide ByteBits;
  }

  lemma XorParts(a: bv32, b: bv32)
    ensures High(a ^ b) == High(a) ^ High(b) && Middle(a ^ b) == Middle(a) ^ Middle(b) && Low(a ^ b) == Low(a) ^ Low(b)
  {
  }

  lemma XorBits(a: bv32, b: bv32)
    ensures WordBits(a ^ b) == Xor(WordBits(a), WordBits(b))
  {
    XorParts(a, b);
    hide High, Middle, Low, ByteBits, Xor;
    XorByteBits(High(a), High(b));
    XorByteBits(Middle(a), Middle(b));
    XorByteBits(Low(a), Low(b));
    XorConcat(ByteBits(Middle(a)), ByteBits(Low(a)), ByteBits(Middle(b)), ByteBits(Low(b)));
    XorConcat(ByteBits(High(a)), ByteBits(Middle(a)) + ByteBits(Low(a)),
              ByteBits(High(b)), ByteBits(Middle(b)) + ByteBits(Low(b)));
  }

  lemma ShiftParts(c: bv32)
    ensures High(c << 1) == (High(c) << 1) | (Middle(c) >> 7)
    ensures Middle(c << 1) == (Middle(c) << 1) | (Low(c) >> 7)
    ensures Low(c << 1) == (Low(c) << 1) | (0 >> 7)
  {
  }

  lemma ShiftBits(c: bv32)
    ensures WordBits(c << 1) == WordBits(c)[1..] + [false]
  {
    ShiftParts(c);
    hide High, Middle, Low, ByteBits;
    ShiftByteBits(High(c), Middle(c));
    ShiftByteBits(Middle(c), Low(c));
    ShiftByteBits(Low(c), 0);
    ZeroByteBits();
    var h, m, l := ByteBits(High(c)), ByteBits(Middle(c)), ByteBits(Low(c));
    ShiftConcat(m, l);
    ShiftConcat(h, m + l);
  }

  lemma TopBit(c: bv32)
    ensures WordBits(c)[0] == (c & 0x80_0000 != 0)
  {
    assert HasBit(High(c), 0x80) == (c & 0x80_0000 != 0);
    hide High, HasBit;
  }

  /** Masking before the shift changes nothing in the lower 24 bits. */
  lemma MaskedShift(c: bv32)
    ensures WordBits((c & 0x7F_FFFF) << 1) == WordBits(c << 1)
  {
    var x, y := (c & 0x7F_FFFF) << 1, c << 1;
    assert High(x) == High(y) && Middle(x) == Middle(y) && Low(x) == Low(y);
    hide ByteBits;
  }

  lemma ShiftStepIsBitStep(c: bv32, poly: bv32)
    ensures WordBits(ShiftStep(c, poly)) == BitStep(WordBits(c), false, WordBits(poly))
  {
    TopBit(c);
    ShiftBits(c);
    MaskedShift(c);
    XorBits((c & 0x7F_FFFF) << 1, poly);
    hide WordBits, Xor;
  }

  lemma {:induction false} StepsAreFeed(c: bv32, poly: bv32, n: nat)
    ensures WordBits(Steps(c, poly, n)) == Feed(WordBits(c), Zeros(n), WordBits(poly))
  {
    hide WordBits;
    if n > 0 {
      StepsAreFeed(c, poly, n - 1);
      ShiftStepIsBitStep(Steps(c, poly, n - 1), poly);
      assert Zeros(n) == Zeros(n - 1) + [false];
      FeedConcat(WordBits(c), Zeros(n - 1), [false], WordBits(poly));
    }
  }

  lemma WordRoundTrip(x: bv32)
    ensures (x as nat) as bv32 == x
  {
  }

  lemma IndexParts(c: bv32, b: bv8)
    ensures var x := (((c >> 16) ^ (b as bv32)) & 0xff) << 16;
            High(x) == High(c) ^ b && Middle(x) == 0 && Low(x) == 0
  {
  }

  /** The table index, moved to the upper byte: the upper byte of the register changed by the byte. */
  lemma IndexBits(c: bv32, b: bv8)
    ensures WordBits((Index(c, b) as bv32) << 16) == Xor(WordBits(c)[..8], ByteBits(b)) + Zeros(16)
  {
    IndexParts(c, b);
    WordRoundTrip(((c >> 16) ^ (b as bv32)) & 0xff);
    hide High, Middle, Low, ByteBits, Xor;
    assert WordBits(c)[..8] == ByteBits(High(c));
    XorByteBits(High(c), b);
    ZeroByteBits();
    assert Zeros(8) + Zeros(8) == Zeros(16);
  }

  lemma LowerBytes(c: bv32)
    ensures WordBits(c << 8) == WordBits(c)[8..] + Zeros(8)
  {
    assert High(c << 8) == Middle(c) && Middle(c << 8) == Low(c) && Low(c << 8) == 0;
    hide High, Middle, Low, ByteBits;
    assert WordBits(c)[8..] == ByteBits(Middle(c)) + ByteBits(Low(c));
    ZeroByteBits();
  }

  lemma MaskedXorBits(a: bv32, b: bv32)
    ensures WordBits((a ^ b) & 0xff_ffff) == Xor(WordBits(a), WordBits(b))
  {
    hide WordBits, Xor;
    MaskBits(a ^ b);
    XorBits(a, b);
  }

  lemma EntryBits(c: bv32, b: bv8, poly: bv32)
    ensures WordBits(Entry(Index(c, b), poly)) ==
            Feed(Xor(WordBits(c)[..8], ByteBits(b)) + Zeros(16), Zeros(8), WordBits(poly))
  {
    hide WordBits, Index, Steps, Feed, Xor;
    StepsAreFeed((Index(c, b) as bv32) << 16, poly, 8);
    IndexBits(c, b);
  }

  /** The table-driven byte step feeds the eight bits of the byte. */
  lemma ByteStepIsFeed(c: bv32, b: bv8, poly: bv32)
    ensures WordBits(ByteStep(c, b, poly)) == Feed(WordBits(c), ByteBits(b), WordBits(poly))
  {
    hide WordBits, Index, Entry, Feed, Xor;
    MaskedXorBits(Entry(Index(c, b), poly), c << 8);
    EntryBits(c, b, poly);
    LowerBytes(c);
    TableStep(WordBits(c), ByteBits(b), WordBits(poly));
  }

  lemma {:induction false} RegisterIsFeed(data: seq<bv8>, crc: bv32, poly: bv32)
    ensures WordBits(Register(data, crc, poly)) == Feed(WordBits(crc), MessageBits(data), WordBits(poly))
  {
    hide WordBits, ByteStep;
    if data != [] {
      var init := data[..|data| - 1];
      RegisterIsFeed(init, crc, poly);
      ByteStepIsFeed(Register(init, crc, poly), data[|data| - 1], poly);
      FeedConcat(WordBits(crc), MessageBits(init), ByteBits(data[|data| - 1]), WordBits(poly));
    }
  }

  lemma CrcIsFeed(data: seq<bv8>, crc: bv32, poly: bv32)
    ensures WordBits(Crc(data, crc, poly)) == Feed(WordBits(crc), MessageBits(data), WordBits(poly))
  {
    hide WordBits, Register, Feed;
    RegisterIsFeed(data, crc, poly);
    MaskBits(Register(data, crc, poly));
  }

  /* ---------- The properties ---------- */

  /** For every polynomial, message and initial value the CRC is the remainder of the polynomial
      division of the message; only the lower 24 bits of polynomial and initial value matter. */
  lemma CrcIsDivision(data: seq<bv8>, crc: bv32, poly: bv32)
    ensures WordBits(Crc(data, crc, poly)) ==
            Remainder(XorPrefix(MessageBits(data) + Zeros(24), WordBits(crc)), WordBits(poly))
    ensures Crc(data, crc, poly) <= 0xff_ffff
  {
    hide WordBits, Register;
    CrcIsFeed(data, crc, poly);
    FeedIsRemainder(WordBits(crc), MessageBits(data), WordBits(poly));
    MaskBound(Register(data, crc, poly));
  }

  lemma MaskBound(x: bv32)
    ensures x & 0xff_ffff <= 0xff_ffff
  {
  }

  lemma WordBitsInjective(a: bv32, b: bv32)
    requires WordBits(a) == WordBits(b)
    ensures a & 0xff_ffff == b & 0xff_ffff
  {
    PartsDetermine(a, b);
    hide High, Middle, Low, ByteBits;
    var x, y := WordBits(a), WordBits(b);
    assert x[..8] == ByteBits(High(a)) && x[8..16] == ByteBits(Middle(a)) && x[16..] == ByteBits(Low(a));
    assert y[..8] == ByteBits(High(b)) && y[8..16] == ByteBits(Middle(b)) && y[16..] == ByteBits(Low(b));
    ByteBitsInjective(High(a), High(b));
    ByteBitsInjective(Middle(a), Middle(b));
    ByteBitsInjective(Low(a), Low(b));
  }

  lemma PartsDetermine(a: bv32, b: bv32)
    ensures High(a) == High(b) && Middle(a) == Middle(b) && Low(a) == Low(b) ==> a & 0xff_ffff == b & 0xff_ffff
  {
  }

  /** It is the only word of 24 bits whose bits are that remainder. */
  lemma OnlyRemainder(data: seq<bv8>, crc: bv32, poly: bv32, word: bv32)
    ensures word <= 0xff_ffff
            && WordBits(word) == Remainder(XorPrefix(MessageBits(data) + Zeros(24), WordBits(crc)), WordBits(poly))
            <==> word == Crc(data, crc, poly)
  {
    hide WordBits, Register;
    CrcIsDivision(data, crc, poly);
    if word <= 0xff_ffff && WordBits(word) == WordBits(Crc(data, crc, poly)) {
      WordBitsInjective(word, Crc(data, crc, poly));
      MaskedIsSmall(word);
      MaskedIsSmall(Crc(data, crc, poly));
    }
  }

  lemma MaskedIsSmall(x: bv32)
    requires x <= 0xff_ffff
    ensures x & 0xff_ffff == x
  {
  }

  /** A CRC over a concatenation is the CRC over the second part started from that over the first,
      although the first call masks its result. */
  lemma CrcCascades(a: seq<bv8>, b: seq<bv8>, crc: bv32, poly: bv32)
    ensures Crc(a + b, crc, poly) == Crc(b, Crc(a, crc, poly), poly)
  {
    hide WordBits, Register, Feed;
    CrcIsFeed(a + b, crc, poly);
    CrcIsFeed(a, crc, poly);
    CrcIsFeed(b, Crc(a, crc, poly), poly);
    MessageConcat(a, b);
    FeedConcat(WordBits(crc), MessageBits(a), MessageBits(b), WordBits(poly));
    WordBitsInjective(Crc(a + b, crc, poly), Crc(b, Crc(a, crc, poly), poly));
    MaskTwice(Register(a + b, crc, poly));
    MaskTwice(Register(b, Crc(a, crc, poly), poly));
  }

  lemma MaskTwice(x: bv32)
    ensures x & 0xff_ffff & 0xff_ffff == x & 0xff_ffff
  {
  }

  /** With an odd polynomial two messages that differ only inside three consecutive bytes never have
      the same CRC. */
  lemma BurstIsDetected(before: seq<bv8>, x: seq<bv8>, y: seq<bv8>, after: seq<bv8>, crc: bv32, poly: bv32)
    requires poly & 1 == 1 && |x| == |y| <= 3 && x != y
    ensures Crc(before + x + after, crc, poly) != Crc(before + y + after, crc, poly)
  {
    LowestBit(poly);
    hide WordBits, Register, Feed;
    ByteBurstDetected(WordBits(crc), before, x, y, after, WordBits(poly));
    CrcIsFeed(before + x + after, crc, poly);
    CrcIsFeed(before + y + after, crc, poly);
  }

  lemma LowestBit(c: bv32)
    ensures WordBits(c)[23] == (c & 1 == 1)
  {
    assert HasBit(Low(c), 1) == (c & 1 == 1);
    assert WordBits(c)[23] == ByteBits(Low(c))[7];
    hide Low, HasBit;
  }

  /* ---------- The implementation ---------- */

  ghost predicate IsTable(table: array<bv32>, poly: bv32)
    reads table
  {
    table.Length == TABLE_SIZE && forall n :: 0 <= n < TABLE_SIZE ==> table[n] == Entry(n, poly)
  }

  /** no_os_crc24_populate_msb. */
  method PopulateMsb(table: array<bv32>, poly: bv32)
    requires table.Length == TABLE_SIZE
    modifies table
    ensures IsTable(table, poly)
  {
    for n := 0 to TABLE_SIZE
      invariant forall m :: 0 <= m < n ==> table[m] == Entry(m, poly)
    {
      var currByte := (n as bv32) << 16;
      for bit := 0 to 8
        invariant currByte == Steps((n as bv32) << 16, poly, bit)
      {
        if currByte & 0x80_0000 != 0 {
          currByte := currByte & 0x7F_FFFF;
          currByte := currByte << 1;
          currByte := currByte ^ poly;
        } else {
          currByte := currByte << 1;
        }
      }
      table[n] := currByte;
    }
  }

  /** no_os_crc24, over a table built for `poly`. */
  method Compute(table: array<bv32>, data: seq<bv8>, init: bv32, ghost poly: bv32) returns (crc: bv32)
    requires IsTable(table, poly)
    ensures crc == Crc(data, init, poly)
    ensures WordBits(crc) == Remainder(XorPrefix(MessageBits(data) + Zeros(24), WordBits(init)), WordBits(poly))
  {
    hide Steps;
    crc := init;
    for i := 0 to |data|
      invariant crc == Register(data[..i], init, poly)
    {
      assert data[..i + 1][..i] == data[..i];
      var idx := Index(crc, data[i]);
      crc := (table[idx] ^ (crc << 8)) & 0xff_ffff;
    }
    assert data[..|data|] == data;
    CrcIsDivision(data, init, poly);
    crc := crc & 0xff_ffff;
  }
}
