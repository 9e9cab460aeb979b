/** util/no_os_crc16.c: the 16-bit CRC by table, most significant bit first. */
module Crc16 {
  import opened CrcTheory

  const TABLE_SIZE := 256

  /* ---------- The specification on machine words ---------- */

  /** One pass of the inner loop of the table builder. */
  function ShiftStep(c: bv16, poly: bv16): bv16 {
    if c & 0x8000 != 0 then (c << 1) ^ poly else c << 1
  }

  function Steps(c: bv16, poly: bv16, n: nat): bv16 {
    if n == 0 then c else ShiftStep(Steps(c, poly, n - 1), poly)
  }

  /** Entry `n` of the lookup table. */
  function Entry(n: nat, poly: bv16): bv16
    requires n < TABLE_SIZE
  {
    Steps((n as bv16) << 8, poly, 8)
  }

  function Index(crc: bv16, b: bv8): (i: nat)
    ensures i < TABLE_SIZE
  {
    (((crc >> 8) ^ (b as bv16)) & 0xff) as nat
  }

  function ByteStep(crc: bv16, b: bv8, poly: bv16): bv16 {
    (Entry(Index(crc, b), poly) ^ (crc << 8)) & 0xffff
  }

  function Crc(data: seq<bv8>, crc: bv16, poly: bv16): bv16 {
    if data == [] then crc
    else ByteStep(Crc(data[..|data| - 1], crc, poly), data[|data| - 1], poly)
  }

  /* ---------- Words as bits ---------- */

  function High(c: bv16): bv8 { (c >> 8) as bv8 }
  function Low(c: bv16): bv8 { (c & 0xff) as bv8 }

  function WordBits(c: bv16): (r: Bits)
    ensures |r| == 16
  {
    ByteBits(High(c)) + ByteBits(Low(c))
  }

  lemma WordBitsInjective(a: bv16, b: bv16)
    requires WordBits(a) == WordBits(b)
    ensures a == b
  {
    assert WordBits(a)[..8] == ByteBits(High(a)) && WordBits(a)[8..] == ByteBits(Low(a));
    assert WordBits(b)[..8] == ByteBits(High(b)) && WordBits(b)[8..] == ByteBits(Low(b));
    ByteBitsInjective(High(a), High(b));
    ByteBitsInjective(Low(a), Low(b));
  }

  lemma XorBits(a: bv16, b: bv16)
    ensures WordBits(a ^ b) == Xor(WordBits(a), WordBits(b))
  {
    assert High(a ^ b) == High(a) ^ High(b) && Low(a ^ b) == Low(a) ^ Low(b);
    hide High, Low, ByteBits, Xor;
    XorByteBits(High(a), High(b));
    XorByteBits(Low(a), Low(b));
    XorConcat(ByteBits(High(a)), ByteBits(Low(a)), ByteBits(High(b)), ByteBits(Low(b)));
  }

  lemma ShiftHalves(c: bv16)
    ensures High(c << 1) == (High(c) << 1) | (Low(c) >> 7) && Low(c << 1) == (Low(c) << 1) | (0 >> 7)
  {
  }

  lemma ShiftBits(c: bv16)
    ensures WordBits(c << 1) == WordBits(c)[1..] + [false]
  {
    ShiftHalves(c);
    hide High, Low, ByteBits;
    ShiftByteBits(High(c), Low(c));
    ShiftByteBits(Low(c), 0);
    ZeroByteBits();
    ShiftConcat(ByteBits(High(c)), ByteBits(Low(c)));
  }

  lemma TopBit(c: bv16)
    ensures WordBits(c)[0] == (c & 0x8000 != 0)
  {
  }

  lemma ShiftStepIsBitStep(c: bv16, poly: bv16)
    ensures WordBits(ShiftStep(c, poly)) == BitStep(WordBits(c), false, WordBits(poly))
  {
    TopBit(c);
    ShiftBits(c);
    XorBits(c << 1, poly);
  }

  lemma {:induction false} StepsAreFeed(c: bv16, poly: bv16, n: nat)
    ensures WordBits(Steps(c, poly, n)) == Feed(WordBits(c), Zeros(n), WordBits(poly))
  {
    if n > 0 {
      StepsAreFeed(c, poly, n - 1);
      ShiftStepIsBitStep(Steps(c, poly, n - 1), poly);
      assert Zeros(n) == Zeros(n - 1) + [false];
      FeedConcat(WordBits(c), Zeros(n - 1), [false], WordBits(poly));
    }
  }

  lemma IndexWord(c: bv16, b: bv8)
    ensures var x := (Index(c, b) as bv16) << 8; High(x) == High(c) ^ b && Low(x) == 0
  {
    IndexHalves(c, b);
    WordRoundTrip(((c >> 8) ^ (b as bv16)) & 0xff);
    hide High, Low;
  }

  lemma WordRoundTrip(x: bv16)
    ensures (x as nat) as bv16 == x
  {
  }

  lemma IndexHalves(c: bv16, b: bv8)
    ensures var x := (((c >> 8) ^ (b as bv16)) & 0xff) << 8; High(x) == High(c) ^ b && Low(x) == 0
  {
  }

  lemma FullMask(x: bv16)
    ensures x & 0xffff == x
  {
  }

  /** The table index, moved to the upper byte: the upper half of the register changed by the byte. */
  lemma IndexBits(c: bv16, b: bv8)
    ensures WordBits((Index(c, b) as bv16) << 8) == Xor(WordBits(c)[..8], ByteBits(b)) + Zeros(8)
  {
    IndexWord(c, b);
    hide High, Low, ByteBits, Index, Xor;
    assert WordBits(c)[..8] == ByteBits(High(c));
    XorByteBits(High(c), b);
    ZeroByteBits();
  }

  lemma UpperHalf(c: bv16)
    ensures WordBits(c << 8) == WordBits(c)[8..] + Zeros(8)
  {
    assert High(c << 8) == Low(c) && Low(c << 8) == 0;
    hide High, Low, ByteBits;
    assert WordBits(c)[8..] == ByteBits(Low(c));
    ZeroByteBits();
  }

  /** The table-driven byte step feeds the eight bits of the byte. */
  lemma ByteStepIsFeed(c: bv16, b: bv8, poly: bv16)
    ensures WordBits(ByteStep(c, b, poly)) == Feed(WordBits(c), ByteBits(b), WordBits(poly))
  {
    hide WordBits, Index, Steps, Feed, Xor;
    var x := (Index(c, b) as bv16) << 8;
    FullMask(Steps(x, poly, 8) ^ (c << 8));
    XorBits(Steps(x, poly, 8), c << 8);
    StepsAreFeed(x, poly, 8);
    IndexBits(c, b);
    UpperHalf(c);
    TableStep(WordBits(c), ByteBits(b), WordBits(poly));
  }

  lemma {:induction false} CrcIsFeed(data: seq<bv8>, crc: bv16, poly: bv16)
    ensures WordBits(Crc(data, crc, poly)) == Feed(WordBits(crc), MessageBits(data), WordBits(poly))
  {
    if data != [] {
      var init := data[..|data| - 1];
      CrcIsFeed(init, crc, poly);
      ByteStepIsFeed(Crc(init, crc, poly), data[|data| - 1], poly);
      FeedConcat(WordBits(crc), MessageBits(init), ByteBits(data[|data| - 1]), WordBits(poly));
    }
  }

  /* ---------- The properties ---------- */

  /** For every polynomial, message and initial value the CRC is the remainder of the polynomial
      division of the message. */
  lemma CrcIsDivision(data: seq<bv8>, crc: bv16, poly: bv16)
    ensures WordBits(Crc(data, crc, poly)) ==
            Remainder(XorPrefix(MessageBits(data) + Zeros(16), WordBits(crc)), WordBits(poly))
  {
    CrcIsFeed(data, crc, poly);
    FeedIsRemainder(WordBits(crc), MessageBits(data), WordBits(poly));
  }

  /** It is the only word whose bits are that remainder. */
  lemma OnlyRemainder(data: seq<bv8>, crc: bv16, poly: bv16, word: bv16)
    ensures WordBits(word) == Remainder(XorPrefix(MessageBits(data) + Zeros(16), WordBits(crc)), WordBits(poly))
            <==> word == Crc(data, crc, poly)
  {
    hide WordBits, Crc;
    CrcIsDivision(data, crc, poly);
    if WordBits(word) == WordBits(Crc(data, crc, poly)) {
      WordBitsInjective(word, Crc(data, crc, poly));
    }
  }

  /** A CRC over a concatenation is the CRC over the second part started from that over the first. */
  lemma {:induction false} CrcCascades(a: seq<bv8>, b: seq<bv8>, crc: bv16, poly: bv16)
    ensures Crc(a + b, crc, poly) == Crc(b, Crc(a, crc, poly), poly)
  {
    if b == [] {
      assert a + b == a;
    } else {
      assert (a + b)[..|a + b| - 1] == a + b[..|b| - 1];
      CrcCascades(a, b[..|b| - 1], crc, poly);
    }
  }

  /** With an odd polynomial two messages that differ only inside two consecutive bytes never have
      the same CRC. */
  lemma BurstIsDetected(before: seq<bv8>, x: seq<bv8>, y: seq<bv8>, after: seq<bv8>, crc: bv16, poly: bv16)
    requires poly & 1 == 1 && |x| == |y| <= 2 && x != y
    ensures Crc(before + x + after, crc, poly) != Crc(before + y + after, crc, poly)
  {
    assert WordBits(poly)[15] == ByteBits(Low(poly))[7] == HasBit(Low(poly), 1);
    ByteBurstDetected(WordBits(crc), before, x, y, after, WordBits(poly));
    CrcIsFeed(before + x + after, crc, poly);
    CrcIsFeed(before + y + after, crc, poly);
  }

  /* ---------- The implementation ---------- */

  ghost predicate IsTable(table: array<bv16>, poly: bv16)
    reads table
  {
    table.Length == TABLE_SIZE && forall n :: 0 <= n < TABLE_SIZE ==> table[n] == Entry(n, poly)
  }

  /** no_os_crc16_populate_msb. */
  method PopulateMsb(table: array<bv16>, poly: bv16)
    requires table.Length == TABLE_SIZE
    modifies table
    ensures IsTable(table, poly)
  {
    for n := 0 to TABLE_SIZE
      invariant forall m :: 0 <= m < n ==> table[m] == Entry(m, poly)
    {
      var currByte := (n as bv16) << 8;
      for bit := 0 to 8
        invariant currByte == Steps((n as bv16) << 8, poly, bit)
      {
        if currByte & 0x8000 != 0 {
          currByte := currByte << 1;
          currByte := currByte ^ poly;
        } else {
          currByte := currByte << 1;
        }
      }
      table[n] := currByte;
    }
  }

  /** no_os_crc16, over a table built for `poly`. */
  method Compute(table: array<bv16>, data: seq<bv8>, init: bv16, ghost poly: bv16) returns (crc: bv16)
    requires IsTable(table, poly)
    ensures crc == Crc(data, init, poly)
    ensures WordBits(crc) == Remainder(XorPrefix(MessageBits(data) + Zeros(16), WordBits(init)), WordBits(poly))
  {
    hide Steps;
    crc := init;
    for i := 0 to |data|
      invariant crc == Crc(data[..i], init, poly)
    {
      assert data[..i + 1][..i] == data[..i];
      var idx := Index(crc, data[i]);
      crc := (table[idx] ^ (crc << 8)) & 0xffff;
    }
    assert data[..|data|] == data;
    CrcIsDivision(data, init, poly);
  }
}
