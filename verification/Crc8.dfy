/** util/no_os_crc8.c: the 8-bit CRC by table, most significant bit first. */
module Crc8 {
  import opened CrcTheory

  const TABLE_SIZE := 256

  /* ---------- The specification on machine words ---------- */

  function ShiftStep(c: bv8, poly: bv8): bv8 {
    if c & 0x80 != 0 then (c << 1) ^ poly else c << 1
  }

  function Steps(c: bv8, poly: bv8, n: nat): bv8 {
    if n == 0 then c else ShiftStep(Steps(c, poly, n - 1), poly)
  }

  /** Entry `n` of the lookup table. */
  function Entry(n: nat, poly: bv8): bv8
    requires n < TABLE_SIZE
  {
    Steps(n as bv8, poly, 8)
  }

  function ByteStep(crc: bv8, b: bv8, poly: bv8): bv8 {
    Entry((crc ^ b) as nat, poly) & 0xff
  }

  function Crc(data: seq<bv8>, crc: bv8, poly: bv8): bv8 {
    if data == [] then crc
    else ByteStep(Crc(data[..|data| - 1], crc, poly), data[|data| - 1], poly)
  }

  /* ---------- Words as bits ---------- */

  lemma ShiftStepIsBitStep(c: bv8, poly: bv8)
    ensures ByteBits(ShiftStep(c, poly)) == BitStep(ByteBits(c), false, ByteBits(poly))
  {
    assert ByteBits(c)[0] == (c & 0x80 != 0);
    assert c << 1 == (c << 1) | (0 >> 7);
    ShiftByteBits(c, 0);
    ZeroByteBits();
    XorByteBits(c << 1, poly);
    hide ByteBits;
  }

  lemma {:induction false} StepsAreFeed(c: bv8, poly: bv8, n: nat)
    ensures ByteBits(Steps(c, poly, n)) == Feed(ByteBits(c), Zeros(n), ByteBits(poly))
  {
    hide ByteBits;
    if n > 0 {
      StepsAreFeed(c, poly, n - 1);
      ShiftStepIsBitStep(Steps(c, poly, n - 1), poly);
      assert Zeros(n) == Zeros(n - 1) + [false];
      FeedConcat(ByteBits(c), Zeros(n - 1), [false], ByteBits(poly));
    }
  }

  lemma WordRoundTrip(x: bv8)
    ensures (x as nat) as bv8 == x && x & 0xff == x
  {
  }

  /** The table-driven byte step feeds the eight bits of the byte. */
  lemma ByteStepIsFeed(c: bv8, b: bv8, poly: bv8)
    ensures ByteBits(ByteStep(c, b, poly)) == Feed(ByteBits(c), ByteBits(b), ByteBits(poly))
  {
    hide ByteBits, Steps, Feed;
    WordRoundTrip(c ^ b);
    WordRoundTrip(Steps(c ^ b, poly, 8));
    StepsAreFeed(c ^ b, poly, 8);
    XorByteBits(c, b);
    FeedAsPrefix(ByteBits(c), ByteBits(b), ByteBits(poly));
    assert XorPrefix(ByteBits(c), ByteBits(b)) == Xor(ByteBits(c), ByteBits(b));
  }

  lemma {:induction false} CrcIsFeed(data: seq<bv8>, crc: bv8, poly: bv8)
    ensures ByteBits(Crc(data, crc, poly)) == Feed(ByteBits(crc), MessageBits(data), ByteBits(poly))
  {
    if data != [] {
      var init := data[..|data| - 1];
      CrcIsFeed(init, crc, poly);
      ByteStepIsFeed(Crc(init, crc, poly), data[|data| - 1], poly);
      FeedConcat(ByteBits(crc), MessageBits(init), ByteBits(data[|data| - 1]), ByteBits(poly));
    }
  }

  /* ---------- The properties ---------- */

  /** For every polynomial, message and initial value the CRC is the remainder of the polynomial
      division of the message. */
  lemma CrcIsDivision(data: seq<bv8>, crc: bv8, poly: bv8)
    ensures ByteBits(Crc(data, crc, poly)) ==
            Remainder(XorPrefix(MessageBits(data) + Zeros(8), ByteBits(crc)), ByteBits(poly))
  {
    CrcIsFeed(data, crc, poly);
    FeedIsRemainder(ByteBits(crc), MessageBits(data), ByteBits(poly));
  }

  /** It is the only byte whose bits are that remainder. */
  lemma OnlyRemainder(data: seq<bv8>, crc: bv8, poly: bv8, word: bv8)
    ensures ByteBits(word) == Remainder(XorPrefix(MessageBits(data) + Zeros(8), ByteBits(crc)), ByteBits(poly))
            <==> word == Crc(data, crc, poly)
  {
    hide ByteBits, Crc;
    CrcIsDivision(data, crc, poly);
    if ByteBits(word) == ByteBits(Crc(data, crc, poly)) {
      ByteBitsInjective(word, Crc(data, crc, poly));
    }
  }

  /** A CRC over a concatenation is the CRC over the second part started from that over the first. */
  lemma {:induction false} CrcCascades(a: seq<bv8>, b: seq<bv8>, crc: bv8, poly: bv8)
    ensures Crc(a + b, crc, poly) == Crc(b, Crc(a, crc, poly), poly)
  {
    if b == [] {
      assert a + b == a;
    } else {
      assert (a + b)[..|a + b| - 1] == a + b[..|b| - 1];
      CrcCascades(a, b[..|b| - 1], crc, poly);
    }
  }

  /** With an odd polynomial two messages that differ in one byte only never have the same CRC. */
  lemma BurstIsDetected(before: seq<bv8>, x: seq<bv8>, y: seq<bv8>, after: seq<bv8>, crc: bv8, poly: bv8)
    requires poly & 1 == 1 && |x| == |y| <= 1 && x != y
    ensures Crc(before + x + after, crc, poly) != Crc(before + y + after, crc, poly)
  {
    assert ByteBits(poly)[7] == HasBit(poly, 1);
    ByteBurstDetected(ByteBits(crc), before, x, y, after, ByteBits(poly));
    CrcIsFeed(before + x + after, crc, poly);
    CrcIsFeed(before + y + after, crc, poly);
  }

  /* ---------- The implementation ---------- */

  ghost predicate IsTable(table: array<bv8>, poly: bv8)
    reads table
  {
    table.Length == TABLE_SIZE && forall n :: 0 <= n < TABLE_SIZE ==> table[n] == Entry(n, poly)
  }

  /** no_os_crc8_populate_msb. */
  method PopulateMsb(table: array<bv8>, poly: bv8)
    requires table.Length == TABLE_SIZE
    modifies table
    ensures IsTable(table, poly)
  {
    for n := 0 to TABLE_SIZE
      invariant forall m :: 0 <= m < n ==> table[m] == Entry(m, poly)
    {
      var currByte := n as bv8;
      for bit := 0 to 8
        invariant currByte == Steps(n as bv8, poly, bit)
      {
        if currByte & 0x80 != 0 {
          currByte := currByte << 1;
          currByte := currByte ^ poly;
        } else {
          currByte := currByte << 1;
        }
      }
      table[n] := currByte;
    }
  }

  /** no_os_crc8, over a table built for `poly`. */
  method Compute(table: array<bv8>, data: seq<bv8>, init: bv8, ghost poly: bv8) returns (crc: bv8)
    requires IsTable(table, poly)
    ensures crc == Crc(data, init, poly)
    ensures ByteBits(crc) == Remainder(XorPrefix(MessageBits(data) + Zeros(8), ByteBits(init)), ByteBits(poly))
  {
    hide Steps;
    crc := init;
    for i := 0 to |data|
      invariant crc == Crc(data[..i], init, poly)
    {
      assert data[..i + 1][..i] == data[..i];
      var idx := (crc ^ data[i]) as nat;
      crc := table[idx] & 0xff;
    }
    assert data[..|data|] == data;
    CrcIsDivision(data, init, poly);
  }
}
