/**
 `bytes_per_scan` of iio/iio.c: how many bytes one scan of the enabled channels takes.

 A layout places the enabled channels in order, without overlap, each at a multiple of its own size,
 and rounds the total to a multiple of the largest.  The loop computes the least such total.
 */
module ScanLayout {
  import opened Arithmetic

  /** The sizes in bytes of the channels whose bit is set in the mask. */
  function Active(lengths: seq<nat>, mask: nat): seq<nat>
    requires Covers(lengths, mask)
  {
    if mask == 0 then []
    else (if mask % 2 == 1 then [lengths[0]] else []) + Active(lengths[1..], mask / 2)
  }

  /** Every bit of the mask names a channel with a size of at least a byte. */
  predicate Covers(lengths: seq<nat>, mask: nat) {
    mask == 0 || (lengths != [] && (mask % 2 == 1 ==> lengths[0] > 0) && Covers(lengths[1..], mask / 2))
  }

  /** Bit `i` of the mask. */
  predicate Bit(mask: nat, i: nat) {
    if i == 0 then mask % 2 == 1 else Bit(mask / 2, i - 1)
  }

  /** The numbers of the set bits, counted from `base`. */
  function Chosen(mask: nat, base: nat): seq<nat> {
    if mask == 0 then [] else (if mask % 2 == 1 then [base] else []) + Chosen(mask / 2, base + 1)
  }

  lemma {:induction false} NoBits(i: nat)
    ensures !Bit(0, i)
  {
    if i > 0 {
      NoBits(i - 1);
    }
  }

  lemma {:induction false} ChosenBits(mask: nat, base: nat, i: nat)
    ensures i in Chosen(mask, base) <==> i >= base && Bit(mask, i - base)
  {
    if mask == 0 {
      NoBits(if i >= base then i - base else 0);
    } else {
      ChosenBits(mask / 2, base + 1, i);
      assert i in Chosen(mask, base) <==> (mask % 2 == 1 && i == base) || i in Chosen(mask / 2, base + 1);
    }
  }

  lemma {:induction false} ChosenAscend(mask: nat, base: nat)
    ensures var c := Chosen(mask, base);
            && (forall k :: 0 <= k < |c| ==> base <= c[k])
            && (forall j, k :: 0 <= j < k < |c| ==> c[j] < c[k])
  {
    if mask != 0 {
      ChosenAscend(mask / 2, base + 1);
      if mask % 2 == 0 {
        assert Chosen(mask, base) == Chosen(mask / 2, base + 1);
      } else {
        AscendOn(base, Chosen(mask / 2, base + 1), Chosen(mask, base));
      }
    }
  }

  lemma AscendOn(base: nat, later: seq<nat>, c: seq<nat>)
    requires forall k :: 0 <= k < |later| ==> base + 1 <= later[k]
    requires forall j, k :: 0 <= j < k < |later| ==> later[j] < later[k]
    requires c == [base] + later
    ensures forall k :: 0 <= k < |c| ==> base <= c[k]
    ensures forall j, k :: 0 <= j < k < |c| ==> c[j] < c[k]
  {
  }

  lemma {:induction false} ActiveAreChosen(lengths: seq<nat>, mask: nat, base: nat)
    requires base <= |lengths| && Covers(lengths[base..], mask)
    ensures var c, sizes := Chosen(mask, base), Active(lengths[base..], mask);
            |c| == |sizes| && forall k :: 0 <= k < |c| ==> c[k] < |lengths| && sizes[k] == lengths[c[k]]
  {
    if mask != 0 {
      assert lengths[base..][1..] == lengths[base + 1..];
      ActiveAreChosen(lengths, mask / 2, base + 1);
      if mask % 2 == 0 {
        assert Chosen(mask, base) == Chosen(mask / 2, base + 1);
        assert Active(lengths[base..], mask) == Active(lengths[base + 1..], mask / 2);
      }
    }
  }

  /** These are the sizes of exactly the channels whose bit is set, in the order of the channels. */
  lemma ActiveSelects(lengths: seq<nat>, mask: nat) returns (channels: seq<nat>)
    requires Covers(lengths, mask)
    ensures |channels| == |Active(lengths, mask)|
    ensures forall j, k :: 0 <= j < k < |channels| ==> channels[j] < channels[k]
    ensures forall k :: 0 <= k < |channels| ==>
              channels[k] < |lengths| && Active(lengths, mask)[k] == lengths[channels[k]]
    ensures forall i: nat :: i in channels <==> Bit(mask, i)
  {
    hide Active, Chosen, Covers, Bit;
    channels := Chosen(mask, 0);
    assert lengths[0..] == lengths;
    ActiveAreChosen(lengths, mask, 0);
    ChosenAscend(mask, 0);
    forall i: nat ensures i in channels <==> Bit(mask, i) {
      ChosenBits(mask, 0, i);
    }
  }

  predicate Positive(sizes: seq<nat>) {
    forall k :: 0 <= k < |sizes| ==> sizes[k] > 0
  }

  lemma {:induction false} ActiveIsPositive(lengths: seq<nat>, mask: nat)
    requires Covers(lengths, mask)
    ensures Positive(Active(lengths, mask))
  {
    if mask != 0 {
      ActiveIsPositive(lengths[1..], mask / 2);
    }
  }

  /** The largest size, at least 1. */
  function Largest(sizes: seq<nat>): (n: nat)
    ensures n >= 1 && (n == 1 || n in sizes) && forall k :: 0 <= k < |sizes| ==> sizes[k] <= n
  {
    if sizes == [] then 1
    else
      var n := Largest(sizes[..|sizes| - 1]);
      if sizes[|sizes| - 1] > n then sizes[|sizes| - 1] else n
  }

  /** The channels at `offsets` within `total` bytes. */
  ghost predicate IsLayout(sizes: seq<nat>, offsets: seq<nat>, total: nat)
    requires Positive(sizes)
  {
    InOrder(sizes, offsets) && End(sizes, offsets) <= total && total % Largest(sizes) == 0
  }

  ghost predicate InOrder(sizes: seq<nat>, offsets: seq<nat>)
    requires Positive(sizes)
  {
    && |offsets| == |sizes|
    && (forall k :: 0 <= k < |sizes| ==> offsets[k] % sizes[k] == 0)
    && (forall k :: 0 < k < |sizes| ==> offsets[k - 1] + sizes[k - 1] <= offsets[k])
  }

  function End(sizes: seq<nat>, offsets: seq<nat>): nat
    requires |offsets| == |sizes|
  {
    if sizes == [] then 0 else offsets[|sizes| - 1] + sizes[|sizes| - 1]
  }

  function RoundUp(x: nat, d: nat): nat
    requires d > 0
  {
    if x % d == 0 then x else x + (d - x % d)
  }

  lemma RoundUpIsLeast(x: nat, d: nat)
    requires d > 0
    ensures RoundUp(x, d) >= x && RoundUp(x, d) % d == 0
    ensures forall y: nat :: y >= x && y % d == 0 ==> RoundUp(x, d) <= y
  {
    var q, r := x / d, x % d;
    if r != 0 {
      DivisionIsUnique((q + 1) * d, d, q + 1, 0);
      assert RoundUp(x, d) == (q + 1) * d;
      forall y: nat | y >= x && y % d == 0 ensures RoundUp(x, d) <= y {
        NextMultiple(x, d, y);
      }
    }
  }

  lemma NextMultiple(x: nat, d: nat, y: nat)
    requires d > 0 && x % d != 0 && y >= x && y % d == 0
    ensures (x / d + 1) * d <= y
  {
    if y / d > x / d {
      TimesMonotone(x / d + 1, y / d, d);
    } else {
      TimesMonotone(y / d, x / d, d);
    }
  }

  /** Each channel at the first place after the one before it. */
  function Packed(sizes: seq<nat>): (offsets: seq<nat>)
    requires Positive(sizes)
    ensures |offsets| == |sizes|
  {
    if sizes == [] then []
    else
      var before := sizes[..|sizes| - 1];
      Packed(before) + [RoundUp(End(before, Packed(before)), sizes[|sizes| - 1])]
  }

  lemma {:induction false} PackedIsInOrder(sizes: seq<nat>)
    requires Positive(sizes)
    ensures InOrder(sizes, Packed(sizes))
  {
    if sizes != [] {
      var before := sizes[..|sizes| - 1];
      PackedIsInOrder(before);
      RoundUpIsLeast(End(before, Packed(before)), sizes[|sizes| - 1]);
      assert Packed(sizes)[..|before|] == Packed(before);
    }
  }

  /** No layout ends earlier than the packed one. */
  lemma {:induction false} PackedEndsFirst(sizes: seq<nat>, offsets: seq<nat>)
    requires Positive(sizes) && InOrder(sizes, offsets)
    ensures End(sizes, Packed(sizes)) <= End(sizes, offsets)
  {
    if sizes != [] {
      var n := |sizes| - 1;
      PackedEndsFirst(sizes[..n], offsets[..n]);
      RoundUpIsLeast(End(sizes[..n], Packed(sizes[..n])), sizes[n]);
      assert End(sizes[..n], offsets[..n]) <= offsets[n];
    }
  }

  /** bytes_per_scan. */
  method BytesPerScan(lengths: seq<nat>, channels: nat) returns (cnt: nat)
    requires Covers(lengths, channels)
    ensures var sizes := Active(lengths, channels);
            && Positive(sizes)
            && IsLayout(sizes, Packed(sizes), cnt)
            && forall offsets, total :: IsLayout(sizes, offsets, total) ==> cnt <= total
  {
    hide IsLayout;
    ActiveIsPositive(lengths, channels);
    Nothing();
    hide End, Packed, Largest;
    ghost var sizes := Active(lengths, channels);
    ghost var seen: seq<nat> := [];
    var mask, i, largest := channels, 0, 1;
    cnt := 0;
    assert lengths[0..] == lengths && [] + sizes == sizes;
    while mask != 0
      invariant i <= |lengths| && Covers(lengths[i..], mask) && seen + Active(lengths[i..], mask) == sizes
      invariant Positive(seen) && cnt == End(seen, Packed(seen)) && largest == Largest(seen)
    {
      assert lengths[i..][1..] == lengths[i + 1..];
      if mask % 2 == 1 {
        var length := lengths[i];
        if length > largest {
          largest := length;
        }
        if cnt % length != 0 {
          cnt := cnt + 2 * length - cnt % length;
        } else {
          cnt := cnt + length;
        }
        NextChannel(seen, length, Active(lengths[i + 1..], mask / 2));
        seen := seen + [length];
      }
      mask, i := mask / 2, i + 1;
    }
    assert seen == sizes;
    RoundedIsLeast(sizes);
    if cnt % largest != 0 {
      cnt := cnt + (largest - cnt % largest);
    }
  }

  /** Packing and rounding up is the least layout. */
  lemma RoundedIsLeast(sizes: seq<nat>)
    requires Positive(sizes)
    ensures var total := RoundUp(End(sizes, Packed(sizes)), Largest(sizes));
            && IsLayout(sizes, Packed(sizes), total)
            && forall offsets, total' :: IsLayout(sizes, offsets, total') ==> total <= total'
  {
    hide InOrder, End, RoundUp;
    PackedIsInOrder(sizes);
    RoundUpIsLeast(End(sizes, Packed(sizes)), Largest(sizes));
    forall offsets, total | IsLayout(sizes, offsets, total)
      ensures RoundUp(End(sizes, Packed(sizes)), Largest(sizes)) <= total
    {
      PackedEndsFirst(sizes, offsets);
    }
  }

  lemma Nothing()
    ensures End([], Packed([])) == 0 && Largest([]) == 1
  {
  }

  lemma NextChannel(seen: seq<nat>, length: nat, rest: seq<nat>)
    requires Positive(seen) && length > 0
    ensures Positive(seen + [length])
    ensures End(seen + [length], Packed(seen + [length])) == RoundUp(End(seen, Packed(seen)), length) + length
    ensures Largest(seen + [length]) == if length > Largest(seen) then length else Largest(seen)
    ensures seen + [length] + rest == seen + ([length] + rest)
  {
    assert (seen + [length])[..|seen|] == seen;
  }

  /* ---------- Consecutive scans ---------- */

  /** Every channel of every scan stands at a multiple of its size. */
  ghost predicate StaysAligned(sizes: seq<nat>, offsets: seq<nat>, total: nat)
    requires Positive(sizes) && |offsets| == |sizes|
  {
    forall scan: nat, k :: 0 <= k < |sizes| ==> At(scan, total, offsets[k]) % sizes[k] == 0
  }

  function At(scan: nat, total: nat, offset: nat): nat {
    scan * total + offset
  }

  /** Scans laid end to end stay aligned exactly when every size divides the size of a scan. */
  lemma StaysAlignedIff(sizes: seq<nat>, offsets: seq<nat>, total: nat)
    requires Positive(sizes) && InOrder(sizes, offsets)
    ensures StaysAligned(sizes, offsets, total) <==> forall k :: 0 <= k < |sizes| ==> total % sizes[k] == 0
  {
    if StaysAligned(sizes, offsets, total) {
      forall k | 0 <= k < |sizes| ensures total % sizes[k] == 0 {
        assert At(1, total, offsets[k]) % sizes[k] == 0;
        SumOfMultiples(total, offsets[k], sizes[k]);
      }
    }
    if forall k :: 0 <= k < |sizes| ==> total % sizes[k] == 0 {
      forall scan: nat, k | 0 <= k < |sizes| ensures At(scan, total, offsets[k]) % sizes[k] == 0 {
        Scaled(scan, total, sizes[k]);
        SumOfMultiples(scan * total, offsets[k], sizes[k]);
      }
    }
  }

  lemma SumOfMultiples(x: nat, y: nat, d: nat)
    requires d > 0 && y % d == 0
    ensures (x + y) % d == 0 <==> x % d == 0
  {
    assert x + y == (x / d + y / d) * d + x % d;
    DivisionIsUnique(x + y, d, x / d + y / d, x % d);
  }

  lemma Scaled(n: nat, x: nat, d: nat)
    requires d > 0 && x % d == 0
    ensures (n * x) % d == 0
  {
    assert x == (x / d) * d;
    assert n * x == (n * (x / d)) * d;
    DivisionIsUnique(n * x, d, n * (x / d), 0);
  }

  predicate IsPowerOfTwo(n: nat) {
    n == 1 || (n > 1 && n % 2 == 0 && IsPowerOfTwo(n / 2))
  }

  lemma {:induction false} PowersDivide(a: nat, b: nat)
    requires IsPowerOfTwo(a) && IsPowerOfTwo(b) && a <= b
    ensures b % a == 0
  {
    if a > 1 {
      PowersDivide(a / 2, b / 2);
      var k := (b / 2) / (a / 2);
      assert b / 2 == k * (a / 2);
      assert b == k * a;
      DivisionIsUnique(b, a, k, 0);
    }
  }

  /** With power-of-two sizes every layout stays aligned. */
  lemma PowersOfTwoStayAligned(sizes: seq<nat>, offsets: seq<nat>, total: nat)
    requires Positive(sizes) && IsLayout(sizes, offsets, total)
    requires forall k :: 0 <= k < |sizes| ==> IsPowerOfTwo(sizes[k])
    ensures StaysAligned(sizes, offsets, total)
  {
    hide IsPowerOfTwo, StaysAligned, InOrder, End;
    var largest := Largest(sizes);
    assert IsPowerOfTwo(largest) by {
      OneIsAPower();
    }
    forall k | 0 <= k < |sizes| ensures total % sizes[k] == 0 {
      PowersDivide(sizes[k], largest);
      DividesOn(total, largest, sizes[k]);
    }
    StaysAlignedIff(sizes, offsets, total);
  }

  lemma OneIsAPower()
    ensures IsPowerOfTwo(1)
  {
  }

  lemma DividesOn(x: nat, y: nat, d: nat)
    requires y > 0 && d > 0 && x % y == 0 && y % d == 0
    ensures x % d == 0
  {
    Scaled(x / y, y, d);
    assert x == (x / y) * y;
  }

  /** Other sizes need not: 3 bytes and 4 bytes make scans of 8, the second of them misaligned. */
  lemma ThreeAndFourDrift()
    ensures IsLayout([3, 4], Packed([3, 4]), 8) && !StaysAligned([3, 4], Packed([3, 4]), 8)
  {
    assert [3, 4][..1] == [3] && [3][..0] == [];
    assert Packed([3]) == [0] && Packed([3, 4]) == [0, 4];
    assert Largest([3]) == 3 && Largest([3, 4]) == 4;
    assert !StaysAligned([3, 4], [0, 4], 8) by {
      assert At(1, 8, [0, 4][0]) % [3, 4][0] == 2;
    }
  }
}
