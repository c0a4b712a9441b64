/** Bit counts and the Hamming distance all matchers rest on. */
module Hamming {
  import opened Wrappers

  function Bit(b: bv8, mask: bv8): (r: nat)
    ensures r <= 1
  {
    if b & mask == mask then 1 else 0
  }

  /** Number of set bits of a byte. */
  function Ones(b: bv8): nat {
    Bit(b, 1) + Bit(b, 2) + Bit(b, 4) + Bit(b, 8) + Bit(b, 16) + Bit(b, 32) + Bit(b, 64) + Bit(b, 128)
  }

  /** The SDK's `popcount8`: pairs, then nibbles, then the byte, summed in parallel. */
  function Popcount8(byte: bv8): bv8 {
    var pairs := byte - ((byte >> 1) & 0x55);
    var nibbles := (pairs & 0x33) + ((pairs >> 2) & 0x33);
    (nibbles + (nibbles >> 4)) & 0x0f
  }

  function BitByte(b: bv8, mask: bv8): bv8 {
    if b & mask == mask then 1 else 0
  }

  function LowHalf(b: bv8): bv8 {
    BitByte(b, 1) + BitByte(b, 2) + BitByte(b, 4) + BitByte(b, 8)
  }

  function BothHalves(low: bv8, b: bv8): bv8 {
    low + BitByte(b, 16) + BitByte(b, 32) + BitByte(b, 64) + BitByte(b, 128)
  }

  lemma PopcountSumsBits(b: bv8)
    ensures Popcount8(b) == BothHalves(LowHalf(b), b)
  {
  }

  /** Adding one bit to a small count is the same in bytes and in numbers. */
  lemma AddBit(count: bv8, n: nat, b: bv8, mask: bv8)
    requires count as nat == n < 8
    ensures (count + BitByte(b, mask)) as nat == n + Bit(b, mask)
  {
  }

  lemma LowHalfCount(b: bv8)
    ensures LowHalf(b) as nat == Bit(b, 1) + Bit(b, 2) + Bit(b, 4) + Bit(b, 8) <= 4
  {
    var c1 := BitByte(b, 1);
    var c2 := c1 + BitByte(b, 2);
    var c3 := c2 + BitByte(b, 4);
    AddBit(c1, Bit(b, 1), b, 2);
    AddBit(c2, Bit(b, 1) + Bit(b, 2), b, 4);
    AddBit(c3, Bit(b, 1) + Bit(b, 2) + Bit(b, 4), b, 8);
  }

  lemma BothHalvesCount(low: bv8, n: nat, b: bv8)
    requires low as nat == n <= 4
    ensures BothHalves(low, b) as nat == n + Bit(b, 16) + Bit(b, 32) + Bit(b, 64) + Bit(b, 128)
  {
    var c1 := low + BitByte(b, 16);
    var c2 := c1 + BitByte(b, 32);
    var c3 := c2 + BitByte(b, 64);
    AddBit(low, n, b, 16);
    AddBit(c1, n + Bit(b, 16), b, 32);
    AddBit(c2, n + Bit(b, 16) + Bit(b, 32), b, 64);
    AddBit(c3, n + Bit(b, 16) + Bit(b, 32) + Bit(b, 64), b, 128);
  }

  /** The byte arithmetic of the parallel sum is the plain number of set bits. */
  lemma PopcountCorrect(b: bv8)
    ensures Popcount8(b) as nat == Ones(b) <= 8
  {
    hide Popcount8, LowHalf, BothHalves, Bit;
    PopcountSumsBits(b);
    LowHalfCount(b);
    BothHalvesCount(LowHalf(b), Bit(b, 1) + Bit(b, 2) + Bit(b, 4) + Bit(b, 8), b);
  }

  // ----- distance -----

  function Differing(x: bv8, y: bv8): nat {
    Ones(x ^ y)
  }

  /** Number of differing bits of two byte strings of equal length. */
  function Distance(a: seq<bv8>, b: seq<bv8>): nat
    requires |a| == |b|
  {
    if a == [] then 0 else Differing(a[0], b[0]) + Distance(a[1..], b[1..])
  }

  lemma BitMetric(a: bv8, b: bv8, c: bv8, mask: bv8)
    ensures Bit(a ^ c, mask) <= Bit(a ^ b, mask) + Bit(b ^ c, mask)
    requires mask in {1, 2, 4, 8, 16, 32, 64, 128}
  {
  }

  lemma DifferingTriangle(a: bv8, b: bv8, c: bv8)
    ensures Differing(a, c) <= Differing(a, b) + Differing(b, c)
  {
    BitMetric(a, b, c, 1);
    BitMetric(a, b, c, 2);
    BitMetric(a, b, c, 4);
    BitMetric(a, b, c, 8);
    BitMetric(a, b, c, 16);
    BitMetric(a, b, c, 32);
    BitMetric(a, b, c, 64);
    BitMetric(a, b, c, 128);
  }

  lemma DifferingZero(a: bv8, b: bv8)
    ensures Differing(a, b) == 0 <==> a == b
  {
    NoBits(a ^ b);
  }

  lemma NoBits(b: bv8)
    ensures Ones(b) == 0 <==> b == 0
  {
  }

  lemma DifferingSymmetric(a: bv8, b: bv8)
    ensures Differing(a, b) == Differing(b, a) <= 8
  {
    assert a ^ b == b ^ a;
  }

  /** Changing one bit is one bit of distance. */
  lemma OneBit(b: bv8, mask: bv8)
    requires mask in {1, 2, 4, 8, 16, 32, 64, 128}
    ensures Differing(b, b ^ mask) == 1
  {
    assert b ^ (b ^ mask) == mask;
    OneBitMask(mask);
  }

  lemma OneBitMask(mask: bv8)
    requires mask in {1, 2, 4, 8, 16, 32, 64, 128}
    ensures Ones(mask) == 1
  {
  }

  /** Wherever the byte stands. */
  lemma {:induction false} FlippedBit(a: seq<bv8>, i: nat, mask: bv8)
    requires i < |a| && mask in {1, 2, 4, 8, 16, 32, 64, 128}
    ensures Distance(a, a[i := a[i] ^ mask]) == 1
  {
    hide Differing;
    var b := a[i := a[i] ^ mask];
    if i == 0 {
      OneBit(a[0], mask);
      DistanceZero(a[1..], a[1..]);
      assert b[1..] == a[1..];
    } else {
      DifferingZero(a[0], a[0]);
      FlippedBit(a[1..], i - 1, mask);
      assert b[1..] == a[1..][i - 1 := a[i] ^ mask];
    }
  }

  lemma {:induction false} DistanceTriangle(a: seq<bv8>, b: seq<bv8>, c: seq<bv8>)
    requires |a| == |b| == |c|
    ensures Distance(a, c) <= Distance(a, b) + Distance(b, c)
  {
    hide Differing;
    if a != [] {
      DifferingTriangle(a[0], b[0], c[0]);
      DistanceTriangle(a[1..], b[1..], c[1..]);
    }
  }

  lemma {:induction false} DistanceZero(a: seq<bv8>, b: seq<bv8>)
    requires |a| == |b|
    ensures Distance(a, b) == 0 <==> a == b
  {
    hide Differing;
    if a != [] {
      DifferingZero(a[0], b[0]);
      DistanceZero(a[1..], b[1..]);
      assert a == [a[0]] + a[1..] && b == [b[0]] + b[1..];
    }
  }

  lemma {:induction false} DistanceSymmetric(a: seq<bv8>, b: seq<bv8>)
    requires |a| == |b|
    ensures Distance(a, b) == Distance(b, a) <= 8 * |a|
  {
    hide Differing;
    if a != [] {
      DifferingSymmetric(a[0], b[0]);
      DistanceSymmetric(a[1..], b[1..]);
    }
  }

  lemma {:induction false} DistanceAppend(a: seq<bv8>, b: seq<bv8>, x: bv8, y: bv8)
    requires |a| == |b|
    ensures Distance(a + [x], b + [y]) == Distance(a, b) + Differing(x, y)
  {
    hide Differing;
    if a == [] {
      assert a + [x] == [x] && b + [y] == [y];
    } else {
      assert (a + [x])[1..] == a[1..] + [x] && (b + [y])[1..] == b[1..] + [y];
      DistanceAppend(a[1..], b[1..], x, y);
    }
  }
}
