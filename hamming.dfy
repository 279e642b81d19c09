/**
 * Hamming distance between 64-bit perceptual hashes (MappedImage.ImageDiff):
 * the number of set bits of `a ^ b`. Everything that groups images relies on
 * this being a metric, so the metric laws are proved here once.
 */
module Hamming {

  type Hash = bv64

  /** Shift distance of one bit, typed as a bit-vector so that shifts stay in bit-vector arithmetic. */
  const One: bv64 := 1

  /** The lowest `n` bits of `x`, least significant first. */
  function Bits(x: bv64, n: nat): (r: seq<bool>)
    ensures |r| == n
    decreases n
  {
    if n == 0 then [] else [x & 1 == 1] + Bits(x >> One, n - 1)
  }

  /** Number of `true` entries of a bit sequence. */
  function CountTrue(s: seq<bool>): (r: nat)
    ensures r <= |s|
  {
    if |s| == 0 then 0 else (if s[0] then 1 else 0) + CountTrue(s[1..])
  }

  /** Pointwise exclusive or of two bit sequences of equal length. */
  function XorBits(s: seq<bool>, t: seq<bool>): (r: seq<bool>)
    requires |s| == |t|
    ensures |r| == |s|
  {
    if |s| == 0 then [] else [s[0] != t[0]] + XorBits(s[1..], t[1..])
  }

  /** BitOperations.PopCount on a 64-bit value. */
  function PopCount(x: bv64): nat
  {
    CountTrue(Bits(x, 64))
  }

  /** MappedImage.ImageDiff: the number of bits in which two hashes differ. */
  function ImageDiff(a: Hash, b: Hash): nat
  {
    PopCount(a ^ b)
  }

  /** The mask of the lowest `n` bits. */
  function LowMask(n: nat): bv64
    decreases n
  {
    if n == 0 then 0 else (LowMask(n - 1) << One) | 1
  }

  lemma LowMaskStep(n: nat, v: bv64)
    requires LowMask(n) == v
    ensures LowMask(n + 1) == (v << One) | 1
  {
  }

  /** The 64-bit mask covers every bit. */
  lemma LowMaskFull()
    ensures LowMask(64) == 0xFFFF_FFFF_FFFF_FFFF
  {
    var v: bv64 := 0;
    var k := 0;
    var kb: bv8 := 0;
    while k < 64
      invariant k <= 64 && kb <= 64 && k == kb as int
      invariant LowMask(k) == v
      invariant v == (1 << kb) - 1
    {
      LowMaskStep(k, v);
      v := (v << One) | 1;
      k := k + 1;
      kb := kb + 1;
    }
  }

  lemma BitsTail(x: bv64, n: nat)
    requires n > 0
    ensures Bits(x, n)[0] == (x & 1 == 1)
    ensures Bits(x, n)[1..] == Bits(x >> One, n - 1)
  {
  }

  /** No bit among the lowest `n` bits of `x` is set. */
  predicate NoneSet(x: bv64, n: nat)
  {
    CountTrue(Bits(x, n)) == 0
  }

  /** `x` vanishes under the mask of its lowest `n` bits. */
  predicate MaskedZero(x: bv64, n: nat)
  {
    x & LowMask(n) == 0
  }

  lemma NoneSetStep(x: bv64, n: nat)
    requires n > 0 && NoneSet(x, n)
    ensures NoneSet(x >> One, n - 1) && x & 1 == 0
  {
    BitsTail(x, n);
  }

  lemma ClearedLowBit(x: bv64, m: bv64)
    requires (x >> One) & m == 0 && x & 1 == 0
    ensures x & ((m << One) | 1) == 0
  {
  }

  lemma MaskedZeroStep(x: bv64, n: nat)
    requires n > 0 && MaskedZero(x >> One, n - 1) && x & 1 == 0
    ensures MaskedZero(x, n)
  {
    var m := LowMask(n - 1);
    LowMaskStep(n - 1, m);
    ClearedLowBit(x, m);
  }

  /** If none of the lowest `n` bits is set, `x` vanishes under the low mask. */
  lemma {:induction false} NoBitsLowZero(x: bv64, n: nat)
    requires NoneSet(x, n)
    ensures MaskedZero(x, n)
    decreases n
  {
    if n > 0 {
      NoneSetStep(x, n);
      NoBitsLowZero(x >> One, n - 1);
      MaskedZeroStep(x, n);
    }
  }

  lemma {:induction false} BitsOfZero(n: nat)
    ensures CountTrue(Bits(0, n)) == 0
    decreases n
  {
    if n > 0 {
      BitsOfZero(n - 1);
      BitsTail(0, n);
      assert (0 as bv64) >> One == 0;
    }
  }

  /** A population count is zero exactly for the zero word. */
  lemma PopCountZero(x: bv64)
    ensures PopCount(x) == 0 <==> x == 0
  {
    if PopCount(x) == 0 {
      NoBitsLowZero(x, 64);
      LowMaskFull();
    }
    if x == 0 {
      BitsOfZero(64);
    }
  }

  lemma XorBitsComm(a: bv64, c: bv64, n: nat)
    requires n > 0
    ensures XorBits(Bits(a, n), Bits(c, n))
         == [(a & 1 == 1) != (c & 1 == 1)] + XorBits(Bits(a >> One, n - 1), Bits(c >> One, n - 1))
  {
    BitsTail(a, n);
    BitsTail(c, n);
  }

  lemma BitsXorHead(a: bv64, c: bv64, n: nat)
    requires n > 0
    ensures Bits(a ^ c, n) == [(a & 1 == 1) != (c & 1 == 1)] + Bits((a >> One) ^ (c >> One), n - 1)
  {
    assert ((a ^ c) & 1 == 1) == ((a & 1 == 1) != (c & 1 == 1));
    assert (a ^ c) >> One == (a >> One) ^ (c >> One);
  }

  /** The bits of `a ^ c` agree with the pointwise exclusive or of the bits of `a` and `c`. */
  predicate XorAgrees(a: bv64, c: bv64, n: nat)
  {
    Bits(a ^ c, n) == XorBits(Bits(a, n), Bits(c, n))
  }

  lemma BitsXorStep(a: bv64, c: bv64, n: nat)
    requires n > 0 && XorAgrees(a >> One, c >> One, n - 1)
    ensures XorAgrees(a, c, n)
  {
    XorBitsComm(a, c, n);
    BitsXorHead(a, c, n);
  }

  /** The bits of `a ^ c` are the pointwise exclusive or of the bits of `a` and `c`. */
  lemma {:induction false} BitsXor(a: bv64, c: bv64, n: nat)
    ensures XorAgrees(a, c, n)
    decreases n
  {
    if n > 0 {
      BitsXor(a >> One, c >> One, n - 1);
      BitsXorStep(a, c, n);
    }
  }

  lemma {:induction false} CountXorTriangle(s: seq<bool>, t: seq<bool>, u: seq<bool>)
    requires |s| == |t| == |u|
    ensures CountTrue(XorBits(s, u)) <= CountTrue(XorBits(s, t)) + CountTrue(XorBits(t, u))
  {
    if |s| > 0 {
      CountXorTriangle(s[1..], t[1..], u[1..]);
      assert XorBits(s, u)[1..] == XorBits(s[1..], u[1..]);
      assert XorBits(s, t)[1..] == XorBits(s[1..], t[1..]);
      assert XorBits(t, u)[1..] == XorBits(t[1..], u[1..]);
    }
  }

  /** ImageDiff always lies in 0..64. */
  lemma ImageDiffRange(a: Hash, b: Hash)
    ensures 0 <= ImageDiff(a, b) <= 64
  {
  }

  /** Identity of indiscernibles: the distance is 0 exactly for equal hashes. */
  lemma ImageDiffZero(a: Hash, b: Hash)
    ensures ImageDiff(a, b) == 0 <==> a == b
  {
    PopCountZero(a ^ b);
    XorZero(a, b);
  }

  lemma XorZero(a: bv64, b: bv64)
    ensures a ^ b == 0 <==> a == b
  {
  }

  /** Symmetry. */
  lemma ImageDiffSymmetric(a: Hash, b: Hash)
    ensures ImageDiff(a, b) == ImageDiff(b, a)
  {
    assert a ^ b == b ^ a;
  }

  /** Triangle inequality: what makes the vantage-point tree's pruning sound. */
  lemma ImageDiffTriangle(a: Hash, b: Hash, c: Hash)
    ensures ImageDiff(a, c) <= ImageDiff(a, b) + ImageDiff(b, c)
  {
    BitsXor(a, c, 64);
    BitsXor(a, b, 64);
    BitsXor(b, c, 64);
    CountXorTriangle(Bits(a, 64), Bits(b, 64), Bits(c, 64));
  }

  /** Flipping exactly one bit moves a hash by distance 1. */
  lemma ImageDiffOneBit(a: Hash)
    ensures ImageDiff(a, a ^ 1) == 1
  {
    assert a ^ (a ^ 1) == 1;
    BitsTail(1, 64);
    assert (1 as bv64) >> One == 0;
    BitsOfZero(63);
  }

  /** Flipping the two lowest bits moves a hash by distance 2. */
  lemma ImageDiffTwoBits(a: Hash)
    ensures ImageDiff(a, a ^ 3) == 2
  {
    assert a ^ (a ^ 3) == 3;
    BitsTail(3, 64);
    assert (3 as bv64) >> One == 1;
    BitsTail(1, 63);
    assert (1 as bv64) >> One == 0;
    BitsOfZero(62);
  }
}
