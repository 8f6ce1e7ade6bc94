/** Bit-level vocabulary shared by the packer, the encoder and the decoder.
    Bits are listed least-significant first, the order in which the packer
    produces and consumes them. */
module Bits {
  import opened Arith

  /** An octet, as stored in the codec's `uint8_t` input and output vectors. */
  type Byte = x: int | 0 <= x < 256

  function Pow2(n: nat): (r: nat)
    ensures r >= 1
  {
    if n == 0 then 1 else 2 * Pow2(n - 1)
  }

  lemma Pow2Succ(n: nat)
    ensures Pow2(n + 1) == 2 * Pow2(n)
  {
  }

  lemma {:induction false} Pow2Add(a: nat, b: nat)
    ensures Pow2(a + b) == Pow2(a) * Pow2(b)
  {
    if a > 0 {
      Pow2Add(a - 1, b);
      assert Pow2(a + b) == 2 * Pow2(a - 1 + b);
    }
  }

  lemma {:induction false} Pow2Mono(a: nat, b: nat)
    requires a <= b
    ensures Pow2(a) <= Pow2(b)
  {
    if a < b {
      Pow2Mono(a, b - 1);
    }
  }

  /** The low n bits of x: `x & ((1 << n) - 1)` for a non-negative x. */
  function Low(x: nat, n: nat): (r: nat)
    ensures r < Pow2(n)
  {
    DivNonNeg(x, Pow2(n));
    x % Pow2(n)
  }

  /** x shifted right by n bits: `x >> n`. */
  function Shr(x: nat, n: nat): nat
  {
    DivNonNeg(x, Pow2(n));
    x / Pow2(n)
  }

  /** The low `n` bits of `x`, least-significant first. */
  function NatToBits(x: nat, n: nat): (r: seq<bool>)
    ensures |r| == n
  {
    if n == 0 then [] else [x % 2 == 1] + NatToBits(x / 2, n - 1)
  }

  /** The number whose bits, least-significant first, are `bits`. */
  function BitsToNat(bits: seq<bool>): (r: nat)
    ensures r < Pow2(|bits|)
  {
    if bits == [] then 0 else (if bits[0] then 1 else 0) + 2 * BitsToNat(bits[1..])
  }

  /** `n` zero bits: the padding a flush adds. */
  function Zeros(n: nat): (r: seq<bool>)
    ensures |r| == n
    ensures forall i :: 0 <= i < n ==> !r[i]
  {
    seq(n, _ => false)
  }

  lemma {:induction false} NatToBitsZero(n: nat)
    ensures NatToBits(0, n) == Zeros(n)
  {
    if n > 0 {
      NatToBitsZero(n - 1);
      assert Zeros(n) == [false] + Zeros(n - 1);
    }
  }

  /** The lowest bit and the rest, for a remainder modulo 2 * p. */
  lemma HalfSplit(x: nat, p: nat)
    requires p > 0
    ensures (x % (2 * p)) % 2 == x % 2
    ensures (x % (2 * p)) / 2 == (x / 2) % p
    ensures x / 2 / p == x / (2 * p)
  {
    DivMulSplit(x, 2, p);
    DivModUnique(x % (2 * p), 2, (x / 2) % p, x % 2);
  }

  /** Splitting the low a + b bits of x at position a. */
  lemma {:induction false} SplitBits(x: nat, a: nat, b: nat)
    ensures NatToBits(x, a + b) == NatToBits(Low(x, a), a) + NatToBits(Shr(x, a), b)
  {
    if a > 0 {
      var p := Pow2(a - 1);
      SplitBits(x / 2, a - 1, b);
      assert Pow2(a) == 2 * p;
      HalfSplit(x, p);
      var lo := Low(x, a);
      assert lo % 2 == x % 2 && lo / 2 == Low(x / 2, a - 1);
      assert Shr(x, a) == Shr(x / 2, a - 1);
      assert NatToBits(lo, a) == [lo % 2 == 1] + NatToBits(Low(x / 2, a - 1), a - 1);
      assert NatToBits(x, a + b) == [x % 2 == 1] + NatToBits(x / 2, a - 1 + b);
    }
  }

  /** Bits of a sum lo + hi * 2^a, where lo fits in a bits, are lo's bits followed by hi's. */
  lemma ConcatBits(lo: nat, hi: nat, a: nat, b: nat)
    requires lo < Pow2(a)
    ensures NatToBits(lo + hi * Pow2(a), a + b) == NatToBits(lo, a) + NatToBits(hi, b)
  {
    SplitBits(lo + hi * Pow2(a), a, b);
    DivModUnique(lo + hi * Pow2(a), Pow2(a), hi, lo);
  }

  /** Only the low n bits of x matter to NatToBits(x, n). */
  lemma LowBits(x: nat, n: nat)
    ensures NatToBits(Low(x, n), n) == NatToBits(x, n)
  {
    SplitBits(x, n, 0);
  }

  /** A value below 2^k, written in n >= k bits, is its k bits followed by zeros. */
  lemma PadBits(x: nat, k: nat, n: nat)
    requires k <= n && x < Pow2(k)
    ensures NatToBits(x, n) == NatToBits(x, k) + Zeros(n - k)
  {
    SplitBits(x, k, n - k);
    DivModUnique(x, Pow2(k), 0, x);
    NatToBitsZero(n - k);
  }

  lemma {:induction false} BitsToNatOf(x: nat, n: nat)
    ensures BitsToNat(NatToBits(x, n)) == Low(x, n)
  {
    if n > 0 {
      var bits := NatToBits(x, n);
      assert bits[1..] == NatToBits(x / 2, n - 1);
      BitsToNatOf(x / 2, n - 1);
      DivMulSplit(x, 2, Pow2(n - 1));
    }
  }

  /** NatToBits is one-to-one on values that fit in the width. */
  lemma BitsInjective(x: nat, y: nat, n: nat)
    requires x < Pow2(n) && y < Pow2(n)
    requires NatToBits(x, n) == NatToBits(y, n)
    ensures x == y
  {
    BitsToNatOf(x, n);
    BitsToNatOf(y, n);
    DivModUnique(x, Pow2(n), 0, x);
    DivModUnique(y, Pow2(n), 0, y);
  }

  /** The bit stream of a byte sequence, each byte least-significant bit first. */
  function BytesToBits(bs: seq<Byte>): (r: seq<bool>)
    ensures |r| == 8 * |bs|
  {
    if bs == [] then [] else BytesToBits(bs[..|bs| - 1]) + NatToBits(bs[|bs| - 1], 8)
  }

  lemma {:induction false} BytesToBitsAppend(a: seq<Byte>, b: seq<Byte>)
    ensures BytesToBits(a + b) == BytesToBits(a) + BytesToBits(b)
  {
    if b != [] {
      var ab := a + b;
      assert ab[..|ab| - 1] == a + b[..|b| - 1];
      BytesToBitsAppend(a, b[..|b| - 1]);
    } else {
      assert a + b == a;
    }
  }

  lemma BytesToBitsSnoc(bs: seq<Byte>, b: Byte)
    ensures BytesToBits(bs + [b]) == BytesToBits(bs) + NatToBits(b, 8)
  {
    assert (bs + [b])[..|bs|] == bs;
  }
}
