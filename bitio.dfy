/** The LSB-first variable-width bit packer. */
module BitIO {
  import opened Arith
  import opened Bits

  /** The k bytes that writeCode peels off x, lowest first. */
  function LowBytes(x: nat, k: nat): (r: seq<Byte>)
    ensures |r| == k
  {
    if k == 0 then [] else LowBytes(x, k - 1) + [Shr(x, 8 * (k - 1)) % 256]
  }

  /** A proof step, not a fact of the codec: shifting by nothing changes nothing, and peels no byte. */
  lemma ShrZero(x: nat)
    ensures Shr(x, 0) == x && LowBytes(x, 0) == []
  {
  }

  lemma ShrStep(x: nat, n: nat, k: nat)
    ensures Shr(x, n + k) == Shr(x, n) / Pow2(k)
  {
    Pow2Add(n, k);
    DivMulSplit(x, Pow2(n), Pow2(k));
  }

  lemma ShrBound(x: nat, n: nat, k: nat)
    requires k <= n && x < Pow2(n)
    ensures Shr(x, k) < Pow2(n - k)
  {
    Pow2Add(k, n - k);
    var p, q := Pow2(k), Shr(x, k);
    assert x == p * q + Low(x, k);
    if q >= Pow2(n - k) {
      MulLe(p, Pow2(n - k), q);
      assert false;
    }
  }

  /** One iteration of writeCode's byte-peeling loop. */
  lemma PeelStep(total: nat, k: nat, buf: nat, count: nat)
    requires count >= 8 && buf < Pow2(count) && buf == Shr(total, 8 * k)
    ensures buf / 256 < Pow2(count - 8)
    ensures buf / 256 == Shr(total, 8 * (k + 1))
    ensures LowBytes(total, k + 1) == LowBytes(total, k) + [buf % 256]
  {
    SplitBits(buf, 8, count - 8);
    ShrStep(total, 8 * k, 8);
    ShrBound(buf, count, 8);
    assert 8 * (k + 1) == 8 * k + 8;
  }

  /** The first 8k of n bits of x are the bytes LowBytes(x, k); the rest are x >> 8k. */
  lemma {:induction false} PeelAll(x: nat, k: nat, n: nat)
    requires 8 * k <= n
    ensures NatToBits(x, n) == BytesToBits(LowBytes(x, k)) + NatToBits(Shr(x, 8 * k), n - 8 * k)
  {
    if k > 0 {
      PeelAll(x, k - 1, n);
      PeelNext(x, k, n);
    }
  }

  /** The inductive step of PeelAll: one more byte moves from the pending bits to the bytes. */
  lemma PeelNext(x: nat, k: nat, n: nat)
    requires 0 < k && 8 * k <= n
    requires NatToBits(x, n) == BytesToBits(LowBytes(x, k - 1)) + NatToBits(Shr(x, 8 * (k - 1)), n - 8 * (k - 1))
    ensures NatToBits(x, n) == BytesToBits(LowBytes(x, k)) + NatToBits(Shr(x, 8 * k), n - 8 * k)
  {
    var b := Shr(x, 8 * (k - 1)) % 256;
    assert LowBytes(x, k) == LowBytes(x, k - 1) + [b];
    PeelByte(x, k, n);
    BytesToBitsSnoc(LowBytes(x, k - 1), b);
    Chain(NatToBits(x, n), BytesToBits(LowBytes(x, k - 1)), NatToBits(Shr(x, 8 * (k - 1)), n - 8 * (k - 1)),
          NatToBits(b, 8), NatToBits(Shr(x, 8 * k), n - 8 * k), BytesToBits(LowBytes(x, k)));
  }

  /** The next byte of x >> 8(k - 1), and the bits above it. */
  lemma PeelByte(x: nat, k: nat, n: nat)
    requires 0 < k && 8 * k <= n
    ensures NatToBits(Shr(x, 8 * (k - 1)), n - 8 * (k - 1)) ==
      NatToBits(Shr(x, 8 * (k - 1)) % 256, 8) + NatToBits(Shr(x, 8 * k), n - 8 * k)
  {
    var m, rest := 8 * (k - 1), n - 8 * k;
    assert n - m == 8 + rest && m + 8 == 8 * k;
    var y := Shr(x, m);
    SplitBits(y, 8, rest);
    ShrStep(x, m, 8);
    LowBits(y, 8);
    Pow2Byte();
  }

  /** A proof step, not a fact of the codec: regrouping p == a + (b + c) as (a + b) + c. */
  lemma Chain(p: seq<bool>, a: seq<bool>, q: seq<bool>, b: seq<bool>, c: seq<bool>, ab: seq<bool>)
    requires p == a + q && q == b + c && ab == a + b
    ensures p == ab + c
  {
  }

  /** The bytes peeled off x, followed by the bits still pending, are the n bits of x. */
  lemma PeelStream(out0: seq<Byte>, x: nat, k: nat, n: nat)
    requires 8 * k <= n
    ensures BytesToBits(out0 + LowBytes(x, k)) + NatToBits(Shr(x, 8 * k), n - 8 * k) ==
      BytesToBits(out0) + NatToBits(x, n)
  {
    BytesToBitsAppend(out0, LowBytes(x, k));
    PeelAll(x, k, n);
  }

  /** What the byte-peeling loop leaves behind: k whole bytes and the rest pending,
      together the old bits followed by the new code's bits. */
  lemma WriteFinish(out0: seq<Byte>, old_bits: seq<bool>, new_bits: seq<bool>, total: nat,
                    k: nat, out: seq<Byte>, buf: nat, count: nat)
    requires NatToBits(total, |old_bits| + |new_bits|) == old_bits + new_bits
    requires count < 8 && 8 * k + count == |old_bits| + |new_bits|
    requires out == out0 + LowBytes(total, k)
    requires buf == Shr(total, 8 * k)
    ensures count == (|old_bits| + |new_bits|) % 8 && k == (|old_bits| + |new_bits|) / 8
    ensures BytesToBits(out) + NatToBits(buf, count) == BytesToBits(out0) + old_bits + new_bits
  {
    DivModUnique(|old_bits| + |new_bits|, 8, k, count);
    PeelStream(out0, total, k, |old_bits| + |new_bits|);
  }

  /** `code & ((1 << size) - 1)`: for the source's two's-complement int this is the
      Euclidean remainder modulo 2^size. */
  function Mask(code: int, size: nat): (r: nat)
    ensures r < Pow2(size)
  {
    code % Pow2(size)
  }

  /** `buf | (m << count)` for a buf of fewer than count significant bits. */
  function Merge(buf: nat, count: nat, m: nat): nat
  {
    buf + m * Pow2(count)
  }

  lemma MergeBits(buf: nat, count: nat, m: nat, size: nat)
    requires buf < Pow2(count) && m < Pow2(size)
    ensures Merge(buf, count, m) < Pow2(count + size)
    ensures NatToBits(Merge(buf, count, m), count + size) == NatToBits(buf, count) + NatToBits(m, size)
  {
    ConcatBound(buf, m, count, size);
    ConcatBits(buf, m, count, size);
  }

  /** lo + hi * 2^a fits in a + b bits when lo fits in a bits and hi in b bits. */
  lemma ConcatBound(lo: nat, hi: nat, a: nat, b: nat)
    requires lo < Pow2(a) && hi < Pow2(b)
    ensures lo + hi * Pow2(a) < Pow2(a + b)
  {
    Pow2Add(a, b);
    MulAddBound(lo, hi, Pow2(a), Pow2(b));
  }

  /** One more step of the bit-by-bit read loop of readCode. */
  lemma ReadStep(x: nat, i: nat)
    ensures Low(x, i + 1) == Low(x, i) + (Shr(x, i) % 2) * Pow2(i)
    ensures Shr(x, i + 1) == Shr(x, i) / 2
  {
    assert Pow2(i + 1) == Pow2(i) * 2;
    DivMulSplit(x, Pow2(i), 2);
  }

  /** Values written one after another by writeCode, value i at its own width ws[i]. */
  function WBits(vs: seq<nat>, ws: seq<nat>): (r: seq<bool>)
    requires |vs| == |ws|
  {
    if vs == [] then [] else NatToBits(vs[0], ws[0]) + WBits(vs[1..], ws[1..])
  }

  /** readCode called at the widths ws in turn on the bits, up to the first -1. */
  function WParse(bits: seq<bool>, ws: seq<nat>): seq<nat>
    decreases |ws|
  {
    if ws == [] || |bits| < ws[0] then [] else [BitsToNat(bits[..ws[0]])] + WParse(bits[ws[0]..], ws[1..])
  }

  /** The values as writeCode masks them to their widths. */
  function Masked(vs: seq<int>, ws: seq<nat>): (r: seq<nat>)
    requires |vs| == |ws|
    ensures |r| == |vs|
  {
    if vs == [] then [] else [Mask(vs[0], ws[0])] + Masked(vs[1..], ws[1..])
  }

  /** Values that fit their widths are not changed by the mask. */
  lemma {:induction false} MaskedFit(vs: seq<nat>, ws: seq<nat>)
    requires |vs| == |ws| && forall i :: 0 <= i < |vs| ==> vs[i] < Pow2(ws[i])
    ensures Masked(vs, ws) == vs
    decreases |vs|
  {
    if vs != [] {
      assert vs[0] < Pow2(ws[0]);
      DivModUnique(vs[0], Pow2(ws[0]), 0, vs[0]);
      forall i | 0 <= i < |vs| - 1 ensures vs[1..][i] < Pow2(ws[1..][i]) {
        assert vs[i + 1] < Pow2(ws[i + 1]);
      }
      MaskedFit(vs[1..], ws[1..]);
      assert vs == [vs[0]] + vs[1..];
    }
  }

  /** The packer round trip at any widths: values that fit their widths, written one
      after another, are read back in order at the same widths, whatever follows them. */
  lemma {:induction false} WRoundTrip(vs: seq<nat>, ws: seq<nat>, rest: seq<bool>)
    requires |vs| == |ws| && forall i :: 0 <= i < |vs| ==> vs[i] < Pow2(ws[i])
    ensures WParse(WBits(vs, ws) + rest, ws) == vs
    decreases |vs|
  {
    if vs != [] {
      var w := ws[0];
      var head := NatToBits(vs[0], w);
      var tail := WBits(vs[1..], ws[1..]) + rest;
      var bits := WBits(vs, ws) + rest;
      assert bits == head + tail;
      assert bits[..w] == head && bits[w..] == tail;
      assert vs[0] < Pow2(w);
      BitsToNatOf(vs[0], w);
      DivModUnique(vs[0], Pow2(w), 0, vs[0]);
      forall i | 0 <= i < |vs| - 1 ensures vs[1..][i] < Pow2(ws[1..][i]) {
        assert vs[i + 1] < Pow2(ws[i + 1]);
      }
      WRoundTrip(vs[1..], ws[1..], rest);
      assert vs == [vs[0]] + vs[1..];
    }
  }

  /** Writing one more value at one more width appends its bits. */
  lemma {:induction false} WBitsSnoc(vs: seq<int>, ws: seq<nat>, v: int, w: nat)
    requires |vs| == |ws|
    ensures Masked(vs + [v], ws + [w]) == Masked(vs, ws) + [Mask(v, w)]
    ensures WBits(Masked(vs + [v], ws + [w]), ws + [w]) == WBits(Masked(vs, ws), ws) + NatToBits(Mask(v, w), w)
    decreases |vs|
  {
    if vs == [] {
      assert vs + [v] == [v] && ws + [w] == [w];
    } else {
      assert (vs + [v])[1..] == vs[1..] + [v] && (ws + [w])[1..] == ws[1..] + [w];
      WBitsSnoc(vs[1..], ws[1..], v, w);
      var m := Masked(vs, ws);
      assert Masked(vs + [v], ws + [w]) == [Mask(vs[0], ws[0])] + (Masked(vs[1..], ws[1..]) + [Mask(v, w)]);
      assert Masked(vs + [v], ws + [w]) == m + [Mask(v, w)];
      assert (m + [Mask(v, w)])[1..] == m[1..] + [Mask(v, w)];
      assert (m + [Mask(v, w)])[0] == m[0] && (ws + [w])[0] == ws[0];
      assert m[1..] == Masked(vs[1..], ws[1..]);
    }
  }

  /** One pass of the loop of WriteCodes: the bits of value i follow those of the values before it. */
  lemma WriteStep(s0: seq<bool>, vs: seq<int>, ws: seq<nat>, i: nat, before: seq<bool>, after: seq<bool>)
    requires |vs| == |ws| && i < |vs|
    requires before == s0 + WBits(Masked(vs[..i], ws[..i]), ws[..i])
    requires after == before + NatToBits(Mask(vs[i], ws[i]), ws[i])
    ensures after == s0 + WBits(Masked(vs[..i + 1], ws[..i + 1]), ws[..i + 1])
  {
    WBitsSnoc(vs[..i], ws[..i], vs[i], ws[i]);
    assert vs[..i + 1] == vs[..i] + [vs[i]] && ws[..i + 1] == ws[..i] + [ws[i]];
    var prev, next := WBits(Masked(vs[..i], ws[..i]), ws[..i]), NatToBits(Mask(vs[i], ws[i]), ws[i]);
    assert (s0 + prev) + next == s0 + (prev + next);
  }

  /** The packer's state: bytes produced so far and a register of pending bits.
      `bitBuf` is the source's 64-bit register; the model keeps it unbounded and the
      methods require what keeps the source's register from overflowing. */
  class BitPacker {
    var output: seq<Byte>
    var bitBuf: nat
    var bitCount: nat

    /** No stray high bits: every bit of bitBuf at position bitCount or above is zero. */
    ghost predicate Valid()
      reads this
    {
      bitBuf < Pow2(bitCount)
    }

    /** The pending bits, oldest first. */
    ghost function Pending(): (bits: seq<bool>)
      reads this
      ensures |bits| == bitCount
    {
      NatToBits(bitBuf, bitCount)
    }

    /** Everything written so far: the output bytes, then the pending bits. */
    ghost function Stream(): seq<bool>
      reads this
    {
      BytesToBits(output) + Pending()
    }

    constructor ()
      ensures Valid() && output == [] && bitBuf == 0 && bitCount == 0
      ensures Stream() == []
    {
      output, bitBuf, bitCount := [], 0, 0;
    }

    /** writeCode: mask code to codeSize bits, put it above the pending bits, then peel
        off whole bytes. `code & ((1 << codeSize) - 1)` is `code % 2^codeSize` for the
        source's two's-complement int, and the `|=` is an addition because of Valid(). */
    method WriteCode(code: int, codeSize: nat)
      requires Valid()
      requires codeSize <= 30 && bitCount + codeSize <= 64
      modifies this
      ensures Valid() && bitCount < 8
      ensures bitCount == (old(bitCount) + codeSize) % 8
      ensures |output| == |old(output)| + (old(bitCount) + codeSize) / 8
      ensures output == old(output) +
        LowBytes(Merge(old(bitBuf), old(bitCount), Mask(code, codeSize)), (old(bitCount) + codeSize) / 8)
      ensures bitBuf == Shr(Merge(old(bitBuf), old(bitCount), Mask(code, codeSize)), 8 * ((old(bitCount) + codeSize) / 8))
      ensures Stream() == old(Stream()) + NatToBits(Mask(code, codeSize), codeSize)
    {
      var masked := Mask(code, codeSize);
      ghost var total := Merge(bitBuf, bitCount, masked);
      ghost var n := bitCount + codeSize;
      ghost var out0 := output;
      MergeBits(bitBuf, bitCount, masked, codeSize);
      var merged := bitBuf + masked * Pow2(bitCount);
      assert merged == total;
      var out, buf, count, k := PeelBytes(output, merged, bitCount + codeSize);
      WriteFinish(out0, old(Pending()), NatToBits(masked, codeSize), total, k, out, buf, count);
      output, bitBuf, bitCount := out, buf, count;
    }

    /** The byte loop of writeCode: while eight or more bits are pending, the low byte of
        the register goes to the output and the register shifts down by eight. */
    static method PeelBytes(out0: seq<Byte>, total: nat, n: nat)
      returns (out: seq<Byte>, buf: nat, count: nat, ghost k: nat)
      requires total < Pow2(n)
      ensures buf < Pow2(count) && count < 8 && 8 * k + count == n
      ensures out == out0 + LowBytes(total, k) && buf == Shr(total, 8 * k)
    {
      out, buf, count, k := out0, total, n, 0;
      ShrZero(total);
      while count >= 8
        invariant buf < Pow2(count)
        invariant 8 * k + count == n
        invariant out == out0 + LowBytes(total, k)
        invariant buf == Shr(total, 8 * k)
        decreases count
      {
        PeelStep(total, k, buf, count);
        var b: Byte := buf % 256;
        out := out + [b];
        buf := buf / 256;
        count := count - 8;
        k := k + 1;
      }
    }

    /** readCode: -1 when fewer than codeSize bits are pending; otherwise the low
        codeSize pending bits, gathered one at a time. */
    method ReadCode(codeSize: nat) returns (code: int)
      requires Valid() && codeSize <= 31
      modifies this
      ensures Valid() && output == old(output)
      ensures old(bitCount) < codeSize ==> code == -1 && bitBuf == old(bitBuf) && bitCount == old(bitCount)
      ensures old(bitCount) >= codeSize ==>
        code == Low(old(bitBuf), codeSize) &&
        bitBuf == Shr(old(bitBuf), codeSize) &&
        bitCount == old(bitCount) - codeSize
      ensures old(bitCount) >= codeSize ==>
        0 <= code < Pow2(codeSize) &&
        NatToBits(code, codeSize) == old(Pending())[..codeSize] &&
        Pending() == old(Pending())[codeSize..]
    {
      if bitCount < codeSize {
        return -1;
      }
      ghost var x := bitBuf;
      var c: nat := 0;
      for i := 0 to codeSize
        invariant bitCount == old(bitCount) - i && output == old(output)
        invariant c == Low(x, i) && bitBuf == Shr(x, i)
      {
        ReadStep(x, i);
        c := c + (bitBuf % 2) * Pow2(i);
        bitBuf := bitBuf / 2;
        bitCount := bitCount - 1;
      }
      code := c;
      ShrBound(x, old(bitCount), codeSize);
      SplitBits(x, codeSize, old(bitCount) - codeSize);
    }

    /** flushRemaining: the pending 1..7 bits become one last byte, zero in its high bits. */
    method FlushRemaining()
      requires Valid()
      modifies this
      ensures Valid()
      ensures old(bitCount) == 0 ==> output == old(output) && bitBuf == old(bitBuf) == 0 && bitCount == 0
      ensures old(bitCount) > 0 ==> output == old(output) + [old(bitBuf) % 256] && bitBuf == 0 && bitCount == 0
      ensures 0 < old(bitCount) <= 8 ==> Stream() == old(Stream()) + Zeros(8 - old(bitCount))
      ensures old(bitCount) < 8 ==>
        BytesToBits(output) == old(Stream()) + Zeros(if old(bitCount) == 0 then 0 else 8 - old(bitCount))
    {
      if bitCount > 0 {
        if bitCount <= 8 {
          Pow2Mono(bitCount, 8);
          PadBits(bitBuf, bitCount, 8);
          DivModUnique(bitBuf, 256, 0, bitBuf);
        }
        output := output + [bitBuf % 256];
        bitBuf := 0;
        bitCount := 0;
      }
    }

    /** writeCode called for each value in turn, value i at width ws[i], as the encoder
        and the packer's width test do. */
    method WriteCodes(vs: seq<int>, ws: seq<nat>)
      requires Valid() && bitCount < 8 && |vs| == |ws|
      requires forall i :: 0 <= i < |ws| ==> ws[i] <= 30
      modifies this
      ensures Valid() && bitCount < 8
      ensures Stream() == old(Stream()) + WBits(Masked(vs, ws), ws)
    {
      ghost var s0 := Stream();
      for i := 0 to |vs|
        invariant Valid() && bitCount < 8
        invariant Stream() == s0 + WBits(Masked(vs[..i], ws[..i]), ws[..i])
      {
        ghost var before := Stream();
        WriteCode(vs[i], ws[i]);
        WriteStep(s0, vs, ws, i, before, Stream());
      }
      assert vs[..|vs|] == vs && ws[..|ws|] == ws;
    }
  }

  /** A fresh packer that writes values at the widths ws and flushes: its bytes hold the
      masked values' bits followed by fewer than 8 zero bits, and reading them back at the
      same widths gives the masked values, which are the values themselves when they fit. */
  method PackCodes(vs: seq<int>, ws: seq<nat>) returns (out: seq<Byte>, ghost pad: nat)
    requires |vs| == |ws| && forall i :: 0 <= i < |ws| ==> ws[i] <= 30
    ensures pad < 8 && BytesToBits(out) == WBits(Masked(vs, ws), ws) + Zeros(pad)
    ensures WParse(BytesToBits(out), ws) == Masked(vs, ws)
  {
    var bp := new BitPacker();
    bp.WriteCodes(vs, ws);
    pad := if bp.bitCount == 0 then 0 else 8 - bp.bitCount;
    bp.FlushRemaining();
    out := bp.output;
    MaskedBound(vs, ws);
    WRoundTrip(Masked(vs, ws), ws, Zeros(pad));
  }

  /** Every masked value fits its width. */
  lemma {:induction false} MaskedBound(vs: seq<int>, ws: seq<nat>)
    requires |vs| == |ws|
    ensures forall i :: 0 <= i < |vs| ==> Masked(vs, ws)[i] < Pow2(ws[i])
    decreases |vs|
  {
    if vs != [] {
      MaskedBound(vs[1..], ws[1..]);
      forall i | 0 <= i < |vs| ensures Masked(vs, ws)[i] < Pow2(ws[i]) {
        if i > 0 {
          assert Masked(vs, ws)[i] == Masked(vs[1..], ws[1..])[i - 1];
        }
      }
    }
  }

  /** A byte written at width 8 to an empty register comes out whole. */
  lemma WholeByte(b: Byte, out0: seq<Byte>)
    ensures Mask(b, 8) == b && Merge(0, 0, b) == b
    ensures out0 + LowBytes(b, 1) == out0 + [b] && Shr(b, 8) == 0
  {
    Pow2Byte();
  }

  lemma Pow2Byte()
    ensures Pow2(8) == 256 && Pow2(0) == 1
  {
  }

  /** Three codes of eight bits each come out as three whole bytes. */
  method WriteBytesExample() returns (out: seq<Byte>)
    ensures out == [65, 66, 67]
  {
    WholeByte(65, []);
    WholeByte(66, [65]);
    WholeByte(67, [65, 66]);
    var bp := new BitPacker();
    bp.WriteCode(65, 8);
    assert bp.output == [65] && bp.bitBuf == 0 && bp.bitCount == 0;
    bp.WriteCode(66, 8);
    assert bp.output == [65, 66] && bp.bitBuf == 0 && bp.bitCount == 0;
    bp.WriteCode(67, 8);
    out := bp.output;
  }

  /** 0xFF written at width 4 is masked to 0x0F; flushing emits it as one byte. */
  method MaskExample() returns (out: seq<Byte>)
    ensures out == [15]
  {
    MaskedNibble();
    var bp := new BitPacker();
    bp.WriteCode(0xFF, 4);
    assert bp.bitBuf == 15 && bp.bitCount == 4;
    bp.FlushRemaining();
    out := bp.output;
    assert out == [] + [15];
  }

  /** 0xFF masked to four bits is 0x0F, and stays pending in an empty register. */
  lemma MaskedNibble()
    ensures Mask(0xFF, 4) == 15 && Merge(0, 0, 15) == 15 && Shr(15, 0) == 15
    ensures LowBytes(15, 0) == [] && (0 + 4) / 8 == 0 && (0 + 4) % 8 == 4 && 8 * 0 == 0 && 15 % 256 == 15
  {
    assert Pow2(4) == 16;
    assert 0xFF % 16 == 15;
  }
}
