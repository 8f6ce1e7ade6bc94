/** The variable-width code stream: how wide each code is, how a sequence of codes
    becomes bits, and how the decoder cuts bits back into codes. */
module CodeStream {
  import opened Arith
  import opened Bits
  import opened Dictionary

  function Min(a: int, b: int): int
  {
    if a < b then a else b
  }

  /** The width the codec uses while its table holds n entries: the least w in 9..20
      with n < 2^w, and 20 once no such w exists. */
  function CodeWidth(n: int): (w: nat)
    ensures INIT_BITS <= w <= MAXBITS
  {
    WidthFrom(n, INIT_BITS)
  }

  function WidthFrom(n: int, w: nat): (r: nat)
    requires INIT_BITS <= w <= MAXBITS
    ensures w <= r <= MAXBITS
    decreases MAXBITS - w
  {
    if w == MAXBITS || n < Pow2(w) then w else WidthFrom(n, w + 1)
  }

  /** w is the width for n entries: n fits (unless w is the cap) and n did not fit one bit narrower. */
  ghost predicate Band(n: int, w: nat)
  {
    INIT_BITS <= w <= MAXBITS &&
    (w == MAXBITS || n < Pow2(w)) &&
    (w == INIT_BITS || Pow2(w - 1) <= n)
  }

  lemma {:induction false} WidthFromBand(n: int, w: nat)
    requires INIT_BITS <= w <= MAXBITS && (w == INIT_BITS || Pow2(w - 1) <= n)
    ensures Band(n, WidthFrom(n, w))
    decreases MAXBITS - w
  {
    if !(w == MAXBITS || n < Pow2(w)) {
      WidthFromBand(n, w + 1);
    }
  }

  lemma BandUnique(n: int, w1: nat, w2: nat)
    requires Band(n, w1) && Band(n, w2)
    ensures w1 == w2
  {
    if w1 < w2 {
      Pow2Mono(w1, w2 - 1);
    } else if w2 < w1 {
      Pow2Mono(w2, w1 - 1);
    }
  }

  lemma CodeWidthBand(n: int)
    ensures Band(n, CodeWidth(n))
  {
    WidthFromBand(n, INIT_BITS);
  }

  /** The growth rule of both sides: the width w grows by one once the table size n + 1
      reaches 2^w, up to MAXBITS. */
  function NextWidth(n: int, w: nat): nat
  {
    if n + 1 == Pow2(w) && w < MAXBITS then w + 1 else w
  }

  /** The growth rule, `if (n + 1 == (1 << codeSize) && codeSize < MAXBITS) ++codeSize`,
      keeps codeSize equal to CodeWidth as n grows by one. */
  lemma CodeWidthStep(n: int)
    ensures CodeWidth(n + 1) ==
      NextWidth(n, CodeWidth(n))
  {
    CodeWidthBand(n);
    CodeWidthBand(n + 1);
    BandNext(n, CodeWidth(n), CodeWidth(n + 1));
  }

  /** The codec's width rule: codeSize grows by one exactly when nextCode reaches 2^codeSize. */
  lemma WidthNext(n: int, w: nat, w': nat)
    requires w == CodeWidth(n) && w' == NextWidth(n, w)
    ensures w' == CodeWidth(n + 1)
  {
    CodeWidthStep(n);
  }

  /** The band of n + 1 follows from the band of n by the growth rule. */
  lemma BandNext(n: int, w: nat, w': nat)
    requires Band(n, w) && Band(n + 1, w')
    ensures w' == NextWidth(n, w)
  {
    if n + 1 == Pow2(w) && w < MAXBITS {
      BandUp(n, w);
      BandUnique(n + 1, w', w + 1);
    } else {
      BandSame(n, w);
      BandUnique(n + 1, w', w);
    }
  }

  lemma BandUp(n: int, w: nat)
    requires Band(n, w) && n + 1 == Pow2(w) && w < MAXBITS
    ensures Band(n + 1, w + 1)
  {
    Pow2Succ(w);
  }

  lemma BandSame(n: int, w: nat)
    requires Band(n, w) && !(n + 1 == Pow2(w) && w < MAXBITS)
    ensures Band(n + 1, w)
  {
  }

  /** From 2^19 entries on, the width stays at the cap. */
  lemma CodeWidthSaturates(n: int)
    requires n >= Pow2(MAXBITS - 1)
    ensures CodeWidth(n) == MAXBITS
  {
    CodeWidthBand(n);
    if CodeWidth(n) < MAXBITS {
      Pow2Mono(CodeWidth(n), MAXBITS - 1);
    }
  }

  /** Every code below the cap fits the width chosen for it. */
  lemma CodeWidthFits(n: int)
    requires 0 <= n <= MAXCODE
    ensures n < Pow2(CodeWidth(n))
  {
    CodeWidthBand(n);
    MaxCodeValue();
  }

  /** The width of the j-th code of a stream (counting from 0). */
  function WidthAt(j: nat): (w: nat)
    ensures INIT_BITS <= w <= MAXBITS
  {
    CodeWidth(FIRST_CODE + j)
  }

  /** The width of the j-th code is also the width for the capped table size. */
  lemma WidthAtCapped(j: nat)
    ensures WidthAt(j) == CodeWidth(Min(FIRST_CODE + j, MAXCODE))
    ensures WidthAt(j) == CodeWidth(Min(FIRST_CODE + j, MAXCODE + 1))
  {
    MaxCodeValue();
    if FIRST_CODE + j >= MAXCODE {
      CodeWidthSaturates(FIRST_CODE + j);
      CodeWidthSaturates(MAXCODE);
      CodeWidthSaturates(MAXCODE + 1);
    }
  }

  /** A code below the j-th code's table size fits the j-th width, so writing it masks nothing. */
  lemma CodeFitsAt(j: nat, k: int)
    requires 0 <= k < Min(FIRST_CODE + j, MAXCODE)
    ensures k < Pow2(WidthAt(j))
  {
    WidthAtCapped(j);
    CodeWidthFits(Min(FIRST_CODE + j, MAXCODE));
  }

  /** The bits of `codes`, the first of them being code number j of the stream, each at its width. */
  function CodeBits(codes: seq<nat>, j: nat): (r: seq<bool>)
    ensures |r| >= INIT_BITS * |codes|
  {
    if codes == [] then [] else NatToBits(codes[0], WidthAt(j)) + CodeBits(codes[1..], j + 1)
  }

  /** Appending a code appends its bits at the width of its position k. */
  lemma {:induction false} CodeBitsSnoc(codes: seq<nat>, c: nat, j: nat, k: nat)
    requires k == j + |codes|
    ensures CodeBits(codes + [c], j) == CodeBits(codes, j) + NatToBits(c, WidthAt(k))
    decreases |codes|
  {
    if codes != [] {
      CodeBitsSnoc(codes[1..], c, j + 1, k);
      SnocStep(codes, c, j, k);
    } else {
      assert codes + [c] == [c] && [c][1..] == [];
    }
  }

  /** The inductive step of CodeBitsSnoc: the first code stays in front. */
  lemma SnocStep(codes: seq<nat>, c: nat, j: nat, k: nat)
    requires codes != []
    requires CodeBits(codes[1..] + [c], j + 1) == CodeBits(codes[1..], j + 1) + NatToBits(c, WidthAt(k))
    ensures CodeBits(codes + [c], j) == CodeBits(codes, j) + NatToBits(c, WidthAt(k))
  {
    var head, mid, last := NatToBits(codes[0], WidthAt(j)), CodeBits(codes[1..], j + 1), NatToBits(c, WidthAt(k));
    SnocSplit(codes, c);
    assert CodeBits(codes + [c], j) == head + CodeBits(codes[1..] + [c], j + 1);
    assert CodeBits(codes, j) == head + mid;
    SeqAssoc(head, mid, last);
  }

  /** A proof step, not a fact of the codec: head and tail of a sequence with one more element. */
  lemma SnocSplit(codes: seq<nat>, c: nat)
    requires codes != []
    ensures (codes + [c])[0] == codes[0] && (codes + [c])[1..] == codes[1..] + [c]
  {
  }

  /** A proof step, not a fact of the codec: concatenation regroups. */
  lemma SeqAssoc(a: seq<bool>, b: seq<bool>, c: seq<bool>)
    ensures a + (b + c) == (a + b) + c
  {
  }

  /** The codes fit their widths from position j on. */
  ghost predicate FitWidths(codes: seq<nat>, j: nat)
  {
    forall i :: 0 <= i < |codes| ==> codes[i] < Pow2(WidthAt(j + i))
  }

  /** The decoder's reading of a bit stream: whole codes at the schedule's widths,
      stopping as soon as fewer bits remain than the next code's width. */
  function ParseCodes(bits: seq<bool>, j: nat): seq<nat>
    decreases |bits|
  {
    var w := WidthAt(j);
    if |bits| < w then [] else [BitsToNat(bits[..w])] + ParseCodes(bits[w..], j + 1)
  }

  /** Reading back what was written: the codes come back, then the reading goes on
      in `rest` at the position k after them. */
  lemma {:induction false} ParseCodeBits(codes: seq<nat>, j: nat, rest: seq<bool>, k: nat)
    requires FitWidths(codes, j) && k == j + |codes|
    ensures ParseCodes(CodeBits(codes, j) + rest, j) == codes + ParseCodes(rest, k)
    decreases |codes|
  {
    if codes != [] {
      FitTail(codes, j);
      ParseCodeBits(codes[1..], j + 1, rest, k);
      ParseStep(codes, j, rest, k);
    } else {
      assert CodeBits(codes, j) + rest == rest;
      assert codes + ParseCodes(rest, k) == ParseCodes(rest, k);
    }
  }

  /** The codes after the first fit their widths from the next position on. */
  lemma FitTail(codes: seq<nat>, j: nat)
    requires codes != [] && FitWidths(codes, j)
    ensures codes[0] < Pow2(WidthAt(j)) && FitWidths(codes[1..], j + 1)
  {
    assert codes[0] < Pow2(WidthAt(j + 0));
    forall i | 0 <= i < |codes[1..]| ensures codes[1..][i] < Pow2(WidthAt(j + 1 + i)) {
      assert codes[1..][i] == codes[i + 1];
      assert j + 1 + i == j + (i + 1);
    }
  }

  /** The inductive step of ParseCodeBits: the first code is read back, then the rest. */
  lemma ParseStep(codes: seq<nat>, j: nat, rest: seq<bool>, k: nat)
    requires codes != [] && codes[0] < Pow2(WidthAt(j))
    requires ParseCodes(CodeBits(codes[1..], j + 1) + rest, j + 1) == codes[1..] + ParseCodes(rest, k)
    ensures ParseCodes(CodeBits(codes, j) + rest, j) == codes + ParseCodes(rest, k)
  {
    var tail := CodeBits(codes[1..], j + 1) + rest;
    CodeBitsCons(codes, j, rest);
    ParseHead(codes[0], j, tail);
    ConsJoin(ParseCodes(CodeBits(codes, j) + rest, j), ParseCodes(tail, j + 1), codes, ParseCodes(rest, k));
  }

  /** The bits of a non-empty code sequence: the first code's, then the others'. */
  lemma CodeBitsCons(codes: seq<nat>, j: nat, rest: seq<bool>)
    requires codes != []
    ensures ParseCodes(CodeBits(codes, j) + rest, j) ==
      ParseCodes(NatToBits(codes[0], WidthAt(j)) + (CodeBits(codes[1..], j + 1) + rest), j)
  {
    var head, mid := NatToBits(codes[0], WidthAt(j)), CodeBits(codes[1..], j + 1);
    assert CodeBits(codes, j) == head + mid;
    assert (head + mid) + rest == head + (mid + rest);
  }

  /** A proof step, not a fact of the codec: x = [c0] + t and t = codes[1..] + y give x = codes + y. */
  lemma ConsJoin(x: seq<nat>, t: seq<nat>, codes: seq<nat>, y: seq<nat>)
    requires codes != [] && x == [codes[0]] + t && t == codes[1..] + y
    ensures x == codes + y
  {
    assert [codes[0]] + codes[1..] == codes;
  }

  /** A code that fits its width is read back from the front of the bits. */
  lemma ParseHead(c: nat, j: nat, tail: seq<bool>)
    requires c < Pow2(WidthAt(j))
    ensures ParseCodes(NatToBits(c, WidthAt(j)) + tail, j) == [c] + ParseCodes(tail, j + 1)
  {
    var w := WidthAt(j);
    var bits := NatToBits(c, w) + tail;
    assert bits[..w] == NatToBits(c, w);
    assert bits[w..] == tail;
    BitsToNatOf(c, w);
    DivModUnique(c, Pow2(w), 0, c);
  }

  /** Trailing padding shorter than any code is never read as a code. */
  lemma PaddingIgnored(codes: seq<nat>, pad: nat)
    requires FitWidths(codes, 0) && pad < INIT_BITS
    ensures ParseCodes(CodeBits(codes, 0) + Zeros(pad), 0) == codes
  {
    ParseCodeBits(codes, 0, Zeros(pad), |codes|);
  }
}
