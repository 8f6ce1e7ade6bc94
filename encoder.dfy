/** The LZW encoder of encoder.hpp: greedy longest match over the dictionary, one code
    per match, one new entry per code while there is room, widths from 9 to 20 bits. */
module Encoder {
  import opened Arith
  import opened Bits
  import opened Dictionary
  import opened CodeStream
  import opened Coding
  import opened BitIO

  /** The encoder's variables after some input: the table and reverse map, `nextCode`,
      `codeSize`, the current match `p` (-1 before the first byte) and, as a record of
      the calls to writeCode so far, the codes emitted. */
  datatype EncState = EncState(dict: seq<Entry>, lookup: map<Key, int>, nextCode: int,
                               codeSize: nat, p: int, emitted: seq<nat>)

  /** What makes one step well defined: p is a code or -1, and codes are non-negative. */
  ghost predicate Sane(st: EncState)
  {
    st.p >= -1 && st.nextCode >= 0 && forall k :: k in st.lookup ==> st.lookup[k] >= 0
  }

  function InitState(): EncState
  {
    EncState(SeedTable(), SeedLookup(), FIRST_CODE, INIT_BITS, -1, [])
  }

  /** The body of the per-byte loop of execEncoding. */
  function EncStep(st: EncState, c: Byte): (r: EncState)
    requires Sane(st)
    ensures Sane(r)
  {
    var key := Key(st.p, c);
    if key in st.lookup then st.(p := st.lookup[key])
    else
      var emitted := if st.p != -1 then st.emitted + [st.p] else st.emitted;
      if st.nextCode < MAXCODE then
        var n := st.nextCode + 1;
        var w := NextWidth(st.nextCode, st.codeSize);
        EncState(st.dict + [Entry(st.p, c)], st.lookup[key := st.nextCode], n, w, c, emitted)
      else
        st.(p := c, emitted := emitted)
  }

  /** The encoder's state after the bytes of s. */
  function EncRun(s: seq<Byte>): (r: EncState)
    ensures Sane(r)
  {
    if s == [] then InitState() else EncStep(EncRun(s[..|s| - 1]), s[|s| - 1])
  }

  /** All the codes the encoder writes: the emitted ones, then the final match. */
  function Codes(st: EncState): seq<nat>
  {
    if st.p < 0 then st.emitted else st.emitted + [st.p]
  }

  /** The code sequence the encoder writes for s. */
  function EncodeCodes(s: seq<Byte>): seq<nat>
  {
    Codes(EncRun(s))
  }

  /** The encoder's invariant after the bytes of s. */
  ghost predicate EncInv(st: EncState, s: seq<Byte>)
  {
    Valid(st.dict, st.lookup) &&
    st.nextCode == |st.dict| == Min(FIRST_CODE + |st.emitted|, MAXCODE) &&
    st.codeSize == CodeWidth(st.nextCode) &&
    -1 <= st.p < |st.dict| &&
    (st.p == -1 <==> s == []) &&
    (s == [] ==> st.emitted == []) &&
    Parses(st.dict, Codes(st), s)
  }

  lemma InitInv()
    ensures EncInv(InitState(), [])
  {
    ParsesEmpty();
    assert CodeWidth(FIRST_CODE) == INIT_BITS by {
      MaxCodeValue();
    }
  }

  /** A hit only extends the match: nothing is emitted, the table is unchanged, and the
      new match spells the old one plus the byte. */
  lemma EncHit(st: EncState, s: seq<Byte>, c: Byte)
    requires EncInv(st, s) && Key(st.p, c) in st.lookup
    ensures var r := EncStep(st, c);
      r.emitted == st.emitted && r.dict == st.dict && r.lookup == st.lookup &&
      r.nextCode == st.nextCode && r.codeSize == st.codeSize &&
      Expand(r.dict, r.p) == Expand(st.dict, st.p) + [c]
    ensures EncInv(EncStep(st, c), s + [c])
  {
    var dict, q := st.dict, st.lookup[Key(st.p, c)];
    assert KeyOf(dict[q]) == Key(st.p, c);
    assert Expand(dict, q) == Expand(dict, st.p) + [c];
    if st.p == -1 {
      ParsesFirst(dict, q, c);
      assert Codes(EncStep(st, c)) == [q];
    } else {
      var K := Codes(st);
      assert K[..|K| - 1] == st.emitted;
      ParsesExtendLast(dict, K, s, q, c);
      assert Codes(EncStep(st, c)) == st.emitted + [q];
    }
  }

  /** A miss emits the match, which is never -1 because every single byte is seeded, adds
      the entry {p, c} at index nextCode while nextCode < MAXCODE, and restarts the match at c. */
  lemma EncMiss(st: EncState, s: seq<Byte>, c: Byte)
    requires EncInv(st, s) && Key(st.p, c) !in st.lookup
    ensures st.p != -1
    ensures var r := EncStep(st, c);
      r.emitted == st.emitted + [st.p] && r.p == c &&
      (st.nextCode < MAXCODE ==>
         r.dict == st.dict + [Entry(st.p, c)] && r.nextCode == st.nextCode + 1 &&
         r.lookup == st.lookup[Key(st.p, c) := st.nextCode] &&
         r.codeSize == NextWidth(st.nextCode, st.codeSize)) &&
      (st.nextCode >= MAXCODE ==> r.dict == st.dict && r.lookup == st.lookup && r.nextCode == st.nextCode)
  {
    assert KeyOf(st.dict[c]) == Key(-1, c);
  }

  /** A miss while there is room keeps the invariant. */
  lemma EncMissGrow(st: EncState, s: seq<Byte>, c: Byte)
    requires EncInv(st, s) && Key(st.p, c) !in st.lookup && st.nextCode < MAXCODE
    ensures EncInv(EncStep(st, c), s + [c])
  {
    MissParses(st, s, c);
    MissTable(st, s, c);
    MissWidth(st, s, c);
  }

  /** After a miss with room, codeSize is still the width of nextCode. */
  lemma MissWidth(st: EncState, s: seq<Byte>, c: Byte)
    requires EncInv(st, s) && Key(st.p, c) !in st.lookup && st.nextCode < MAXCODE
    ensures EncStep(st, c).codeSize == CodeWidth(EncStep(st, c).nextCode)
  {
    EncMiss(st, s, c);
    WidthNext(st.nextCode, st.codeSize, EncStep(st, c).codeSize);
  }

  /** After a miss with room, the codes written so far spell the input read so far. */
  lemma MissParses(st: EncState, s: seq<Byte>, c: Byte)
    requires EncInv(st, s) && Key(st.p, c) !in st.lookup && st.nextCode < MAXCODE
    ensures var r := EncStep(st, c);
      Parses(r.dict, Codes(r), s + [c]) && r.nextCode == |r.dict| && 0 <= r.p < |r.dict|
  {
    EncMiss(st, s, c);
    var r := EncStep(st, c);
    var K := Codes(st);
    assert K == st.emitted + [st.p] && K[|K| - 1] == st.p;
    assert Codes(r) == K + [c];
    ParsesNewCode(st.dict, K, s, c);
  }

  /** After a miss with room, the table and the reverse map still agree, and nextCode
      counts one more code. */
  lemma MissTable(st: EncState, s: seq<Byte>, c: Byte)
    requires EncInv(st, s) && Key(st.p, c) !in st.lookup && st.nextCode < MAXCODE
    requires ValidTable(EncStep(st, c).dict)
    ensures var r := EncStep(st, c);
      Valid(r.dict, r.lookup) && r.nextCode == Min(FIRST_CODE + |r.emitted|, MAXCODE)
  {
    EncMiss(st, s, c);
    AppendAgree(st.dict, st.lookup, Entry(st.p, c));
  }


  /** A miss once the table is full keeps the invariant. */
  lemma EncMissFull(st: EncState, s: seq<Byte>, c: Byte)
    requires EncInv(st, s) && Key(st.p, c) !in st.lookup && st.nextCode >= MAXCODE
    ensures EncInv(EncStep(st, c), s + [c])
  {
    EncMiss(st, s, c);
    var K := Codes(st);
    assert K == st.emitted + [st.p];
    assert Codes(EncStep(st, c)) == K + [c];
    ParsesFullCode(st.dict, K, s, c);
  }

  lemma EncStepInv(st: EncState, s: seq<Byte>, c: Byte)
    requires EncInv(st, s)
    ensures EncInv(EncStep(st, c), s + [c])
  {
    if Key(st.p, c) in st.lookup {
      EncHit(st, s, c);
    } else if st.nextCode < MAXCODE {
      EncMissGrow(st, s, c);
    } else {
      EncMissFull(st, s, c);
    }
  }

  /** The invariant holds after every input: the codes the encoder writes spell the input. */
  lemma {:induction false} EncRunInv(s: seq<Byte>)
    ensures EncInv(EncRun(s), s)
  {
    if s == [] {
      InitInv();
    } else {
      var init, c := s[..|s| - 1], s[|s| - 1];
      EncRunInv(init);
      EncStepInv(EncRun(init), init, c);
      assert init + [c] == s;
      assert EncRun(s) == EncStep(EncRun(init), c);
    }
  }

  /** The encoder's codes spell the input, each code fits its width, and the empty
      input alone has no codes. */
  lemma EncodeParses(s: seq<Byte>)
    ensures Parses(EncRun(s).dict, EncodeCodes(s), s)
    ensures FitWidths(EncodeCodes(s), 0)
    ensures EncodeCodes(s) == [] <==> s == []
  {
    EncRunInv(s);
    ParsesFit(EncRun(s).dict, EncodeCodes(s), s);
  }

  /** codeSize starts at 9, only grows, tracks the width of nextCode, stays within 20, and
      nextCode never exceeds MAXCODE. */
  lemma {:induction false} WidthMonotone(s: seq<Byte>, c: Byte)
    ensures EncRun(s).codeSize <= EncRun(s + [c]).codeSize <= MAXBITS
    ensures EncRun(s).nextCode <= EncRun(s + [c]).nextCode <= MAXCODE
  {
    EncRunInv(s);
    assert (s + [c])[..|s|] == s;
    var st := EncRun(s);
    if Key(st.p, c) !in st.lookup && st.nextCode < MAXCODE {
      EncMiss(st, s, c);
      WidthNext(st.nextCode, st.codeSize, EncStep(st, c).codeSize);
    }
  }

  /** Every code handed to writeCode is below nextCode and below 2^codeSize. */
  lemma EmitFits(st: EncState, s: seq<Byte>)
    requires EncInv(st, s) && st.p != -1
    ensures st.p < st.nextCode && st.p < Pow2(st.codeSize)
  {
    CodeWidthFits(st.nextCode);
  }

  /** What writeCode needs to know of the match at every step: the current width is the
      width of the next code of the stream, and the match fits it. */
  lemma RunWidth(s: seq<Byte>)
    ensures var st := EncRun(s);
      st.codeSize == WidthAt(|st.emitted|) &&
      (st.p != -1 ==> 0 <= st.p < Pow2(st.codeSize) && st.p % Pow2(st.codeSize) == st.p)
  {
    var st := EncRun(s);
    EncRunInv(s);
    WidthAtCapped(|st.emitted|);
    if st.p != -1 {
      EmitFits(st, s);
      DivModUnique(st.p, Pow2(st.codeSize), 0, st.p);
    }
  }

  lemma RunSnoc(input: seq<Byte>, i: nat)
    requires i < |input|
    ensures EncRun(input[..i + 1]) == EncStep(EncRun(input[..i]), input[i])
  {
    assert input[..i + 1][..i] == input[..i];
  }

  /** `bp.writeCode(p, codeSize)` for a code that fits the current width: the packer's
      stream grows by the next code of the code stream. */
  method EmitCode(bp: BitPacker, code: nat, codeSize: nat, ghost emitted: seq<nat>)
    returns (ghost emitted': seq<nat>)
    requires codeSize == WidthAt(|emitted|) && code % Pow2(codeSize) == code
    requires bp.Valid() && bp.bitCount < 8 && bp.Stream() == CodeBits(emitted, 0)
    modifies bp
    ensures emitted' == emitted + [code]
    ensures bp.Valid() && bp.bitCount < 8 && bp.Stream() == CodeBits(emitted', 0)
  {
    CodeBitsSnoc(emitted, code, 0, |emitted|);
    bp.WriteCode(code, codeSize);
    emitted' := emitted + [code];
  }

  /** One pass of the per-byte loop of execEncoding: look up {p, c}; on a hit extend the
      match, on a miss write p, add the entry while there is room, grow the width, and
      restart the match at c. */
  method EncodeByte(bp: BitPacker, dict: seq<Entry>, lookup: map<Key, int>, nextCode: int,
                    codeSize: nat, p: int, ghost emitted: seq<nat>, c: Byte)
    returns (dict': seq<Entry>, lookup': map<Key, int>, nextCode': int, codeSize': nat, p': int,
             ghost emitted': seq<nat>)
    requires Sane(EncState(dict, lookup, nextCode, codeSize, p, emitted))
    requires codeSize == WidthAt(|emitted|) && (p != -1 ==> p % Pow2(codeSize) == p)
    requires bp.Valid() && bp.bitCount < 8 && bp.Stream() == CodeBits(emitted, 0)
    modifies bp
    ensures EncState(dict', lookup', nextCode', codeSize', p', emitted') ==
      EncStep(EncState(dict, lookup, nextCode, codeSize, p, emitted), c)
    ensures bp.Valid() && bp.bitCount < 8 && bp.Stream() == CodeBits(emitted', 0)
  {
    dict', lookup', nextCode', codeSize', p', emitted' := dict, lookup, nextCode, codeSize, p, emitted;
    var key := Key(p, c);
    if key in lookup {
      p' := lookup[key];
    } else {
      if p != -1 {
        emitted' := EmitCode(bp, p, codeSize, emitted);
      }
      if nextCode < MAXCODE {
        dict' := dict + [Entry(p, c)];
        lookup' := lookup[key := nextCode];
        nextCode' := nextCode + 1;
        if nextCode' == Pow2(codeSize) && codeSize < MAXBITS {
          codeSize' := codeSize + 1;
        }
      }
      p' := c;
    }
  }

  /** The end of execEncoding: write the last match, if any, then flush the partial byte. */
  method FinishEncoding(bp: BitPacker, codeSize: nat, p: int, ghost emitted: seq<nat>)
    returns (out: seq<Byte>)
    requires p >= -1 && codeSize == WidthAt(|emitted|) && (p != -1 ==> p % Pow2(codeSize) == p)
    requires bp.Valid() && bp.bitCount < 8 && bp.Stream() == CodeBits(emitted, 0)
    modifies bp
    ensures var bits := CodeBits(if p == -1 then emitted else emitted + [p], 0);
      |bits| <= 8 * |out| < |bits| + 8 &&
      BytesToBits(out) == bits + Zeros(8 * |out| - |bits|)
  {
    if p != -1 {
      ghost var written := EmitCode(bp, p, codeSize, emitted);
    }
    ghost var bits := bp.Stream();
    ghost var pad: nat := if bp.bitCount == 0 then 0 else 8 - bp.bitCount;
    bp.FlushRemaining();
    out := bp.output;
    assert BytesToBits(out) == bits + Zeros(pad);
    assert 8 * |out| == |bits| + pad;
  }

  /** execEncoding: the input as a whole byte sequence, the output as the packer's bytes.
      The output is the bits of the encoder's codes at their widths, closed by fewer than
      eight zero bits of padding. */
  method ExecEncoding(input: seq<Byte>) returns (out: seq<Byte>)
    ensures var bits := CodeBits(EncodeCodes(input), 0);
      |bits| <= 8 * |out| < |bits| + 8 &&
      BytesToBits(out) == bits + Zeros(8 * |out| - |bits|)
    ensures input == [] <==> out == []
  {
    var dict, lookup := InitDictionary();
    var nextCode: int := FIRST_CODE;
    var codeSize: nat := INIT_BITS;
    var bp := new BitPacker();
    var p: int := -1;
    ghost var emitted: seq<nat> := [];
    for i := 0 to |input|
      invariant EncState(dict, lookup, nextCode, codeSize, p, emitted) == EncRun(input[..i])
      invariant bp.Valid() && bp.bitCount < 8 && bp.Stream() == CodeBits(emitted, 0)
    {
      RunSnoc(input, i);
      RunWidth(input[..i]);
      dict, lookup, nextCode, codeSize, p, emitted :=
        EncodeByte(bp, dict, lookup, nextCode, codeSize, p, emitted, input[i]);
    }
    assert input[..|input|] == input;
    RunWidth(input);
    EncodeParses(input);
    out := FinishEncoding(bp, codeSize, p, emitted);
  }

  /** "AAA": the match "A" misses on the second byte, so 65 is written and "AA" becomes
      code 256; the third byte extends the match to 256, which is written last. */
  lemma AAAExample()
    ensures EncodeCodes([65, 65, 65]) == [65, 256]
  {
    var st1 := InitState().(p := 65);
    assert Key(-1, 65) in SeedLookup() && SeedLookup()[Key(-1, 65)] == 65;
    assert [65, 65][..1] == [65] && [65, 65, 65][..2] == [65, 65] && [65][..0] == [];
    assert EncRun([65]) == st1;
    assert Key(65, 65) !in SeedLookup();
    MaxCodeValue();
    var st2 := EncState(SeedTable() + [Entry(65, 65)], SeedLookup()[Key(65, 65) := 256], 257, INIT_BITS, 65, [65]);
    assert EncRun([65, 65]) == st2;
    assert EncRun([65, 65, 65]) == st2.(p := 256);
  }
}
